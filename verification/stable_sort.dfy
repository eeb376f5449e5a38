/** A stable sort by an integer key. JavaScript's `Array.prototype.sort` is
    stable, and both comparators of the application (the journal's date
    comparator and the favourites-first comparator) compare by a key: the
    comparator is negative, zero or positive exactly when the first key is
    smaller, equal or larger. A stable sort with such a comparator has exactly
    one possible result, which this insertion sort computes. */
module StableSort {

  /** Keys never decrease from left to right. */
  predicate Sorted<T>(s: seq<T>, key: T -> int) {
    forall i, j :: 0 <= i < j < |s| ==> key(s[i]) <= key(s[j])
  }

  /** The elements of `s` whose key is `k`, in their order in `s`. */
  function WithKey<T>(s: seq<T>, key: T -> int, k: int): (r: seq<T>)
    ensures |r| <= |s|
    ensures forall i :: 0 <= i < |r| ==> key(r[i]) == k
  {
    if |s| == 0 then []
    else (if key(s[0]) == k then [s[0]] else []) + WithKey(s[1..], key, k)
  }

  /** No two elements share a value of `f`. */
  predicate DistinctBy<T, K(==)>(s: seq<T>, f: T -> K) {
    forall i, j :: 0 <= i < j < |s| ==> f(s[i]) != f(s[j])
  }

  /** Places `x` in front of the first element whose key is not smaller. */
  function Insert<T>(x: T, s: seq<T>, key: T -> int): (r: seq<T>)
    ensures multiset(r) == multiset(s) + multiset{x}
  {
    if |s| == 0 || key(x) <= key(s[0]) then [x] + s
    else
      assert s == [s[0]] + s[1..];
      [s[0]] + Insert(x, s[1..], key)
  }

  /** Stable insertion sort: the head is inserted into the sorted tail in
      front of every element with an equal key, since it preceded them. */
  function Sort<T>(s: seq<T>, key: T -> int): (r: seq<T>)
    ensures multiset(r) == multiset(s)
    ensures |r| == |s|
  {
    if |s| == 0 then []
    else
      assert s == [s[0]] + s[1..];
      Insert(s[0], Sort(s[1..], key), key)
  }

  lemma InMultiset<T>(x: T, a: seq<T>, b: seq<T>)
    requires multiset(a) == multiset(b)
    requires x in a
    ensures x in b
  {
    assert x in multiset(a);
  }

  lemma {:induction false} InsertKeepsSorted<T>(x: T, s: seq<T>, key: T -> int)
    requires Sorted(s, key)
    ensures Sorted(Insert(x, s, key), key)
  {
    if |s| == 0 || key(x) <= key(s[0]) {
    } else {
      var tail := Insert(x, s[1..], key);
      InsertKeepsSorted(x, s[1..], key);
      forall i | 0 <= i < |tail|
        ensures key(s[0]) <= key(tail[i])
      {
        assert tail[i] in multiset(tail);
        if tail[i] != x {
          assert tail[i] in multiset(s[1..]);
          var j :| 0 <= j < |s[1..]| && s[1..][j] == tail[i];
          assert s[j + 1] == tail[i];
        }
      }
    }
  }

  /** The result of the sort is ordered by key. */
  lemma {:induction false} SortIsSorted<T>(s: seq<T>, key: T -> int)
    ensures Sorted(Sort(s, key), key)
  {
    if |s| > 0 {
      SortIsSorted(s[1..], key);
      InsertKeepsSorted(s[0], Sort(s[1..], key), key);
    }
  }

  lemma {:induction false} InsertWithKey<T>(x: T, s: seq<T>, key: T -> int, k: int)
    ensures WithKey(Insert(x, s, key), key, k)
         == (if key(x) == k then [x] else []) + WithKey(s, key, k)
  {
    if |s| == 0 || key(x) <= key(s[0]) {
      assert ([x] + s)[1..] == s;
    } else {
      InsertWithKey(x, s[1..], key, k);
      assert ([s[0]] + Insert(x, s[1..], key))[1..] == Insert(x, s[1..], key);
    }
  }

  /** Stability: within every key class the sort keeps the input order. */
  lemma {:induction false} SortIsStable<T>(s: seq<T>, key: T -> int, k: int)
    ensures WithKey(Sort(s, key), key, k) == WithKey(s, key, k)
  {
    if |s| > 0 {
      SortIsStable(s[1..], key, k);
      InsertWithKey(s[0], Sort(s[1..], key), key, k);
    }
  }

  /** Sorting a sorted sequence leaves it unchanged. */
  lemma {:induction false} SortOfSorted<T>(s: seq<T>, key: T -> int)
    requires Sorted(s, key)
    ensures Sort(s, key) == s
  {
    if |s| > 0 {
      assert Sorted(s[1..], key);
      SortOfSorted(s[1..], key);
      assert s == [s[0]] + s[1..];
    }
  }

  lemma {:induction false} InsertKeepsDistinct<T, K>(x: T, s: seq<T>, key: T -> int, f: T -> K)
    requires DistinctBy(s, f)
    requires forall i :: 0 <= i < |s| ==> f(s[i]) != f(x)
    ensures DistinctBy(Insert(x, s, key), f)
  {
    if |s| == 0 || key(x) <= key(s[0]) {
    } else {
      var tail := Insert(x, s[1..], key);
      InsertKeepsDistinct(x, s[1..], key, f);
      forall i | 0 <= i < |tail|
        ensures f(s[0]) != f(tail[i])
      {
        assert tail[i] in multiset(tail);
        if tail[i] != x {
          assert tail[i] in multiset(s[1..]);
          var j :| 0 <= j < |s[1..]| && s[1..][j] == tail[i];
          assert s[j + 1] == tail[i];
        }
      }
    }
  }

  /** Sorting never makes two elements agree on `f` when none did. */
  lemma {:induction false} SortKeepsDistinct<T, K>(s: seq<T>, key: T -> int, f: T -> K)
    requires DistinctBy(s, f)
    ensures DistinctBy(Sort(s, key), f)
  {
    if |s| > 0 {
      assert DistinctBy(s[1..], f);
      SortKeepsDistinct(s[1..], key, f);
      var tail := Sort(s[1..], key);
      forall i | 0 <= i < |tail|
        ensures f(tail[i]) != f(s[0])
      {
        InMultiset(tail[i], tail, s[1..]);
        var j :| 0 <= j < |s[1..]| && s[1..][j] == tail[i];
        assert s[j + 1] == tail[i];
      }
      InsertKeepsDistinct(s[0], tail, key, f);
    }
  }

  /** Inserting behind a run of strictly smaller keys and in front of a
      run that starts with a key not smaller than x's. */
  lemma {:induction false} InsertBetween<T>(x: T, a: seq<T>, b: seq<T>, key: T -> int)
    requires forall i :: 0 <= i < |a| ==> key(a[i]) < key(x)
    requires |b| == 0 || key(x) <= key(b[0])
    ensures Insert(x, a + b, key) == a + [x] + b
  {
    if |a| == 0 {
      assert a + b == b;
    } else {
      var ab := a + b;
      assert ab[0] == a[0] && ab[1..] == a[1..] + b;
      InsertBetween(x, a[1..], b, key);
      assert Insert(x, ab, key) == [a[0]] + (a[1..] + [x] + b);
      assert a + [x] + b == [a[0]] + (a[1..] + [x] + b) by {
        assert a == [a[0]] + a[1..];
      }
    }
  }
}
