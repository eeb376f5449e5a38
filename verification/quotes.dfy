/** The quotes page: toggling a quote in the favourites set and listing
    favourites first. */
module Quotes {
  import opened Catalog
  import StableSort

  /** `toggleFavorite`: a new set with `id` removed if present, added if not. */
  function ToggleFavorite(favs: set<int>, id: int): (r: set<int>)
    ensures id in r <==> id !in favs
    ensures forall x :: x != id ==> (x in r <==> x in favs)
  {
    if id in favs then favs - {id} else favs + {id}
  }

  /** Toggling twice restores the set. */
  lemma ToggleTwice(favs: set<int>, id: int)
    ensures ToggleFavorite(ToggleFavorite(favs, id), id) == favs
  {
  }

  /** The comparator of `sortedQuotes` as written. */
  function FavCompare(favs: set<int>, a: Quote, b: Quote): (order: int) {
    var aIsFav := a.id in favs;
    var bIsFav := b.id in favs;
    if aIsFav && !bIsFav then -1
    else if !aIsFav && bIsFav then 1
    else 0
  }

  /** The key the comparator compares: 0 for a favourite, 1 otherwise. */
  function FavKey(favs: set<int>): Quote -> int {
    (q: Quote) => if q.id in favs then 0 else 1
  }

  /** The comparator is negative, zero or positive exactly as the keys are
      ordered, so a stable sort with it is the stable sort by the key. */
  lemma FavCompareIsKeyOrder(favs: set<int>, a: Quote, b: Quote)
    ensures FavCompare(favs, a, b) < 0 <==> FavKey(favs)(a) < FavKey(favs)(b)
    ensures FavCompare(favs, a, b) == 0 <==> FavKey(favs)(a) == FavKey(favs)(b)
    ensures FavCompare(favs, a, b) > 0 <==> FavKey(favs)(a) > FavKey(favs)(b)
  {
  }

  /** `sortedQuotes`: the stable sort of the quotes with the comparator. */
  function SortedQuotes(quotes: seq<Quote>, favs: set<int>): (sorted: seq<Quote>)
    ensures |sorted| == |quotes| && multiset(sorted) == multiset(quotes)
    ensures forall i, j :: 0 <= i < j < |sorted| && sorted[j].id in favs ==> sorted[i].id in favs
  {
    var r := StableSort.Sort(quotes, FavKey(favs));
    StableSort.SortIsSorted(quotes, FavKey(favs));
    assert forall i, j :: 0 <= i < j < |r| ==> FavKey(favs)(r[i]) <= FavKey(favs)(r[j]);
    r
  }

  /** The favourite quotes, in list order. */
  function Favourites(quotes: seq<Quote>, favs: set<int>): (r: seq<Quote>)
    ensures forall i :: 0 <= i < |r| ==> r[i].id in favs
  {
    if |quotes| == 0 then []
    else (if quotes[0].id in favs then [quotes[0]] else []) + Favourites(quotes[1..], favs)
  }

  /** The other quotes, in list order. */
  function Others(quotes: seq<Quote>, favs: set<int>): (r: seq<Quote>)
    ensures forall i :: 0 <= i < |r| ==> r[i].id !in favs
  {
    if |quotes| == 0 then []
    else (if quotes[0].id in favs then [] else [quotes[0]]) + Others(quotes[1..], favs)
  }

  /** Favourites first, each group in list order: the sort is exactly this
      partition. */
  lemma {:induction false} SortedQuotesIsPartition(quotes: seq<Quote>, favs: set<int>)
    ensures SortedQuotes(quotes, favs) == Favourites(quotes, favs) + Others(quotes, favs)
  {
    if |quotes| > 0 {
      var q := quotes[0];
      var t := quotes[1..];
      var key := FavKey(favs);
      var f, o := Favourites(t, favs), Others(t, favs);
      SortedQuotesIsPartition(t, favs);
      assert StableSort.Sort(quotes, key) == StableSort.Insert(q, f + o, key);
      if q.id in favs {
        assert Favourites(quotes, favs) == [q] + f;
        assert Others(quotes, favs) == o;
        InsertFavourite(q, f + o, favs);
        Reassociate([q], f, o);
      } else {
        assert Favourites(quotes, favs) == f;
        assert Others(quotes, favs) == [q] + o;
        InsertOther(q, f, o, favs);
        Reassociate(f, [q], o);
      }
    }
  }

  lemma InsertFavourite(q: Quote, s: seq<Quote>, favs: set<int>)
    requires q.id in favs
    ensures StableSort.Insert(q, s, FavKey(favs)) == [q] + s
  {
  }

  lemma Reassociate(a: seq<Quote>, b: seq<Quote>, c: seq<Quote>)
    ensures a + b + c == a + (b + c)
  {
  }

  lemma InsertOther(q: Quote, f: seq<Quote>, o: seq<Quote>, favs: set<int>)
    requires q.id !in favs
    requires forall i :: 0 <= i < |f| ==> f[i].id in favs
    requires forall i :: 0 <= i < |o| ==> o[i].id !in favs
    ensures StableSort.Insert(q, f + o, FavKey(favs)) == f + [q] + o
  {
    var key := FavKey(favs);
    forall i | 0 <= i < |f| ensures key(f[i]) < key(q) {
      assert f[i].id in favs;
    }
    assert |o| == 0 || key(q) <= key(o[0]);
    StableSort.InsertBetween(q, f, o, key);
  }

  lemma {:induction false} FavouritesOfConcat(a: seq<Quote>, b: seq<Quote>, favs: set<int>)
    ensures Favourites(a + b, favs) == Favourites(a, favs) + Favourites(b, favs)
    ensures Others(a + b, favs) == Others(a, favs) + Others(b, favs)
  {
    if |a| > 0 {
      assert (a + b)[1..] == a[1..] + b;
      FavouritesOfConcat(a[1..], b, favs);
    } else {
      assert a + b == b;
    }
  }

  lemma {:induction false} FilterOfFiltered(quotes: seq<Quote>, favs: set<int>)
    ensures Favourites(Favourites(quotes, favs), favs) == Favourites(quotes, favs)
    ensures Others(Favourites(quotes, favs), favs) == []
    ensures Favourites(Others(quotes, favs), favs) == []
    ensures Others(Others(quotes, favs), favs) == Others(quotes, favs)
  {
    if |quotes| > 0 {
      var q := quotes[0];
      var t := quotes[1..];
      FilterOfFiltered(t, favs);
      if q.id in favs {
        FavouritesOfConcat([q], Favourites(t, favs), favs);
        assert Others(quotes, favs) == Others(t, favs);
      } else {
        FavouritesOfConcat([q], Others(t, favs), favs);
        assert Favourites(quotes, favs) == Favourites(t, favs);
      }
    }
  }

  /** What the list shows: the same quotes, every favourite above every
      other quote, and the list order kept within the favourites and
      within the others. */
  lemma SortedQuotesSpec(quotes: seq<Quote>, favs: set<int>)
    ensures multiset(SortedQuotes(quotes, favs)) == multiset(quotes)
    ensures forall i, j :: 0 <= i < j < |SortedQuotes(quotes, favs)| ==>
      !(SortedQuotes(quotes, favs)[i].id !in favs && SortedQuotes(quotes, favs)[j].id in favs)
    ensures Favourites(SortedQuotes(quotes, favs), favs) == Favourites(quotes, favs)
    ensures Others(SortedQuotes(quotes, favs), favs) == Others(quotes, favs)
  {
    var r := SortedQuotes(quotes, favs);
    StableSort.SortIsSorted(quotes, FavKey(favs));
    forall i, j | 0 <= i < j < |r| ensures !(r[i].id !in favs && r[j].id in favs) {
      assert FavKey(favs)(r[i]) <= FavKey(favs)(r[j]);
    }
    SortedQuotesIsPartition(quotes, favs);
    FavouritesOfConcat(Favourites(quotes, favs), Others(quotes, favs), favs);
    FilterOfFiltered(quotes, favs);
  }

  lemma {:induction false} NoFavourites(quotes: seq<Quote>)
    ensures Favourites(quotes, {}) == []
    ensures Others(quotes, {}) == quotes
  {
    if |quotes| > 0 {
      NoFavourites(quotes[1..]);
      assert quotes == [quotes[0]] + quotes[1..];
    }
  }

  /** With no favourites the list is the catalog order. */
  lemma SortedQuotesNoFavourites(quotes: seq<Quote>)
    ensures SortedQuotes(quotes, {}) == quotes
  {
    SortedQuotesIsPartition(quotes, {});
    NoFavourites(quotes);
  }
}
