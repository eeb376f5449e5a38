/** The `yyyy-MM-dd` strings the journal stores as dates: date-fns'
    `format(date, "yyyy-MM-dd")` writes them, and `new Date(string)` reads
    them back in the comparator of the journal's sort. */
module DateFormat {
  import opened Wrappers
  import opened Calendar

  predicate IsDigit(c: char) {
    '0' <= c <= '9'
  }

  function DigitValue(c: char): int
    requires IsDigit(c)
  {
    c as int - '0' as int
  }

  function DigitChar(n: int): (c: char)
    requires 0 <= n <= 9
    ensures IsDigit(c) && DigitValue(c) == n
  {
    ('0' as int + n) as char
  }

  /** `n` in exactly two decimal digits, zero-padded. */
  function Pad2(n: int): string
    requires 0 <= n <= 99
  {
    [DigitChar(n / 10), DigitChar(n % 10)]
  }

  /** `n` in exactly four decimal digits, zero-padded. */
  function Pad4(n: int): string
    requires 0 <= n <= 9999
  {
    [DigitChar(n / 1000), DigitChar(n / 100 % 10), DigitChar(n / 10 % 10), DigitChar(n % 10)]
  }

  /** The value of a run of decimal digits. */
  function DigitsValue(s: string): int
    requires forall i :: 0 <= i < |s| ==> IsDigit(s[i])
  {
    if |s| == 0 then 0 else DigitsValue(s[..|s| - 1]) * 10 + DigitValue(s[|s| - 1])
  }

  /** `format(d, "yyyy-MM-dd")`. */
  function FormatDate(d: Date): (s: string)
    requires ValidDate(d)
    ensures |s| == 10 && s[4] == '-' && s[7] == '-'
  {
    Pad4(d.year) + "-" + Pad2(d.month) + "-" + Pad2(d.day)
  }

  /** `new Date(s)` on the ten-character `YYYY-MM-DD` strings the journal
      stores: the month must be 01..12 and the day 01..31, as the date-time
      string format of ECMA-262 (section 21.4.1.32) requires. Other strings
      are None here; the shorter forms `YYYY` and `YYYY-MM`, date-times and
      engine-specific formats are outside this model. */
  function ParseDate(s: string): (r: Option<Date>)
    ensures r.Some? ==> DateShaped(s) && 1 <= r.value.month <= 12 && 1 <= r.value.day <= 31
    ensures r.Some? ==> 0 <= r.value.year <= 9999
                        && Pad4(r.value.year) + "-" + Pad2(r.value.month) + "-" + Pad2(r.value.day) == s
    ensures DateShaped(s) && 1 <= DigitsValue(s[5..7]) <= 12 && 1 <= DigitsValue(s[8..10]) <= 31
            ==> r.Some?
  {
    if DateShaped(s) then
      var y := DigitsValue(s[0..4]);
      var m := DigitsValue(s[5..7]);
      var d := DigitsValue(s[8..10]);
      FourDigits(s[0..4]);
      TwoDigits(s[5..7]);
      TwoDigits(s[8..10]);
      assert s == s[0..4] + "-" + s[5..7] + "-" + s[8..10];
      if 1 <= m <= 12 && 1 <= d <= 31 then Some(Date(y, m, d)) else None
    else None
  }

  /** Four digits, a dash, two digits, a dash, two digits. */
  predicate DateShaped(s: string) {
    && |s| == 10 && s[4] == '-' && s[7] == '-'
    && forall i :: 0 <= i < 10 && i != 4 && i != 7 ==> IsDigit(s[i])
  }

  lemma Pad2Value(n: int)
    requires 0 <= n <= 99
    ensures DigitsValue(Pad2(n)) == n
  {
    TwoDigits(Pad2(n));
  }

  lemma Pad4Value(n: int)
    requires 0 <= n <= 9999
    ensures DigitsValue(Pad4(n)) == n
  {
    var p := Pad4(n);
    TenthOfTenth(n);
    TenthOfTenth(n / 10);
    assert p[..1][..0] == [];
    assert p[..2][..1] == p[..1];
    assert p[..3][..2] == p[..2];
    assert p[..4][..3] == p[..3];
    assert p[..4] == p;
    assert DigitsValue(p[..1]) == n / 1000;
    assert DigitsValue(p[..2]) == n / 1000 * 10 + n / 100 % 10 == n / 100;
    assert DigitsValue(p[..3]) == n / 100 * 10 + n / 10 % 10 == n / 10;
    assert DigitsValue(p) == n / 10 * 10 + n % 10 == n;
  }

  /** Dropping two decimal digits one at a time drops them together. */
  lemma TenthOfTenth(n: int)
    requires n >= 0
    ensures n / 10 / 10 == n / 100
    ensures n / 100 / 10 == n / 1000
  {
    var m, k := n / 10, n / 100;
    assert n == 10 * m + n % 10;
    assert m == 10 * (m / 10) + m % 10;
    assert n == 100 * (m / 10) + (10 * (m % 10) + n % 10);
    assert n == 100 * k + n % 100;
    assert k == 10 * (k / 10) + k % 10;
    assert n == 1000 * (k / 10) + (100 * (k % 10) + n % 100);
  }

  /** Reading a formatted date gives back the date. */
  lemma {:induction false} ParseFormat(d: Date)
    requires ValidDate(d)
    ensures ParseDate(FormatDate(d)) == Some(d)
  {
    var s := FormatDate(d);
    assert s[0..4] == Pad4(d.year);
    assert s[5..7] == Pad2(d.month);
    assert s[8..10] == Pad2(d.day);
    Pad4Value(d.year);
    Pad2Value(d.month);
    Pad2Value(d.day);
  }

  lemma TwoDigits(s: string)
    requires |s| == 2 && IsDigit(s[0]) && IsDigit(s[1])
    ensures DigitsValue(s) == DigitValue(s[0]) * 10 + DigitValue(s[1])
    ensures Pad2(DigitsValue(s)) == s
  {
    assert s[..1][..0] == [];
    assert s[..|s| - 1] == s[..1];
    assert DigitsValue(s[..1]) == DigitValue(s[0]);
  }

  lemma FourDigits(s: string)
    requires |s| == 4 && forall i :: 0 <= i < 4 ==> IsDigit(s[i])
    ensures 0 <= DigitsValue(s) <= 9999
    ensures Pad4(DigitsValue(s)) == s
  {
    var a, b, c, e := DigitValue(s[0]), DigitValue(s[1]), DigitValue(s[2]), DigitValue(s[3]);
    assert s[..1][..0] == [];
    assert s[..2][..1] == s[..1];
    assert s[..3][..2] == s[..2];
    assert s[..|s| - 1] == s[..3];
    assert DigitsValue(s[..1]) == a;
    assert DigitsValue(s[..2]) == a * 10 + b;
    assert DigitsValue(s[..3]) == (a * 10 + b) * 10 + c;
    var n := DigitsValue(s);
    assert n == 1000 * a + 100 * b + 10 * c + e;
    DigitsOfFour(a, b, c, e);
    var p := Pad4(n);
    assert p[0] == s[0] && p[1] == s[1] && p[2] == s[2] && p[3] == s[3];
  }

  /** The four decimal digits of `1000a + 100b + 10c + e` are a, b, c, e. */
  lemma DigitsOfFour(a: int, b: int, c: int, e: int)
    requires 0 <= a <= 9 && 0 <= b <= 9 && 0 <= c <= 9 && 0 <= e <= 9
    ensures (1000 * a + 100 * b + 10 * c + e) / 1000 == a
    ensures (1000 * a + 100 * b + 10 * c + e) / 100 % 10 == b
    ensures (1000 * a + 100 * b + 10 * c + e) / 10 % 10 == c
    ensures (1000 * a + 100 * b + 10 * c + e) % 10 == e
  {
    var n := 1000 * a + 100 * b + 10 * c + e;
    assert n / 1000 == a;
    assert n / 100 == 10 * a + b;
    assert n / 10 == 100 * a + 10 * b + c;
  }

  /** Every `YYYY-MM-DD` string that reads as a valid date is the formatted
      form of that date, so two stored date strings are equal exactly when
      their dates are. */
  lemma {:induction false} FormatParse(s: string)
    requires ParseDate(s).Some? && ValidDate(ParseDate(s).value)
    ensures FormatDate(ParseDate(s).value) == s
  {
    var d := ParseDate(s).value;
    FourDigits(s[0..4]);
    TwoDigits(s[5..7]);
    TwoDigits(s[8..10]);
    assert s == s[0..4] + "-" + s[5..7] + "-" + s[8..10];
  }

  /** Formatting is one-to-one on valid dates. */
  lemma FormatInjective(a: Date, b: Date)
    requires ValidDate(a) && ValidDate(b)
    ensures FormatDate(a) == FormatDate(b) <==> a == b
  {
    if FormatDate(a) == FormatDate(b) {
      ParseFormat(a);
      ParseFormat(b);
    }
  }
}
