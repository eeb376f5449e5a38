/** The home page's quote of the day: the day of the year from the clock,
    reduced modulo the number of quotes. The clock reading is a parameter:
    milliseconds on the time axis of the Calendar module. */
module DailyQuote {
  import opened Wrappers
  import opened Calendar
  import opened Catalog

  /** `Math.floor((now - new Date(year, 0, 0).getTime()) / 86400000)`, where
      `year` is the current year. `new Date(year, 0, 0)` is day 0 of
      January, the last day of the previous year, in the year the
      constructor builds (1900 + year for a year in 0..99). With a positive
      divisor Dafny's `/` is floor division, as `Math.floor` of the
      quotient. */
  function DayOfYear(now: int, year: int): (dayOfYear: int)
    ensures dayOfYear * MsPerDay <= now - MakeDay(ConstructorYear(year), 0, 0) * MsPerDay
    ensures now - MakeDay(ConstructorYear(year), 0, 0) * MsPerDay < (dayOfYear + 1) * MsPerDay
  {
    (now - MakeDay(ConstructorYear(year), 0, 0) * MsPerDay) / MsPerDay
  }

  /** JavaScript's `%` on integral numbers: the remainder takes the sign of
      the dividend; a zero divisor gives NaN, modelled as None. A result of
      -0 is the integer 0, and indexing with -0 reads element 0. */
  function JsRemainder(a: int, n: int): (r: Option<int>)
    ensures r.Some? <==> n != 0
    ensures r.Some? && a >= 0 ==> 0 <= r.value && r.value == a % (if n < 0 then -n else n)
    ensures r.Some? && a < 0 ==> -(if n < 0 then -n else n) < r.value <= 0
    ensures r.Some? && a < 0 ==> (a - r.value) % (if n < 0 then -n else n) == 0
  {
    var m := if n < 0 then -n else n;
    if n == 0 then None
    else if a >= 0 then Some(a % m)
    else
      ModUnique(a + (-a) % m, m, -((-a) / m), 0);
      Some(-((-a) % m))
  }

  lemma {:induction false} MulAtLeast(x: int, n: int)
    requires x >= 1 && n > 0
    ensures x * n >= n
    decreases x
  {
    if x > 1 {
      MulAtLeast(x - 1, n);
      assert x * n == (x - 1) * n + n;
    }
  }

  /** Division with a positive divisor has one quotient and remainder. */
  lemma ModUnique(a: int, n: int, q: int, r: int)
    requires n > 0 && 0 <= r < n && a == q * n + r
    ensures a / n == q && a % n == r
  {
    var q', r' := a / n, a % n;
    assert a == q' * n + r';
    var d := q - q';
    assert d * n == r' - r by {
      assert d * n == q * n - q' * n;
    }
    if d >= 1 {
      MulAtLeast(d, n);
    } else if d <= -1 {
      MulAtLeast(-d, n);
    }
  }

  /** A number and its negation are multiples of `n` together. */
  lemma NegatedMultiple(a: int, n: int)
    requires n > 0
    ensures (-a) % n == 0 <==> a % n == 0
  {
    if a % n == 0 {
      ModUnique(-a, n, -(a / n), 0);
    }
    if (-a) % n == 0 {
      ModUnique(a, n, -((-a) / n), 0);
    }
  }

  /** `quotes[dayOfYear % quotes.length]`, None where JavaScript reads
      `undefined`: an empty list, or a negative index. */
  function SelectQuote(quotes: seq<Quote>, dayOfYear: int): (r: Option<Quote>)
    ensures r.Some? <==> |quotes| > 0 && (dayOfYear >= 0 || dayOfYear % |quotes| == 0)
    ensures r.Some? && dayOfYear >= 0 ==> r.value == quotes[dayOfYear % |quotes|]
    ensures r.Some? && dayOfYear < 0 ==> r.value == quotes[0]
  {
    if |quotes| > 0 then NegatedMultiple(dayOfYear, |quotes|); SelectAt(quotes, JsRemainder(dayOfYear, |quotes|))
    else None
  }

  function SelectAt(quotes: seq<Quote>, index: Option<int>): (quote: Option<Quote>) {
    match index
    case None => None
    case Some(i) => if 0 <= i < |quotes| then Some(quotes[i]) else None
  }

  /** The same quote comes back after as many days as there are quotes. */
  lemma SelectQuotePeriodic(quotes: seq<Quote>, dayOfYear: int)
    requires |quotes| > 0 && dayOfYear >= 0
    ensures SelectQuote(quotes, dayOfYear + |quotes|) == SelectQuote(quotes, dayOfYear)
  {
    var n := |quotes|;
    ModUnique(dayOfYear + n, n, dayOfYear / n + 1, dayOfYear % n);
  }

  /** The next day shows the next quote, wrapping after the last one. */
  lemma SelectQuoteNextDay(quotes: seq<Quote>, dayOfYear: int)
    requires |quotes| > 0 && dayOfYear >= 0
    ensures SelectQuote(quotes, dayOfYear + 1) == Some(quotes[(dayOfYear % |quotes| + 1) % |quotes|])
  {
    var n := |quotes|;
    var q, r := dayOfYear / n, dayOfYear % n;
    assert dayOfYear == q * n + r;
    if r + 1 < n {
      ModUnique(dayOfYear + 1, n, q, r + 1);
      ModUnique(r + 1, n, 0, r + 1);
    } else {
      ModUnique(dayOfYear + 1, n, q + 1, 0);
      ModUnique(r + 1, n, 1, 0);
    }
    assert (dayOfYear + 1) % n == (r + 1) % n;
  }

  lemma FloorDivision(x: int, k: int)
    requires k * MsPerDay <= x < (k + 1) * MsPerDay
    ensures x / MsPerDay == k
  {
  }

  /** At any instant of a valid date, the day of the year is that date's
      ordinal day: 1 on the first of January, and never more than the
      length of the year. */
  lemma {:induction false} DayOfYearOfDate(now: int, today: Date)
    requires ValidDate(today)
    requires TimeOf(today) <= now < TimeOf(today) + MsPerDay
    ensures DayOfYear(now, today.year) == OrdinalDay(today)
    ensures 1 <= DayOfYear(now, today.year) <= DaysInYear(today.year)
  {
    DayNumberOfValid(today);
    OrdinalDayInYear(today);
    var base := MakeDay(today.year, 0, 0);
    assert base == DaysBeforeYear(today.year) - 1;
    assert DayNumber(today) - base == OrdinalDay(today);
    FloorDivision(now - base * MsPerDay, OrdinalDay(today));
  }

  /** From midnight on the first of January on, the day of the year is at
      least 1, because the base is the day before; years 0..99 are the
      subject of `EarlyYearBeforeBase`. */
  lemma DayOfYearAtLeastOne(now: int, year: int)
    requires !(0 <= year <= 99)
    requires now >= TimeOf(Date(year, 1, 1))
    ensures DayOfYear(now, year) >= 1
  {
    assert TimeOf(Date(year, 1, 1)) == (MakeDay(year, 0, 0) + 1) * MsPerDay;
  }

  /** In a year 0..99 the base lies in 1900 + year, so every instant of the
      year itself gets a negative day count, which indexes no quote unless
      it is a multiple of the number of quotes. */
  lemma {:induction false} EarlyYearBeforeBase(now: int, year: int)
    requires 0 <= year <= 99
    requires now < TimeOf(Date(year + 1, 1, 1))
    ensures DayOfYear(now, year) < 0
  {
    LaterYearStartsLater(year + 1, 1900 + year);
    assert TimeOf(Date(year + 1, 1, 1)) == DaysBeforeYear(year + 1) * MsPerDay;
    assert MakeDay(ConstructorYear(year), 0, 0) == DaysBeforeYear(1900 + year) - 1;
  }

  /** At midnight on 0050-03-02 the base is 1949-12-31, the day count is
      -693899, and `quotes[-19]` is undefined, so rendering the quote's
      text throws. */
  lemma EarlyYearQuote()
    ensures DayOfYear(TimeOf(Date(50, 3, 2)), 50) == -693899
    ensures SelectQuote(Quotes, -693899) == None
  {
    assert DayNumber(Date(50, 3, 2)) == 18323;
    assert MakeDay(ConstructorYear(50), 0, 0) == 712222;
    assert JsRemainder(-693899, 20) == Some(-19);
    CatalogShape();
  }

  /** The home page always finds a quote: with the catalog's twenty quotes,
      an instant of a valid date shows the quote at that date's ordinal day
      modulo twenty. */
  lemma DailyQuoteOfCatalog(now: int, today: Date)
    requires ValidDate(today)
    requires TimeOf(today) <= now < TimeOf(today) + MsPerDay
    ensures SelectQuote(Quotes, DayOfYear(now, today.year)) == Some(Quotes[OrdinalDay(today) % 20])
  {
    DayOfYearOfDate(now, today);
    CatalogShape();
  }
}
