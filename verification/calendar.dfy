/** Calendar arithmetic behind the application's `Date` values: the
    proleptic Gregorian calendar and the day arithmetic of ECMAScript's
    MakeDay (section 21.4.1.28 of ECMA-262), on a time axis whose zero is
    0000-01-01 00:00. The Unix epoch is a constant shift of this axis, which
    cancels in every difference and comparison the application makes; time
    zones and daylight saving are not modelled. */
module Calendar {

  /** A calendar date; month and day count from 1. */
  datatype Date = Date(year: int, month: int, day: int)

  const MsPerDay: int := 86400000

  predicate IsLeapYear(y: int) {
    y % 4 == 0 && (y % 100 != 0 || y % 400 == 0)
  }

  function DaysInYear(y: int): (days: int) {
    if IsLeapYear(y) then 366 else 365
  }

  function DaysInMonth(y: int, m: int): (days: int) {
    if m == 2 then (if IsLeapYear(y) then 29 else 28)
    else if m == 4 || m == 6 || m == 9 || m == 11 then 30
    else 31
  }

  /** A date the application handles as the calendar says: a four-digit
      year from 100 on, a month of the year and a day of that month. Below
      100 the `Date` constructor and date-fns both depart from the calendar
      (see `ConstructorYear`, and date-fns writes year 0 as the era year
      0001). */
  predicate ValidDate(d: Date) {
    && 100 <= d.year <= 9999
    && 1 <= d.month <= 12
    && 1 <= d.day <= DaysInMonth(d.year, d.month)
  }

  /** Days from 0000-01-01 to the first of January of year `y`: 365 per
      year plus one per leap year in [0, y). */
  function DaysBeforeYear(y: int): (days: int) {
    365 * y + (y + 3) / 4 - (y + 99) / 100 + (y + 399) / 400
  }

  /** Days from the first of January to the first day of the month with
      zero-based index `mi`. */
  function DaysBeforeMonth(y: int, mi: int): (days: int)
    requires 0 <= mi < 12
  {
    [0, 31, 59, 90, 120, 151, 181, 212, 243, 273, 304, 334][mi]
      + (if IsLeapYear(y) && mi >= 2 then 1 else 0)
  }

  /** ECMAScript's MakeDay: a month index outside 0..11 carries into the
      year (floor division; Dafny's `/` and `%` with a positive divisor are
      floor division and a non-negative remainder), and the day of the
      month is added as an offset, so day 0 is the last day of the
      previous month. */
  function MakeDay(year: int, monthIndex: int, date: int): (day: int) {
    var y := year + monthIndex / 12;
    DaysBeforeYear(y) + DaysBeforeMonth(y, monthIndex % 12) + date - 1
  }

  /** The year `new Date(year, monthIndex, day)` builds: the `Date`
      constructor (section 21.4.2.1 of ECMA-262) applies MakeFullYear to
      its year argument, which reads a year in 0..99 as 1900 + year. */
  function ConstructorYear(year: int): (fullYear: int) {
    if 0 <= year <= 99 then 1900 + year else year
  }

  /** The day number of a date, as `new Date("yyyy-MM-dd")` computes it. */
  function DayNumber(d: Date): (day: int) {
    MakeDay(d.year, d.month - 1, d.day)
  }

  /** `getTime()` of the date's midnight, in milliseconds. */
  function TimeOf(d: Date): (ms: int) {
    DayNumber(d) * MsPerDay
  }

  /** The one-based position of a date within its year. */
  function OrdinalDay(d: Date): (ordinal: int)
    requires 1 <= d.month <= 12
  {
    DaysBeforeMonth(d.year, d.month - 1) + d.day
  }

  /** Lexicographic order on (year, month, day). */
  predicate Before(a: Date, b: Date) {
    || a.year < b.year
    || (a.year == b.year && a.month < b.month)
    || (a.year == b.year && a.month == b.month && a.day < b.day)
  }

  /** Each year adds its own length to the day count. */
  lemma DaysBeforeYearStep(y: int)
    ensures DaysBeforeYear(y + 1) == DaysBeforeYear(y) + DaysInYear(y)
  {
    assert DaysBeforeYear(y + 1)
        == 365 * y + 365 + (y + 4) / 4 - (y + 100) / 100 + (y + 400) / 400;
    MultiplesStep(y);
    if y % 100 == 0 {
      CenturyIsMultipleOf4(y);
    }
    if y % 400 == 0 {
      QuadCenturyIsCentury(y);
    }
  }

  /** A multiple of 100 is a multiple of 4. */
  lemma CenturyIsMultipleOf4(y: int)
    requires y % 100 == 0
    ensures y % 4 == 0
  {
    var t := 25 * (y / 100);
    assert y == 100 * (y / 100);
    assert y == 4 * t;
  }

  /** A multiple of 400 is a multiple of 100. */
  lemma QuadCenturyIsCentury(y: int)
    requires y % 400 == 0
    ensures y % 100 == 0
  {
    var t := 4 * (y / 400);
    assert y == 400 * (y / 400);
    assert y == 100 * t;
  }

  /** Each of `(y + 3) / 4`, `(y + 99) / 100` and `(y + 399) / 400` steps
      by one from y to y + 1 exactly when y is a multiple of the divisor. */
  lemma MultiplesStep(y: int)
    ensures (y + 4) / 4 - (y + 3) / 4 == (if y % 4 == 0 then 1 else 0)
    ensures (y + 100) / 100 - (y + 99) / 100 == (if y % 100 == 0 then 1 else 0)
    ensures (y + 400) / 400 - (y + 399) / 400 == (if y % 400 == 0 then 1 else 0)
  {
    assert y == 4 * (y / 4) + y % 4;
    assert y == 100 * (y / 100) + y % 100;
    assert y == 400 * (y / 400) + y % 400;
  }

  /** A later year starts after the whole of an earlier one. */
  lemma {:induction false} LaterYearStartsLater(a: int, b: int)
    requires a < b
    ensures DaysBeforeYear(a) + DaysInYear(a) <= DaysBeforeYear(b)
    decreases b - a
  {
    DaysBeforeYearStep(a);
    if a + 1 < b {
      LaterYearStartsLater(a + 1, b);
    }
  }

  /** Consecutive months tile the year. */
  lemma MonthStep(y: int, m: int)
    requires 1 <= m <= 12
    ensures m < 12 ==> DaysBeforeMonth(y, m - 1) + DaysInMonth(y, m) == DaysBeforeMonth(y, m)
    ensures m == 12 ==> DaysBeforeMonth(y, 11) + DaysInMonth(y, 12) == DaysInYear(y)
  {
  }

  lemma {:induction false} LaterMonthStartsLater(y: int, m: int, m': int)
    requires 1 <= m < m' <= 12
    ensures DaysBeforeMonth(y, m - 1) + DaysInMonth(y, m) <= DaysBeforeMonth(y, m' - 1)
    decreases m' - m
  {
    MonthStep(y, m);
    if m + 1 < m' {
      LaterMonthStartsLater(y, m + 1, m');
    }
  }

  /** The ordinal day of a valid date lies within its year. */
  lemma OrdinalDayInYear(d: Date)
    requires ValidDate(d)
    ensures 1 <= OrdinalDay(d) <= DaysInYear(d.year)
  {
    if d.month < 12 {
      LaterMonthStartsLater(d.year, d.month, 12);
    }
    MonthStep(d.year, 12);
  }

  /** The day number of a valid date is its year's start plus its ordinal
      day, less one. */
  lemma DayNumberOfValid(d: Date)
    requires ValidDate(d)
    ensures DayNumber(d) == DaysBeforeYear(d.year) + OrdinalDay(d) - 1
  {
    assert (d.month - 1) / 12 == 0 && (d.month - 1) % 12 == d.month - 1;
  }

  /** On valid dates, comparing `getTime()` values orders dates exactly as
      comparing year, then month, then day. */
  lemma {:induction false} BeforeIffEarlierDay(a: Date, b: Date)
    requires ValidDate(a) && ValidDate(b)
    ensures Before(a, b) <==> DayNumber(a) < DayNumber(b)
  {
    if Before(a, b) {
      EarlierDay(a, b);
    } else if Before(b, a) {
      EarlierDay(b, a);
    } else {
      assert a == b;
    }
  }

  lemma {:induction false} EarlierDay(a: Date, b: Date)
    requires ValidDate(a) && ValidDate(b)
    requires Before(a, b)
    ensures DayNumber(a) < DayNumber(b)
  {
    DayNumberOfValid(a);
    DayNumberOfValid(b);
    OrdinalDayInYear(a);
    OrdinalDayInYear(b);
    if a.year < b.year {
      LaterYearStartsLater(a.year, b.year);
    } else if a.month < b.month {
      LaterMonthStartsLater(a.year, a.month, b.month);
    }
  }

  /** On valid dates, equal times mean equal dates. */
  lemma SameDayIffSameDate(a: Date, b: Date)
    requires ValidDate(a) && ValidDate(b)
    ensures a == b <==> TimeOf(a) == TimeOf(b)
  {
    BeforeIffEarlierDay(a, b);
    BeforeIffEarlierDay(b, a);
  }
}
