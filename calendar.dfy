/** The proleptic Gregorian calendar as the program's date library sees it:
    validated construction from year/month/day, the day before and after a
    date, and the count of days since 1970-01-01 that links dates with Unix
    timestamps. */
module Calendar {
  import opened Wrappers

  datatype Date = Date(year: int, month: int, day: int)

  /** The year range of the date type the program uses; outside it the
      constructors report "no such date". */
  const MinYear: int := -262143
  const MaxYear: int := 262142

  const SecondsPerDay: int := 86400

  predicate IsLeapYear(y: int) {
    y % 4 == 0 && (y % 100 != 0 || y % 400 == 0)
  }

  function DaysInMonth(y: int, m: int): (n: int)
    requires 1 <= m <= 12
    ensures 28 <= n <= 31
    ensures n == 29 <==> m == 2 && IsLeapYear(y)
  {
    if m == 2 then (if IsLeapYear(y) then 29 else 28)
    else if m == 4 || m == 6 || m == 9 || m == 11 then 30
    else 31
  }

  predicate ValidDate(d: Date) {
    1 <= d.month <= 12 && 1 <= d.day <= DaysInMonth(d.year, d.month)
  }

  predicate InRange(d: Date) {
    MinYear <= d.year <= MaxYear
  }

  /** `NaiveDate::from_ymd_opt`: a date exists only when it is a real
      calendar day inside the supported year range. */
  function FromYmd(y: int, m: int, d: int): (r: Option<Date>)
    ensures r.Some? <==> 1 <= m <= 12 && 1 <= d <= DaysInMonth(y, m) && MinYear <= y <= MaxYear
    ensures r.Some? ==> ValidDate(r.value) && InRange(r.value) && r.value == Date(y, m, d)
  {
    if 1 <= m <= 12 && MinYear <= y <= MaxYear && 1 <= d <= DaysInMonth(y, m) then Some(Date(y, m, d))
    else None
  }

  function DaysInYear(y: int): int {
    if IsLeapYear(y) then 366 else 365
  }

  /** Leap years in 1..x (for negative x, minus the leap years in x+1..0). */
  function LeapsThrough(x: int): int {
    x / 4 - x / 100 + x / 400
  }

  /** Days from 1970-01-01 to January 1st of year y (negative before 1970). */
  function DaysBeforeYear(y: int): int {
    365 * (y - 1970) + LeapsThrough(y - 1) - LeapsThrough(1969)
  }

  lemma DaysBeforeNextYear(y: int)
    ensures DaysBeforeYear(y + 1) == DaysBeforeYear(y) + DaysInYear(y)
  {
    var a4, a100, a400 := y / 4 - (y - 1) / 4, y / 100 - (y - 1) / 100, y / 400 - (y - 1) / 400;
    assert a4 == if y % 4 == 0 then 1 else 0;
    assert a100 == if y % 100 == 0 then 1 else 0;
    assert a400 == if y % 400 == 0 then 1 else 0;
    assert y % 400 == 0 ==> y % 100 == 0;
    assert y % 100 == 0 ==> y % 4 == 0;
  }

  /** Days from January 1st of year y to the first day of month m. */
  function DaysBeforeMonth(y: int, m: int): (n: int)
    requires 1 <= m <= 13
    ensures 0 <= n <= 31 * (m - 1)
    ensures m > 1 ==> n >= 28 * (m - 1)
  {
    if m == 1 then 0 else DaysBeforeMonth(y, m - 1) + DaysInMonth(y, m - 1)
  }

  lemma {:induction false} MonthsFillYear(y: int)
    ensures DaysBeforeMonth(y, 13) == DaysInYear(y)
  {
    assert DaysBeforeMonth(y, 3) == 31 + DaysInMonth(y, 2);
    assert DaysBeforeMonth(y, 5) == DaysBeforeMonth(y, 3) + 61;
    assert DaysBeforeMonth(y, 7) == DaysBeforeMonth(y, 5) + 61;
    assert DaysBeforeMonth(y, 9) == DaysBeforeMonth(y, 7) + 62;
    assert DaysBeforeMonth(y, 11) == DaysBeforeMonth(y, 9) + 61;
    assert DaysBeforeMonth(y, 13) == DaysBeforeMonth(y, 11) + 61;
  }

  /** Days since 1970-01-01 (day 0). */
  function DayNumber(d: Date): int
    requires ValidDate(d)
  {
    DaysBeforeYear(d.year) + DaysBeforeMonth(d.year, d.month) + d.day - 1
  }

  /** The day after d. */
  function Succ(d: Date): (r: Date)
    requires ValidDate(d)
    ensures ValidDate(r)
  {
    if d.day < DaysInMonth(d.year, d.month) then Date(d.year, d.month, d.day + 1)
    else if d.month < 12 then Date(d.year, d.month + 1, 1)
    else Date(d.year + 1, 1, 1)
  }

  /** The day before d (`pred_opt`). */
  function Pred(d: Date): (r: Date)
    requires ValidDate(d)
    ensures ValidDate(r)
  {
    if d.day > 1 then Date(d.year, d.month, d.day - 1)
    else if d.month > 1 then Date(d.year, d.month - 1, DaysInMonth(d.year, d.month - 1))
    else Date(d.year - 1, 12, 31)
  }

  lemma SuccCountsOneDay(d: Date)
    requires ValidDate(d)
    ensures DayNumber(Succ(d)) == DayNumber(d) + 1
  {
    if d.day == DaysInMonth(d.year, d.month) && d.month == 12 {
      DaysBeforeNextYear(d.year);
      MonthsFillYear(d.year);
    }
  }

  lemma PredSuccInverse(d: Date)
    requires ValidDate(d)
    ensures Pred(Succ(d)) == d && Succ(Pred(d)) == d
  {
  }

  lemma DayNumberEpoch()
    ensures DayNumber(Date(1970, 1, 1)) == 0
  {
  }

  // Conversion of a day count back into a date: first the year, then the month.

  function YearUp(n: int, y: int): (r: int)
    requires DaysBeforeYear(y) <= n
    ensures DaysBeforeYear(r) <= n < DaysBeforeYear(r + 1)
    decreases n - DaysBeforeYear(y)
  {
    DaysBeforeNextYear(y);
    if n < DaysBeforeYear(y + 1) then y else YearUp(n, y + 1)
  }

  function YearDown(n: int, y: int): (r: int)
    requires n < DaysBeforeYear(y + 1)
    ensures DaysBeforeYear(r) <= n < DaysBeforeYear(r + 1)
    decreases DaysBeforeYear(y + 1) - n
  {
    DaysBeforeNextYear(y);
    if DaysBeforeYear(y) <= n then y else YearDown(n, y - 1)
  }

  function MonthFrom(y: int, k: int, m: int): (r: int)
    requires 1 <= m <= 12 && DaysBeforeMonth(y, m) <= k < DaysBeforeMonth(y, 13)
    ensures m <= r <= 12 && DaysBeforeMonth(y, r) <= k < DaysBeforeMonth(y, r + 1)
    decreases 12 - m
  {
    if k < DaysBeforeMonth(y, m + 1) then m else MonthFrom(y, k, m + 1)
  }

  /** The date whose day number is n (`from_timestamp(..).date_naive()` on
      whole days). */
  function FromDayNumber(n: int): (r: Date)
    ensures ValidDate(r) && DayNumber(r) == n
  {
    var y := if n >= 0 then YearUp(n, 1970) else YearDown(n, 1969);
    DaysBeforeNextYear(y);
    MonthsFillYear(y);
    var k := n - DaysBeforeYear(y);
    var m := MonthFrom(y, k, 1);
    Date(y, m, k - DaysBeforeMonth(y, m) + 1)
  }

  /** Dates of the supported range lie within a hundred million days of
      the epoch. */
  lemma DayNumberBounds(d: Date)
    requires ValidDate(d) && InRange(d)
    ensures -100000000 <= DayNumber(d) <= 100000000
  {
  }

  // Day numbers follow calendar order.

  /** Every later year starts no earlier than the end of an earlier one. */
  lemma {:induction false} YearsAscend(y1: int, y2: int)
    requires y1 < y2
    ensures DaysBeforeYear(y1 + 1) <= DaysBeforeYear(y2)
    decreases y2 - y1
  {
    if y1 + 1 < y2 {
      YearsAscend(y1 + 1, y2);
      DaysBeforeNextYear(y1 + 1);
    }
  }

  /** Every later month of a year starts no earlier than the end of an
      earlier one. */
  lemma {:induction false} MonthsAscend(y: int, m1: int, m2: int)
    requires 1 <= m1 < m2 <= 13
    ensures DaysBeforeMonth(y, m1 + 1) <= DaysBeforeMonth(y, m2)
    decreases m2 - m1
  {
    if m1 + 1 < m2 {
      MonthsAscend(y, m1 + 1, m2);
    }
  }

  /** The day number of a date lies within its year's span. */
  lemma DayInItsYear(d: Date)
    requires ValidDate(d)
    ensures DaysBeforeYear(d.year) <= DayNumber(d) < DaysBeforeYear(d.year + 1)
  {
    DaysBeforeNextYear(d.year);
    MonthsFillYear(d.year);
    if d.month < 12 {
      MonthsAscend(d.year, d.month, 13);
    }
  }

  /** Years from 1970 on have non-negative day numbers. */
  lemma {:induction false} EpochYearsNonNegative(y: int)
    requires 1970 <= y
    ensures DaysBeforeYear(y) >= 0
  {
    if y > 1970 {
      YearsAscend(1969, y);
      DaysBeforeNextYear(1969);
    }
  }

  /** A valid date's day number lies between the first and the last day of
      month m of year y exactly when the date is in that month. */
  lemma DayInMonthSpan(d: Date, y: int, m: int)
    requires ValidDate(d) && 1 <= m <= 12
    ensures (DayNumber(Date(y, m, 1)) <= DayNumber(d) <= DayNumber(Date(y, m, DaysInMonth(y, m))))
        <==> d.year == y && d.month == m
  {
    var n := DayNumber(d);
    if DayNumber(Date(y, m, 1)) <= n <= DayNumber(Date(y, m, DaysInMonth(y, m))) {
      DayInItsYear(d);
      DaysBeforeNextYear(y);
      MonthsFillYear(y);
      if m < 12 {
        MonthsAscend(y, m, 13);
      }
      if d.year < y {
        YearsAscend(d.year, y);
      } else if d.year > y {
        YearsAscend(y, d.year);
      }
      assert d.year == y;
      if d.month < m {
        MonthsAscend(y, d.month, m);
      } else if d.month > m {
        MonthsAscend(y, m, d.month);
      }
    }
  }

  /** Seconds since 1970-01-01T00:00:00 at midnight opening d. */
  function Timestamp(d: Date): int
    requires ValidDate(d)
  {
    DayNumber(d) * SecondsPerDay
  }

  /** `DateTime::from_timestamp(secs, 0)` followed by `date_naive()`: the day
      holding second secs, when that day lies in the supported range. */
  function FromTimestamp(secs: int): (r: Option<Date>)
    ensures r.Some? ==> ValidDate(r.value) && InRange(r.value)
    ensures r.Some? ==> Timestamp(r.value) <= secs < Timestamp(r.value) + SecondsPerDay
    ensures r.None? ==> !InRange(FromDayNumber(secs / SecondsPerDay))
  {
    var d := FromDayNumber(secs / SecondsPerDay);
    if InRange(d) then Some(d) else None
  }
}
