/**
 * Calendar dates as Python's `datetime.date` represents them: proleptic
 * Gregorian dates from 0001-01-01 to 9999-12-31, compared as (year, month,
 * day) tuples, with `replace(year=...)` and the addition of a number of days.
 */
module Dates {
  import opened Wrappers

  const MinYear := 1
  const MaxYear := 9999

  predicate IsLeapYear(y: int) {
    y % 4 == 0 && (y % 100 != 0 || y % 400 == 0)
  }

  function DaysInYear(y: int): int {
    if IsLeapYear(y) then 366 else 365
  }

  function DaysInMonth(y: int, m: int): (n: int)
    requires 1 <= m <= 12
    ensures 28 <= n <= 31
  {
    if m == 2 then (if IsLeapYear(y) then 29 else 28)
    else if m == 4 || m == 6 || m == 9 || m == 11 then 30
    else 31
  }

  /** Days in the months of year `y` that come before month `m`. */
  function DaysBeforeMonth(y: int, m: int): int
    requires 1 <= m <= 12
  {
    var leap := if m > 2 && IsLeapYear(y) then 1 else 0;
    leap +
    (if m == 1 then 0 else if m == 2 then 31 else if m == 3 then 59
     else if m == 4 then 90 else if m == 5 then 120 else if m == 6 then 151
     else if m == 7 then 181 else if m == 8 then 212 else if m == 9 then 243
     else if m == 10 then 273 else if m == 11 then 304 else 334)
  }

  /** Days in the years before year `y`, counted from year 1. */
  function DaysBeforeYear(y: int): int
    decreases y
  {
    if y <= MinYear then 0 else DaysBeforeYear(y - 1) + DaysInYear(y - 1)
  }

  datatype Ymd = Ymd(year: int, month: int, day: int)

  predicate IsValid(d: Ymd) {
    MinYear <= d.year <= MaxYear && 1 <= d.month <= 12 && 1 <= d.day <= DaysInMonth(d.year, d.month)
  }

  /** A value of `datetime.date`: always a valid calendar day. */
  type Date = d: Ymd | IsValid(d) witness Ymd(1, 1, 1)

  const MaxDate: Date := Ymd(MaxYear, 12, 31)

  /** The exceptions the date operations raise. */
  datatype DateError =
    | DayOutOfRange   // ValueError: day is out of range for month
    | DateOverflow    // OverflowError: date value out of range

  /** Python's comparison `a <= b` of two dates: lexicographic on (year, month, day). */
  predicate LessEq(a: Ymd, b: Ymd) {
    a.year < b.year
    || (a.year == b.year && (a.month < b.month || (a.month == b.month && a.day <= b.day)))
  }

  /** Python's `d.toordinal()`: 0001-01-01 is day 1. */
  function DayNumber(d: Ymd): int
    requires 1 <= d.month <= 12
  {
    DaysBeforeYear(d.year) + DaysBeforeMonth(d.year, d.month) + d.day
  }

  /** Python's `d.replace(year=y)`: fails only for 29 February moved to a common year. */
  function ReplaceYear(d: Date, y: int): (r: Result<Date, DateError>)
    requires MinYear <= y <= MaxYear
    ensures r.Ok? <==> !(d.month == 2 && d.day == 29 && !IsLeapYear(y))
    ensures r.Ok? ==> r.value == Ymd(y, d.month, d.day)
    ensures r.Err? ==> r.error == DayOutOfRange
  {
    var e := Ymd(y, d.month, d.day);
    if IsValid(e) then Ok(e) else Err(DayOutOfRange)
  }

  /** The first day of month `m + 1` follows the last day of month `m`. */
  lemma MonthStep(y: int, m: int)
    requires 1 <= m < 12
    ensures DaysBeforeMonth(y, m + 1) == DaysBeforeMonth(y, m) + DaysInMonth(y, m)
  {
  }

  /** December closes the year. */
  lemma YearEnd(y: int)
    ensures DaysBeforeMonth(y, 12) + DaysInMonth(y, 12) == DaysInYear(y)
  {
  }

  /** The day after `d`, or `None` after the last representable day. */
  function NextDay(d: Date): (r: Option<Date>)
    ensures r.None? <==> d == MaxDate
    ensures r.Some? ==> DayNumber(r.value) == DayNumber(d) + 1
  {
    if d.day < DaysInMonth(d.year, d.month) then Some(Ymd(d.year, d.month, d.day + 1))
    else if d.month < 12 then
      MonthStep(d.year, d.month);
      Some(Ymd(d.year, d.month + 1, 1))
    else if d.year < MaxYear then
      YearEnd(d.year);
      assert DaysBeforeYear(d.year + 1) == DaysBeforeYear(d.year) + DaysInYear(d.year);
      Some(Ymd(d.year + 1, 1, 1))
    else None
  }

  /** Python's `d + timedelta(days=n)`, which raises OverflowError past 9999-12-31. */
  function AddDays(d: Date, n: nat): (r: Result<Date, DateError>)
    decreases n
  {
    if n == 0 then Ok(d)
    else match NextDay(d)
      case None => Err(DateOverflow)
      case Some(e) => AddDays(e, n - 1)
  }

  /** Days before year `y` plus the whole of year `y` do not exceed the days before a later year. */
  lemma {:induction false} DaysBeforeYearGrows(y: int, z: int)
    requires MinYear <= y < z
    ensures DaysBeforeYear(y) + DaysInYear(y) <= DaysBeforeYear(z)
    decreases z
  {
    if z > y + 1 {
      DaysBeforeYearGrows(y, z - 1);
    }
  }

  /** A day of year `y` lies before the first day of any later year. */
  lemma DayWithinYear(d: Date)
    ensures DaysBeforeYear(d.year) < DayNumber(d) <= DaysBeforeYear(d.year) + DaysInYear(d.year)
  {
  }

  /** A day of month `m` lies before the first day of any later month of the same year. */
  lemma DayWithinMonth(d: Date, m: int)
    requires d.month < m <= 12
    ensures DayNumber(d) <= DaysBeforeYear(d.year) + DaysBeforeMonth(d.year, m)
  {
  }

  /** Python's tuple order on dates is the order of their ordinals. */
  lemma LessEqIsDayOrder(a: Date, b: Date)
    ensures LessEq(a, b) <==> DayNumber(a) <= DayNumber(b)
  {
    if a.year < b.year {
      DayWithinYear(a);
      DaysBeforeYearGrows(a.year, b.year);
    } else if b.year < a.year {
      DayWithinYear(b);
      DaysBeforeYearGrows(b.year, a.year);
    } else if a.month < b.month {
      DayWithinMonth(a, b.month);
    } else if b.month < a.month {
      DayWithinMonth(b, a.month);
    }
  }

  /** Two dates with the same ordinal are the same date. */
  lemma DayNumberInjective(a: Date, b: Date)
    requires DayNumber(a) == DayNumber(b)
    ensures a == b
  {
    LessEqIsDayOrder(a, b);
    LessEqIsDayOrder(b, a);
  }

  /** Adding `n` days moves the ordinal by exactly `n`, and fails exactly when that passes 9999-12-31. */
  lemma {:induction false} AddDaysOrdinal(d: Date, n: nat)
    ensures AddDays(d, n).Ok? <==> DayNumber(d) + n <= DayNumber(MaxDate)
    ensures AddDays(d, n).Ok? ==> DayNumber(AddDays(d, n).value) == DayNumber(d) + n
    ensures AddDays(d, n).Err? ==> AddDays(d, n).error == DateOverflow
    decreases n
  {
    LessEqIsDayOrder(d, MaxDate);
    if n > 0 {
      match NextDay(d)
      case None =>
      case Some(e) =>
        AddDaysOrdinal(e, n - 1);
        if d != MaxDate && DayNumber(d) == DayNumber(MaxDate) {
          DayNumberInjective(d, MaxDate);
        }
    }
  }

  /** Less than a year of days ahead lies in the same year or the next. */
  lemma WithinAYear(start: Date, n: nat)
    requires n <= 365 && AddDays(start, n).Ok?
    ensures start.year <= AddDays(start, n).value.year <= start.year + 1
  {
    var end := AddDays(start, n).value;
    AddDaysOrdinal(start, n);
    LessEqIsDayOrder(start, end);
    DayWithinYear(start);
    DayWithinYear(end);
    if end.year > start.year + 1 {
      DaysBeforeYearGrows(start.year, start.year + 1);
      DaysBeforeYearGrows(start.year + 1, end.year);
    }
  }

  /**
   * The window `start <= b <= AddDays(start, n)` holds exactly when `b` is
   * at most `n` days after `start`.
   */
  lemma WindowInDays(start: Date, n: nat, b: Date)
    requires AddDays(start, n).Ok?
    ensures LessEq(start, b) && LessEq(b, AddDays(start, n).value)
            <==> 0 <= DayNumber(b) - DayNumber(start) <= n
  {
    AddDaysOrdinal(start, n);
    LessEqIsDayOrder(start, b);
    LessEqIsDayOrder(b, AddDays(start, n).value);
  }
}
