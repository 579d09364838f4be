/** The proleptic Gregorian calendar as Python's `datetime` module computes
    it: leap years, month lengths, the day ordinal (`date.toordinal`, where
    0001-01-01 is day 1) and the weekday (`date.weekday`, 0 is Monday). */
module Calendar {

  datatype Date = Date(year: nat, month: nat, day: nat)

  const MIN_YEAR := 1
  const MAX_YEAR := 9999

  predicate IsLeap(year: int) {
    year % 4 == 0 && (year % 100 != 0 || year % 400 == 0)
  }

  function DaysInYear(year: int): int {
    if IsLeap(year) then 366 else 365
  }

  function DaysInMonth(year: int, month: int): (n: int)
    requires 1 <= month <= 12
    ensures 28 <= n <= 31
    ensures n == 29 <==> month == 2 && IsLeap(year)
  {
    if month == 2 then (if IsLeap(year) then 29 else 28)
    else if month == 4 || month == 6 || month == 9 || month == 11 then 30
    else 31
  }

  /** A day of the calendar, with no upper bound on the year. */
  predicate IsCalendarDate(d: Date) {
    d.year >= MIN_YEAR && 1 <= d.month <= 12 && 1 <= d.day <= DaysInMonth(d.year, d.month)
  }

  /** A date Python's `date` class accepts (years 1 to 9999). */
  predicate ValidDate(d: Date) {
    IsCalendarDate(d) && d.year <= MAX_YEAR
  }

  /** Days in the years before `year` (Python's `_days_before_year`). */
  function DaysBeforeYear(year: int): int
    requires year >= MIN_YEAR
  {
    var y := year - 1;
    y * 365 + y / 4 - y / 100 + y / 400
  }

  const DAYS_BEFORE_MONTH: seq<int> := [0, 31, 59, 90, 120, 151, 181, 212, 243, 273, 304, 334]

  /** Days in the months of `year` before `month` (Python's `_days_before_month`). */
  function DaysBeforeMonth(year: int, month: int): int
    requires 1 <= month <= 12
  {
    DAYS_BEFORE_MONTH[month - 1] + (if month > 2 && IsLeap(year) then 1 else 0)
  }

  /** Python's `_ymd2ord`: 0001-01-01 is day 1. */
  function Ordinal(d: Date): int
    requires IsCalendarDate(d)
  {
    DaysBeforeYear(d.year) + DaysBeforeMonth(d.year, d.month) + d.day
  }

  /** Python's `date.weekday`: 0 is Monday, 6 is Sunday. */
  function Weekday(d: Date): (w: int)
    requires IsCalendarDate(d)
    ensures 0 <= w < 7
  {
    (Ordinal(d) + 6) % 7
  }

  // A reference count of days, one year and one month at a time.

  function YearsSpan(year: int): int
    requires year >= MIN_YEAR
    decreases year
  {
    if year == MIN_YEAR then 0 else YearsSpan(year - 1) + DaysInYear(year - 1)
  }

  function MonthsSpan(year: int, month: int): int
    requires 1 <= month <= 12
  {
    if month == 1 then 0 else MonthsSpan(year, month - 1) + DaysInMonth(year, month - 1)
  }

  /** The position of `d` in the sequence of all days from 0001-01-01, which is 1. */
  function DayNumber(d: Date): int
    requires IsCalendarDate(d)
  {
    YearsSpan(d.year) + MonthsSpan(d.year, d.month) + d.day
  }

  /** The day after `d`. */
  function NextDay(d: Date): (n: Date)
    requires IsCalendarDate(d)
    ensures IsCalendarDate(n)
  {
    if d.day < DaysInMonth(d.year, d.month) then Date(d.year, d.month, d.day + 1)
    else if d.month < 12 then Date(d.year, d.month + 1, 1)
    else Date(d.year + 1, 1, 1)
  }

  /** Going from `k - 1` to `k` passes one more multiple of 4, 100 or 400
      exactly when `k` is one. */
  lemma MultiplesStep(k: int)
    ensures k / 4 - (k - 1) / 4 == (if k % 4 == 0 then 1 else 0)
    ensures k / 100 - (k - 1) / 100 == (if k % 100 == 0 then 1 else 0)
    ensures k / 400 - (k - 1) / 400 == (if k % 400 == 0 then 1 else 0)
  {
  }

  lemma Multiple400(k: int)
    requires k % 400 == 0
    ensures k % 100 == 0
  {
    var p := k / 400;
    assert k == 400 * p;
    assert k == 100 * (4 * p);
  }

  lemma Multiple100(k: int)
    requires k % 100 == 0
    ensures k % 4 == 0
  {
    var p := k / 100;
    assert k == 100 * p;
    assert k == 4 * (25 * p);
  }

  /** A year adds its own length to the closed form of the days before it. */
  lemma DaysBeforeYearStep(year: int)
    requires year >= MIN_YEAR
    ensures DaysBeforeYear(year + 1) == DaysBeforeYear(year) + DaysInYear(year)
  {
    MultiplesStep(year);
    if year % 400 == 0 {
      Multiple400(year);
    }
    if year % 100 == 0 {
      Multiple100(year);
    }
  }

  /** Python's closed form for the days before a year is the year-by-year count. */
  lemma {:induction false} DaysBeforeYearCounts(year: int)
    requires year >= MIN_YEAR
    ensures DaysBeforeYear(year) == YearsSpan(year)
    decreases year
  {
    if year > MIN_YEAR {
      DaysBeforeYearCounts(year - 1);
      DaysBeforeYearStep(year - 1);
    }
  }

  /** Python's month table is the month-by-month count. */
  lemma {:induction false} DaysBeforeMonthCounts(year: int, month: int)
    requires 1 <= month <= 12
    ensures DaysBeforeMonth(year, month) == MonthsSpan(year, month)
  {
    if month > 1 {
      DaysBeforeMonthCounts(year, month - 1);
    }
  }

  /** The ordinal of a date is its position in the sequence of all days. */
  lemma OrdinalCounts(d: Date)
    requires IsCalendarDate(d)
    ensures Ordinal(d) == DayNumber(d)
  {
    DaysBeforeYearCounts(d.year);
    DaysBeforeMonthCounts(d.year, d.month);
  }

  /** Consecutive days have consecutive ordinals. */
  lemma OrdinalNextDay(d: Date)
    requires IsCalendarDate(d)
    ensures Ordinal(NextDay(d)) == Ordinal(d) + 1
  {
    if d.day == DaysInMonth(d.year, d.month) && d.month == 12 {
      DaysBeforeYearStep(d.year);
    }
  }

  /** The weekday advances by one, cyclically, from each day to the next. */
  lemma WeekdayNextDay(d: Date)
    requires IsCalendarDate(d)
    ensures Weekday(NextDay(d)) == (Weekday(d) + 1) % 7
  {
    OrdinalNextDay(d);
    ModSevenStep(Ordinal(d) + 6);
  }

  lemma ModSevenStep(k: int)
    ensures (k + 1) % 7 == (k % 7 + 1) % 7
  {
  }

  lemma ModSevenShift(k: int)
    ensures (k + 7) % 7 == k % 7
  {
  }

  /** The weekday counts days from 0001-01-01, a Monday, modulo seven. */
  lemma WeekdayCounts(d: Date)
    requires IsCalendarDate(d)
    ensures Weekday(d) == (DayNumber(d) - 1) % 7
  {
    OrdinalCounts(d);
    ModSevenShift(DayNumber(d) - 1);
  }
}
