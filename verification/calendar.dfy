/**
  Proleptic Gregorian calendar arithmetic on plain dates, in the shape the
  Python `datetime` module uses: a date's ordinal is the number of days since
  the (proleptic) day before 0001-01-01, so that 0001-01-01 has ordinal 1 and
  is a Monday.  Years are unbounded integers here.
 */
module Calendar {

  /** Weekday numbers as the `calendar` module defines them (Monday is 0). */
  const MONDAY: int := 0
  const TUESDAY: int := 1
  const WEDNESDAY: int := 2
  const THURSDAY: int := 3
  const FRIDAY: int := 4
  const SATURDAY: int := 5
  const SUNDAY: int := 6

  const DAYS_IN_WEEK: int := 7

  /** Gregorian leap-year rule: every 4th year, except centuries not divisible by 400. */
  predicate IsLeap(year: int) {
    year % 4 == 0 && (year % 100 != 0 || year % 400 == 0)
  }

  function DaysInYear(year: int): int {
    if IsLeap(year) then 366 else 365
  }

  function DaysInMonth(year: int, month: int): (n: int)
    requires 1 <= month <= 12
    ensures 28 <= n <= 31
    ensures n == 29 <==> month == 2 && IsLeap(year)
  {
    if month == 2 then (if IsLeap(year) then 29 else 28)
    else if month == 4 || month == 6 || month == 9 || month == 11 then 30
    else 31
  }

  /** Number of days in the years before `year` (counting from year 1). */
  function DaysBeforeYear(year: int): int {
    var y := year - 1;
    y * 365 + y / 4 - y / 100 + y / 400
  }

  /** Number of days in `year` before the first day of `month`. */
  function DaysBeforeMonth(year: int, month: int): int
    requires 1 <= month <= 12
  {
    var common := [0, 31, 59, 90, 120, 151, 181, 212, 243, 273, 304, 334];
    common[month - 1] + (if month > 2 && IsLeap(year) then 1 else 0)
  }

  datatype Date = Date(year: int, month: int, day: int) {
    predicate Valid() {
      1 <= month <= 12 && 1 <= day <= DaysInMonth(year, month)
    }
  }

  /** Strict chronological order of dates: lexicographic on (year, month, day). */
  predicate DateBefore(a: Date, b: Date) {
    a.year < b.year
    || (a.year == b.year && (a.month < b.month || (a.month == b.month && a.day < b.day)))
  }

  /** Days since the day before 0001-01-01 (`date.toordinal()`). */
  function Ordinal(d: Date): int
    requires d.Valid()
  {
    DaysBeforeYear(d.year) + DaysBeforeMonth(d.year, d.month) + d.day
  }

  /** `date.weekday()`: Monday is 0 and Sunday is 6. */
  function Weekday(d: Date): (w: int)
    requires d.Valid()
    ensures 0 <= w < DAYS_IN_WEEK
  {
    (Ordinal(d) + 6) % DAYS_IN_WEEK
  }

  /** The last day of the month before `d`'s month, borrowing across years. */
  function LastDayOfPreviousMonth(d: Date): (r: Date)
    requires d.Valid()
    ensures r.Valid()
    ensures Ordinal(r) == Ordinal(d) - d.day
  {
    var py := if d.month == 1 then d.year - 1 else d.year;
    var pm := if d.month == 1 then 12 else d.month - 1;
    DaysBeforeYearStep(py);
    Date(py, pm, DaysInMonth(py, pm))
  }

  /**
    The date `k` days before `d` (`d - timedelta(days=k)` for `k >= 0`).  It walks
    back one month at a time; its contract pins the result down through the
    ordinal, which is injective on valid dates (see OrdinalInjective).
   */
  function SubDays(d: Date, k: nat): (r: Date)
    requires d.Valid()
    ensures r.Valid()
    ensures Ordinal(r) == Ordinal(d) - k
    decreases k
  {
    if k < d.day then Date(d.year, d.month, d.day - k)
    else SubDays(LastDayOfPreviousMonth(d), k - d.day)
  }

  lemma DaysBeforeYearStep(year: int)
    ensures DaysBeforeYear(year + 1) == DaysBeforeYear(year) + DaysInYear(year)
  {
    assert year / 4 - (year - 1) / 4 == (if year % 4 == 0 then 1 else 0);
    assert year / 100 - (year - 1) / 100 == (if year % 100 == 0 then 1 else 0);
    assert year / 400 - (year - 1) / 400 == (if year % 400 == 0 then 1 else 0);
  }

  /** A whole earlier year fits before the start of any later year. */
  lemma {:induction false} DaysBeforeYearGrowth(y1: int, y2: int)
    requires y1 < y2
    ensures DaysBeforeYear(y1) + DaysInYear(y1) <= DaysBeforeYear(y2)
    decreases y2 - y1
  {
    DaysBeforeYearStep(y1);
    if y1 + 1 < y2 {
      DaysBeforeYearGrowth(y1 + 1, y2);
    }
  }

  lemma DayOfYearBounds(d: Date)
    requires d.Valid()
    ensures 1 <= DaysBeforeMonth(d.year, d.month) + d.day <= DaysInYear(d.year)
  {
  }

  lemma MonthGrowth(year: int, m1: int, m2: int)
    requires 1 <= m1 < m2 <= 12
    ensures DaysBeforeMonth(year, m1) + DaysInMonth(year, m1) <= DaysBeforeMonth(year, m2)
  {
  }

  /** The ordinal orders dates exactly as the calendar does. */
  lemma OrdinalOrder(a: Date, b: Date)
    requires a.Valid() && b.Valid()
    ensures DateBefore(a, b) <==> Ordinal(a) < Ordinal(b)
  {
    if DateBefore(a, b) {
      OrdinalMonotone(a, b);
    } else if a != b {
      OrdinalMonotone(b, a);
    }
  }

  lemma OrdinalMonotone(a: Date, b: Date)
    requires a.Valid() && b.Valid()
    requires DateBefore(a, b)
    ensures Ordinal(a) < Ordinal(b)
  {
    if a.year < b.year {
      DayOfYearBounds(a);
      DaysBeforeYearGrowth(a.year, b.year);
    } else if a.month < b.month {
      MonthGrowth(a.year, a.month, b.month);
    }
  }

  lemma OrdinalInjective(a: Date, b: Date)
    requires a.Valid() && b.Valid()
    requires Ordinal(a) == Ordinal(b)
    ensures a == b
  {
    OrdinalOrder(a, b);
    OrdinalOrder(b, a);
  }
}
