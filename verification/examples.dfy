/**
  Concrete instances of the model on the dates the filter test suite uses:
  masks of the last microsecond of 1999, weekdays around the millennium,
  window starts across a leap day and across year boundaries, and a full
  filter run that keeps the oldest timestamp of each bucket.
 */
module Examples {
  import opened Results
  import opened Calendar
  import opened DateTimes
  import opened Filters
  import opened Buckets

  /** 1999-12-31 23:59:59.999999, the timestamp every mask test uses. */
  const LAST: DateTime := DateTime(1999, 12, 31, 23, 59, 59, 999999)

  /** Each fixed-calendar mask truncates the last microsecond of 1999 to its own unit. */
  lemma CalendarMasks()
    ensures Mask(Seconds, LAST) == DateTime(1999, 12, 31, 23, 59, 59, 0)
    ensures Mask(Minutes, LAST) == DateTime(1999, 12, 31, 23, 59, 0, 0)
    ensures Mask(Hours, LAST) == DateTime(1999, 12, 31, 23, 0, 0, 0)
    ensures Mask(Days, LAST) == DateTime(1999, 12, 31, 0, 0, 0, 0)
    ensures Mask(Months, LAST) == DateTime(1999, 12, 1, 0, 0, 0, 0)
    ensures Mask(Years, LAST) == DateTime(1999, 1, 1, 0, 0, 0, 0)
  {
  }

  /** 1999-12-31 is a Friday and 2000-01-01 a Saturday. */
  lemma MillenniumWeekdays()
    ensures Weekday(Date(1999, 12, 31)) == FRIDAY
    ensures Weekday(Date(2000, 1, 1)) == SATURDAY
  {
  }

  /**
    Weeks starting on Saturday put 1999-12-31 in the week of 1999-12-25;
    weeks starting on Sunday, in the week of 1999-12-26; and weeks starting
    on its own weekday, in its own day.
   */
  lemma WeekMasks()
    ensures Mask(Weeks(SATURDAY), LAST) == DateTime(1999, 12, 25, 0, 0, 0, 0)
    ensures Mask(Weeks(SUNDAY), LAST) == DateTime(1999, 12, 26, 0, 0, 0, 0)
    ensures Mask(Weeks(FRIDAY), LAST) == Mask(Days, LAST)
  {
    WeekMaskAt(LAST, SATURDAY, Date(1999, 12, 25));
    WeekMaskAt(LAST, SUNDAY, Date(1999, 12, 26));
    WeekMaskAt(LAST, FRIDAY, Date(1999, 12, 31));
  }

  /** The week mask is the midnight of the day `WeekCorrection` days back. */
  lemma WeekMaskAt(dt: DateTime, firstweekday: int, d: Date)
    requires dt.Valid() && d.Valid()
    requires Ordinal(d) == Ordinal(dt.ToDate()) - WeekCorrection(dt, firstweekday)
    ensures WeekMask(dt, firstweekday) == AtMidnight(d)
  {
    OrdinalInjective(WeekMask(dt, firstweekday).ToDate(), d);
  }

  /** 2004 and 2000 are leap years; 1900 is not, being a century not divisible by 400. */
  lemma LeapYears()
    ensures IsLeap(2004) && IsLeap(2000) && !IsLeap(1900)
  {
  }

  /** Two days back from 2004-03-01 start on the leap day; from 1900-03-01, on 28 February. */
  lemma DayStartsAcrossFebruary()
    ensures Start(Days, DateTime(2004, 3, 1, 0, 0, 0, 0), 2) == DateTime(2004, 2, 29, 0, 0, 0, 0)
    ensures Start(Days, DateTime(1900, 3, 1, 0, 0, 0, 0), 2) == DateTime(1900, 2, 28, 0, 0, 0, 0)
  {
    DayBefore(DateTime(2004, 3, 1, 0, 0, 0, 0), Date(2004, 2, 29));
    DayBefore(DateTime(1900, 3, 1, 0, 0, 0, 0), Date(1900, 2, 28));
  }

  /** The two-day window of `now` starts at the midnight of the day before. */
  lemma DayBefore(now: DateTime, before: Date)
    requires now.Valid() && before.Valid()
    requires Ordinal(before) == Ordinal(now.ToDate()) - 1
    ensures Start(Days, now, 2) == AtMidnight(before)
  {
    var s := Start(Days, now, 2);
    StartBucket(Days, now, 2);
    OrdinalInjective(s.ToDate(), before);
  }

  /**
    Month windows ending in January 2000 reach back across year boundaries:
    12 months start in February 1999, 13 in January 1999, 14 in December 1998
    and 36 in February 1997.
   */
  lemma MonthStartsAcrossYears()
    ensures Start(Months, DateTime(2000, 1, 1, 0, 0, 0, 0), 12) == DateTime(1999, 2, 1, 0, 0, 0, 0)
    ensures Start(Months, DateTime(2000, 1, 1, 0, 0, 0, 0), 13) == DateTime(1999, 1, 1, 0, 0, 0, 0)
    ensures Start(Months, DateTime(2000, 1, 1, 0, 0, 0, 0), 14) == DateTime(1998, 12, 1, 0, 0, 0, 0)
    ensures Start(Months, DateTime(2000, 1, 1, 0, 0, 0, 0), 36) == DateTime(1997, 2, 1, 0, 0, 0, 0)
  {
  }

  /** Four Saturday-weeks ending on 2000-01-01 start on 1999-12-11. */
  lemma WeekStart()
    ensures Start(Weeks(SATURDAY), DateTime(2000, 1, 1, 1, 1, 1, 1), 4) == DateTime(1999, 12, 11, 0, 0, 0, 0)
  {
    WeekStartAt(DateTime(2000, 1, 1, 1, 1, 1, 1), SATURDAY, 4, Date(1999, 12, 11));
  }

  /** The week window starts `number - 1` whole weeks before the week mask of `now`. */
  lemma WeekStartAt(now: DateTime, firstweekday: int, number: int, d: Date)
    requires now.Valid() && d.Valid() && number >= 1
    requires Ordinal(d) == Ordinal(now.ToDate()) - WeekCorrection(now, firstweekday) - 7 * (number - 1)
    ensures Start(Weeks(firstweekday), now, number) == AtMidnight(d)
  {
    StartBucketWeeks(now, firstweekday, number);
    OrdinalInjective(Start(Weeks(firstweekday), now, number).ToDate(), d);
  }

  /** Four years ending in 2000 start on 1997-01-01. */
  lemma YearStart()
    ensures Start(Years, DateTime(2000, 1, 1, 1, 1, 1, 1), 4) == DateTime(1997, 1, 1, 0, 0, 0, 0)
  {
  }

  /** The leap-year series of the day tests, and the instant it is filtered at. */
  const MARCH_1_2004: DateTime := DateTime(2004, 3, 1, 0, 0, 0, 0)
  const FEB_29_2004: DateTime := DateTime(2004, 2, 29, 0, 0, 0, 0)
  const FEB_28_2004: DateTime := DateTime(2004, 2, 28, 0, 0, 0, 0)
  const FEB_27_2004: DateTime := DateTime(2004, 2, 27, 0, 0, 0, 0)
  const LEAP_SERIES: set<DateTime> := {MARCH_1_2004, FEB_29_2004, FEB_28_2004, FEB_27_2004}

  /**
    Two days of the leap-year series ending 2004-03-01 keep 29 February and
    1 March; 28 February falls before the window.
   */
  lemma LeapDayFilter()
    ensures Filter(Days, LEAP_SERIES, 2, At(MARCH_1_2004)) == Success({FEB_29_2004, MARCH_1_2004})
  {
    LeapDayDropped();
    MarchFirstKept();
    LeapDayKept();
    FilterIs(Days, LEAP_SERIES, 2, At(MARCH_1_2004), {FEB_29_2004, MARCH_1_2004});
  }

  /** 28 and 27 February are before the two-day window ending on 1 March 2004. */
  lemma LeapDayDropped()
    ensures !InWindow(Days, 2, MARCH_1_2004, FEB_28_2004)
    ensures !InWindow(Days, 2, MARCH_1_2004, FEB_27_2004)
  {
    OutsideDayWindow(2, MARCH_1_2004, FEB_28_2004);
    OutsideDayWindow(2, MARCH_1_2004, FEB_27_2004);
  }

  /** 1 March 2004 is the only input of its day, inside the window. */
  lemma MarchFirstKept()
    ensures AllValid(LEAP_SERIES)
    ensures OldestInWindow(Days, LEAP_SERIES, 2, MARCH_1_2004, MARCH_1_2004)
  {
    AloneInDay(LEAP_SERIES, 2, MARCH_1_2004, MARCH_1_2004);
  }

  /** The leap day is the only input of its day, inside the window. */
  lemma LeapDayKept()
    ensures AllValid(LEAP_SERIES)
    ensures OldestInWindow(Days, LEAP_SERIES, 2, MARCH_1_2004, FEB_29_2004)
  {
    AloneInDay(LEAP_SERIES, 2, MARCH_1_2004, FEB_29_2004);
  }

  /** A timestamp `number` or more days before `now` is outside the day window. */
  lemma OutsideDayWindow(number: int, now: DateTime, x: DateTime)
    requires now.Valid() && x.Valid() && number >= 1
    requires Ordinal(now.ToDate()) - Ordinal(x.ToDate()) >= number
    ensures !InWindow(Days, number, now, x)
  {
    WindowByBucket(Days, number, now, x);
  }

  /** A timestamp in the day window with no other input on its day is kept. */
  lemma AloneInDay(ts: set<DateTime>, number: int, now: DateTime, x: DateTime)
    requires AllValid(ts) && now.Valid() && x.Valid() && number >= 1
    requires LessEq(x, now) && Ordinal(now.ToDate()) - Ordinal(x.ToDate()) < number
    requires forall o :: o in ts && o != x ==> Ordinal(o.ToDate()) != Ordinal(x.ToDate())
    ensures OldestInWindow(Days, ts, number, now, x)
  {
    WindowByBucket(Days, number, now, x);
  }

  /** A filter result is pinned down by deciding, for each input, whether it is kept. */
  lemma FilterIs(g: Granularity, ts: set<DateTime>, number: int, now: Now, expected: set<DateTime>)
    requires AllValid(ts) && now.Valid() && number >= 0
    requires expected <= ts
    requires forall x :: x in ts ==>
      (x in expected <==> Less(now.Reference(), x) || OldestInWindow(g, ts, number, now.Reference(), x))
    ensures Filter(g, ts, number, now) == Success(expected)
  {
    var r := Filter(g, ts, number, now);
    assert r.value == expected;
  }
}
