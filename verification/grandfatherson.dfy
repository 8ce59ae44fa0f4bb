/**
  The retention calculator: the union of the seven granularity filters is the
  keep-set, the rest of the input is the delete-set.  The date variants run
  the same computation on dates placed at midnight and read the dates back.
 */
module GrandFatherSon {
  import opened Results
  import opened Calendar
  import opened DateTimes
  import opened Filters
  import FilterProps

  /** The per-granularity counts; each keyword argument of `to_keep` defaults to 0. */
  datatype Counts = Counts(years: int, months: int, weeks: int, days: int,
                           hours: int, minutes: int, seconds: int)

  const NoCounts: Counts := Counts(0, 0, 0, 0, 0, 0, 0)

  predicate NonNegative(c: Counts) {
    c.years >= 0 && c.months >= 0 && c.weeks >= 0 && c.days >= 0
    && c.hours >= 0 && c.minutes >= 0 && c.seconds >= 0
  }

  /** The sum of all counts: the most buckets the seven filters can keep together. */
  function Total(c: Counts): int {
    c.years + c.months + c.weeks + c.days + c.hours + c.minutes + c.seconds
  }

  /** The first negative count in the order the filters run: years down to seconds. */
  function FirstNegative(c: Counts): int
    requires !NonNegative(c)
  {
    if c.years < 0 then c.years
    else if c.months < 0 then c.months
    else if c.weeks < 0 then c.weeks
    else if c.days < 0 then c.days
    else if c.hours < 0 then c.hours
    else if c.minutes < 0 then c.minutes
    else c.seconds
  }

  /** `x` is the oldest of its bucket inside the window of at least one granularity. */
  predicate KeptBySome(ts: set<DateTime>, c: Counts, firstweekday: int, now: DateTime, x: DateTime)
    requires AllValid(ts) && now.Valid() && x.Valid()
  {
    || OldestInWindow(Years, ts, c.years, now, x)
    || OldestInWindow(Months, ts, c.months, now, x)
    || OldestInWindow(Weeks(firstweekday), ts, c.weeks, now, x)
    || OldestInWindow(Days, ts, c.days, now, x)
    || OldestInWindow(Hours, ts, c.hours, now, x)
    || OldestInWindow(Minutes, ts, c.minutes, now, x)
    || OldestInWindow(Seconds, ts, c.seconds, now, x)
  }

  /**
    `to_keep`: the union of the year, month, week, day, hour, minute and second
    filters, each run with its own count; the first negative count aborts the
    whole call.  The week filter is the corrected `Filter`, deduplicating by
    `firstweekday` weeks; `ToKeepAsWritten` is the source's variant.
   */
  ghost function ToKeep(ts: set<DateTime>, c: Counts, firstweekday: int, now: Now)
    : (r: Result<set<DateTime>, FilterError>)
    requires AllValid(ts) && now.Valid()
    ensures r.Success? <==> NonNegative(c)
    ensures r.Failure? ==> r.error == InvalidNumber(FirstNegative(c))
    ensures r.Success? ==> r.value <= ts
    ensures r.Success? ==> forall x :: x in ts && Less(now.Reference(), x) ==> x in r.value
    ensures r.Success? ==> forall x :: x in r.value <==>
      x in ts && (Less(now.Reference(), x) || KeptBySome(ts, c, firstweekday, now.Reference(), x))
  {
    var y :- Filter(Years, ts, c.years, now);
    var mo :- Filter(Months, ts, c.months, now);
    var w :- Filter(Weeks(firstweekday), ts, c.weeks, now);
    var d :- Filter(Days, ts, c.days, now);
    var h :- Filter(Hours, ts, c.hours, now);
    var mi :- Filter(Minutes, ts, c.minutes, now);
    var s :- Filter(Seconds, ts, c.seconds, now);
    Success(y + mo + w + d + h + mi + s)
  }

  /**
    `to_delete`: the input minus the keep-set.  Keep-set and delete-set split
    the input, and nothing after `now` is ever deleted.
   */
  ghost function ToDelete(ts: set<DateTime>, c: Counts, firstweekday: int, now: Now)
    : (r: Result<set<DateTime>, FilterError>)
    requires AllValid(ts) && now.Valid()
    ensures r.Success? <==> NonNegative(c)
    ensures r.Failure? ==> r.error == InvalidNumber(FirstNegative(c))
    ensures r.Success? ==> r.value + ToKeep(ts, c, firstweekday, now).value == ts
    ensures r.Success? ==> r.value !! ToKeep(ts, c, firstweekday, now).value
    ensures r.Success? ==> forall x :: x in r.value ==> !Less(now.Reference(), x)
  {
    var keep :- ToKeep(ts, c, firstweekday, now);
    Success(ts - keep)
  }

  /** With every count at its default 0, exactly the timestamps after `now` are kept. */
  lemma DefaultCountsKeepFuture(ts: set<DateTime>, firstweekday: int, now: Now)
    requires AllValid(ts) && now.Valid()
    ensures ToKeep(ts, NoCounts, firstweekday, now) == Success(set x | x in ts && Less(now.Reference(), x))
    ensures ToDelete(ts, NoCounts, firstweekday, now) == Success(set x | x in ts && !Less(now.Reference(), x))
  {
    var ref := now.Reference();
    assert ToKeep(ts, NoCounts, firstweekday, now).value == set x | x in ts && Less(ref, x);
    assert ToDelete(ts, NoCounts, firstweekday, now).value == set x | x in ts && !Less(ref, x);
  }

  /** Running `to_keep` again on its own result, with the same counts and `now`, changes nothing. */
  lemma ToKeepIdempotent(ts: set<DateTime>, c: Counts, firstweekday: int, now: Now)
    requires AllValid(ts) && now.Valid() && NonNegative(c)
    ensures var keep := ToKeep(ts, c, firstweekday, now).value;
      ToKeep(keep, c, firstweekday, now) == Success(keep)
  {
    var keep := ToKeep(ts, c, firstweekday, now).value;
    FilterProps.FilterSubsetStable(Years, ts, keep, c.years, now);
    FilterProps.FilterSubsetStable(Months, ts, keep, c.months, now);
    FilterProps.FilterSubsetStable(Weeks(firstweekday), ts, keep, c.weeks, now);
    FilterProps.FilterSubsetStable(Days, ts, keep, c.days, now);
    FilterProps.FilterSubsetStable(Hours, ts, keep, c.hours, now);
    FilterProps.FilterSubsetStable(Minutes, ts, keep, c.minutes, now);
    FilterProps.FilterSubsetStable(Seconds, ts, keep, c.seconds, now);
    assert ToKeep(keep, c, firstweekday, now).value == keep;
  }

  /** `firstweekday` only reaches the week filter: without weeks it changes nothing. */
  lemma FirstWeekdayOnlyAffectsWeeks(ts: set<DateTime>, c: Counts, f1: int, f2: int, now: Now)
    requires AllValid(ts) && now.Valid()
    requires c.weeks == 0
    ensures ToKeep(ts, c, f1, now) == ToKeep(ts, c, f2, now)
  {
    var r1, r2 := ToKeep(ts, c, f1, now), ToKeep(ts, c, f2, now);
    if NonNegative(c) {
      var ref := now.Reference();
      forall x | x in ts
        ensures KeptBySome(ts, c, f1, ref, x) == KeptBySome(ts, c, f2, ref, x)
      {
        assert !InWindow(Weeks(f1), c.weeks, ref, x) && !InWindow(Weeks(f2), c.weeks, ref, x);
      }
      assert r1.value == r2.value;
    }
  }

  /** On empty input nothing is kept and nothing is deleted. */
  lemma EmptyInput(ts: set<DateTime>, c: Counts, firstweekday: int, now: Now)
    requires ts == {}
    requires now.Valid() && NonNegative(c)
    ensures ToKeep(ts, c, firstweekday, now) == Success({})
    ensures ToDelete(ts, c, firstweekday, now) == Success({})
  {
    var keep := ToKeep(ts, c, firstweekday, now);
    assert keep.Success? && keep.value <= ts;
    assert keep.value == {};
    var delete := ToDelete(ts, c, firstweekday, now);
    assert delete.Success? && delete.value + keep.value == ts;
    assert delete.value == {};
  }

  /** At most `Total(c)` timestamps at or before `now` are kept. */
  lemma ToKeepBound(ts: set<DateTime>, c: Counts, firstweekday: int, now: Now)
    requires AllValid(ts) && now.Valid() && NonNegative(c)
    ensures |FilterProps.NotAfter(ToKeep(ts, c, firstweekday, now).value, now.Reference())| <= Total(c)
  {
    var ref := now.Reference();
    var y := Filter(Years, ts, c.years, now).value;
    var mo := Filter(Months, ts, c.months, now).value;
    var w := Filter(Weeks(firstweekday), ts, c.weeks, now).value;
    var d := Filter(Days, ts, c.days, now).value;
    var h := Filter(Hours, ts, c.hours, now).value;
    var mi := Filter(Minutes, ts, c.minutes, now).value;
    var s := Filter(Seconds, ts, c.seconds, now).value;
    FilterProps.FilterBound(Years, ts, c.years, now);
    FilterProps.FilterBound(Months, ts, c.months, now);
    FilterProps.FilterBound(Weeks(firstweekday), ts, c.weeks, now);
    FilterProps.FilterBound(Days, ts, c.days, now);
    FilterProps.FilterBound(Hours, ts, c.hours, now);
    FilterProps.FilterBound(Minutes, ts, c.minutes, now);
    FilterProps.FilterBound(Seconds, ts, c.seconds, now);
    var u := y;
    var bound := c.years;
    UnionNotAfter(u, mo, ref);
    u, bound := u + mo, bound + c.months;
    UnionNotAfter(u, w, ref);
    u, bound := u + w, bound + c.weeks;
    UnionNotAfter(u, d, ref);
    u, bound := u + d, bound + c.days;
    UnionNotAfter(u, h, ref);
    u, bound := u + h, bound + c.hours;
    UnionNotAfter(u, mi, ref);
    u, bound := u + mi, bound + c.minutes;
    UnionNotAfter(u, s, ref);
    u, bound := u + s, bound + c.seconds;
    assert u == ToKeep(ts, c, firstweekday, now).value;
  }

  /** The part of a union not after `now` is no larger than the two parts together. */
  lemma UnionNotAfter(a: set<DateTime>, b: set<DateTime>, now: DateTime)
    ensures |FilterProps.NotAfter(a + b, now)| <= |FilterProps.NotAfter(a, now)| + |FilterProps.NotAfter(b, now)|
  {
    assert FilterProps.NotAfter(a + b, now) == FilterProps.NotAfter(a, now) + FilterProps.NotAfter(b, now);
  }

  /** The first instant of each date. */
  function Midnights(dates: set<Date>): (r: set<DateTime>)
    requires forall d :: d in dates ==> d.Valid()
    ensures AllValid(r)
  {
    set d | d in dates :: AtMidnight(d)
  }

  /**
    `dates_to_keep`: `to_keep` on the dates placed at midnight, with the hour,
    minute and second counts at 0, read back as dates.
   */
  ghost function DatesToKeep(dates: set<Date>, years: int, months: int, weeks: int, days: int,
                             firstweekday: int, now: Now): (r: Result<set<Date>, FilterError>)
    requires forall d :: d in dates ==> d.Valid()
    requires now.Valid()
    ensures r.Success? <==> years >= 0 && months >= 0 && weeks >= 0 && days >= 0
    ensures r.Failure? ==> r.error == InvalidNumber(FirstNegative(Counts(years, months, weeks, days, 0, 0, 0)))
    ensures r.Success? ==> r.value <= dates
    ensures r.Success? ==> forall d :: d in dates ==>
      (d in r.value <==>
       AtMidnight(d) in ToKeep(Midnights(dates), Counts(years, months, weeks, days, 0, 0, 0), firstweekday, now).value)
  {
    var kept :- ToKeep(Midnights(dates), Counts(years, months, weeks, days, 0, 0, 0), firstweekday, now);
    Success(set dt | dt in kept :: dt.ToDate())
  }

  /** `dates_to_delete`: the input dates minus `dates_to_keep`. */
  ghost function DatesToDelete(dates: set<Date>, years: int, months: int, weeks: int, days: int,
                               firstweekday: int, now: Now): (r: Result<set<Date>, FilterError>)
    requires forall d :: d in dates ==> d.Valid()
    requires now.Valid()
    ensures r.Success? <==> years >= 0 && months >= 0 && weeks >= 0 && days >= 0
    ensures r.Failure? ==> r.error == InvalidNumber(FirstNegative(Counts(years, months, weeks, days, 0, 0, 0)))
    ensures r.Success? ==> r.value + DatesToKeep(dates, years, months, weeks, days, firstweekday, now).value == dates
    ensures r.Success? ==> r.value !! DatesToKeep(dates, years, months, weeks, days, firstweekday, now).value
  {
    var keep :- DatesToKeep(dates, years, months, weeks, days, firstweekday, now);
    Success(dates - keep)
  }

  /**
    `dates_to_keep` as the source computes it: `DatesToKeep` with
    `ToKeepAsWritten` in place of the corrected `ToKeep`.
   */
  ghost function DatesToKeepAsWritten(dates: set<Date>, years: int, months: int, weeks: int, days: int,
                                      firstweekday: int, now: Now): (r: Result<set<Date>, FilterError>)
    requires forall d :: d in dates ==> d.Valid()
    requires now.Valid()
    ensures r.Success? <==> years >= 0 && months >= 0 && weeks >= 0 && days >= 0
    ensures r.Failure? ==> r.error == InvalidNumber(FirstNegative(Counts(years, months, weeks, days, 0, 0, 0)))
    ensures r.Success? ==> r.value <= dates
    ensures r.Success? ==> forall d :: d in dates ==>
      (d in r.value <==>
       AtMidnight(d) in ToKeepAsWritten(Midnights(dates), Counts(years, months, weeks, days, 0, 0, 0), firstweekday, now).value)
  {
    var kept :- ToKeepAsWritten(Midnights(dates), Counts(years, months, weeks, days, 0, 0, 0), firstweekday, now);
    Success(set dt | dt in kept :: dt.ToDate())
  }

  /** `dates_to_delete` as the source computes it: the input dates minus `DatesToKeepAsWritten`. */
  ghost function DatesToDeleteAsWritten(dates: set<Date>, years: int, months: int, weeks: int, days: int,
                                        firstweekday: int, now: Now): (r: Result<set<Date>, FilterError>)
    requires forall d :: d in dates ==> d.Valid()
    requires now.Valid()
    ensures r.Success? <==> years >= 0 && months >= 0 && weeks >= 0 && days >= 0
    ensures r.Failure? ==> r.error == InvalidNumber(FirstNegative(Counts(years, months, weeks, days, 0, 0, 0)))
    ensures r.Success? ==> r.value + DatesToKeepAsWritten(dates, years, months, weeks, days, firstweekday, now).value == dates
    ensures r.Success? ==> r.value !! DatesToKeepAsWritten(dates, years, months, weeks, days, firstweekday, now).value
  {
    var keep :- DatesToKeepAsWritten(dates, years, months, weeks, days, firstweekday, now);
    Success(dates - keep)
  }

  /**
    Without weeks, or with weeks starting on Saturday, the source's date
    variants are the corrected ones.
   */
  lemma DatesAsWrittenAgree(dates: set<Date>, years: int, months: int, weeks: int, days: int,
                            firstweekday: int, now: Now)
    requires forall d :: d in dates ==> d.Valid()
    requires now.Valid()
    requires weeks == 0 || firstweekday % 7 == SATURDAY
    ensures DatesToKeepAsWritten(dates, years, months, weeks, days, firstweekday, now)
         == DatesToKeep(dates, years, months, weeks, days, firstweekday, now)
    ensures DatesToDeleteAsWritten(dates, years, months, weeks, days, firstweekday, now)
         == DatesToDelete(dates, years, months, weeks, days, firstweekday, now)
  {
    ToKeepAsWrittenAgrees(Midnights(dates), Counts(years, months, weeks, days, 0, 0, 0), firstweekday, now);
  }

  /**
    With a plain date as `now` and all counts 0, only strictly later dates are
    kept: a backup from the day of `now` itself is not treated as future.
   */
  lemma DatesDefaultKeepsLaterDays(dates: set<Date>, firstweekday: int, today: Date)
    requires forall d :: d in dates ==> d.Valid()
    requires today.Valid()
    ensures DatesToKeep(dates, 0, 0, 0, 0, firstweekday, OnDate(today)) == Success(set d | d in dates && DateBefore(today, d))
  {
    var now := OnDate(today);
    var r := DatesToKeep(dates, 0, 0, 0, 0, firstweekday, now);
    DefaultCountsKeepFuture(Midnights(dates), firstweekday, now);
    forall d | d in dates
      ensures d in r.value <==> DateBefore(today, d)
    {
      assert Less(now.Reference(), AtMidnight(d)) <==> DateBefore(today, d);
    }
    assert r.value == set d | d in dates && DateBefore(today, d);
  }

  /**
    `KeptBySome` with the week filter deduplicating as the source does: by
    Saturday weeks, inside the window of `firstweekday` weeks.
   */
  predicate KeptBySomeAsWritten(ts: set<DateTime>, c: Counts, firstweekday: int, now: DateTime, x: DateTime)
    requires AllValid(ts) && now.Valid() && x.Valid()
  {
    || OldestInWindow(Years, ts, c.years, now, x)
    || OldestInWindow(Months, ts, c.months, now, x)
    || OldestInWindowAsWritten(Weeks(firstweekday), ts, c.weeks, now, x)
    || OldestInWindow(Days, ts, c.days, now, x)
    || OldestInWindow(Hours, ts, c.hours, now, x)
    || OldestInWindow(Minutes, ts, c.minutes, now, x)
    || OldestInWindow(Seconds, ts, c.seconds, now, x)
  }

  /**
    `to_keep` as the source computes it.  Only the week filter's dedup mask
    differs from its own mask, so the other six filters are `Filter`
    (`FilterProps.FilterAsWrittenAgrees`).
   */
  ghost function ToKeepAsWritten(ts: set<DateTime>, c: Counts, firstweekday: int, now: Now)
    : (r: Result<set<DateTime>, FilterError>)
    requires AllValid(ts) && now.Valid()
    ensures r.Success? <==> NonNegative(c)
    ensures r.Failure? ==> r.error == InvalidNumber(FirstNegative(c))
    ensures r.Success? ==> r.value <= ts
    ensures r.Success? ==> forall x :: x in ts && Less(now.Reference(), x) ==> x in r.value
    ensures r.Success? ==> forall x :: x in r.value <==>
      x in ts && (Less(now.Reference(), x) || KeptBySomeAsWritten(ts, c, firstweekday, now.Reference(), x))
  {
    var y :- Filter(Years, ts, c.years, now);
    var mo :- Filter(Months, ts, c.months, now);
    var w :- FilterAsWritten(Weeks(firstweekday), ts, c.weeks, now);
    var d :- Filter(Days, ts, c.days, now);
    var h :- Filter(Hours, ts, c.hours, now);
    var mi :- Filter(Minutes, ts, c.minutes, now);
    var s :- Filter(Seconds, ts, c.seconds, now);
    Success(y + mo + w + d + h + mi + s)
  }

  /** `to_delete` as the source computes it: the input minus `ToKeepAsWritten`. */
  ghost function ToDeleteAsWritten(ts: set<DateTime>, c: Counts, firstweekday: int, now: Now)
    : (r: Result<set<DateTime>, FilterError>)
    requires AllValid(ts) && now.Valid()
    ensures r.Success? <==> NonNegative(c)
    ensures r.Failure? ==> r.error == InvalidNumber(FirstNegative(c))
    ensures r.Success? ==> r.value + ToKeepAsWritten(ts, c, firstweekday, now).value == ts
    ensures r.Success? ==> r.value !! ToKeepAsWritten(ts, c, firstweekday, now).value
    ensures r.Success? ==> forall x :: x in r.value ==> !Less(now.Reference(), x)
  {
    var keep :- ToKeepAsWritten(ts, c, firstweekday, now);
    Success(ts - keep)
  }

  /**
    Without weeks, or with weeks starting on Saturday, the source's `to_keep`
    is the corrected `ToKeep`.
   */
  lemma ToKeepAsWrittenAgrees(ts: set<DateTime>, c: Counts, firstweekday: int, now: Now)
    requires AllValid(ts) && now.Valid()
    requires c.weeks == 0 || firstweekday % 7 == SATURDAY
    ensures ToKeepAsWritten(ts, c, firstweekday, now) == ToKeep(ts, c, firstweekday, now)
  {
    var r1, r2 := ToKeepAsWritten(ts, c, firstweekday, now), ToKeep(ts, c, firstweekday, now);
    if NonNegative(c) {
      var ref := now.Reference();
      forall x | x in ts
        ensures KeptBySomeAsWritten(ts, c, firstweekday, ref, x) == KeptBySome(ts, c, firstweekday, ref, x)
      {
        FilterProps.OldestAsWrittenAgrees(Weeks(firstweekday), ts, c.weeks, ref, x);
      }
      assert r1.value == r2.value;
    }
  }

  /** The source's keep-set obeys the `Total(c)` bound without weeks or with Saturday weeks. */
  lemma ToKeepBoundAsWritten(ts: set<DateTime>, c: Counts, firstweekday: int, now: Now)
    requires AllValid(ts) && now.Valid() && NonNegative(c)
    requires c.weeks == 0 || firstweekday % 7 == SATURDAY
    ensures |FilterProps.NotAfter(ToKeepAsWritten(ts, c, firstweekday, now).value, now.Reference())| <= Total(c)
  {
    ToKeepAsWrittenAgrees(ts, c, firstweekday, now);
    ToKeepBound(ts, c, firstweekday, now);
  }

  /** Running the source's `to_keep` again on its own result changes nothing. */
  lemma ToKeepAsWrittenIdempotent(ts: set<DateTime>, c: Counts, firstweekday: int, now: Now)
    requires AllValid(ts) && now.Valid() && NonNegative(c)
    ensures var keep := ToKeepAsWritten(ts, c, firstweekday, now).value;
      ToKeepAsWritten(keep, c, firstweekday, now) == Success(keep)
  {
    var keep := ToKeepAsWritten(ts, c, firstweekday, now).value;
    FilterProps.FilterSubsetStable(Years, ts, keep, c.years, now);
    FilterProps.FilterSubsetStable(Months, ts, keep, c.months, now);
    FilterProps.FilterSubsetStableAsWritten(Weeks(firstweekday), ts, keep, c.weeks, now);
    FilterProps.FilterSubsetStable(Days, ts, keep, c.days, now);
    FilterProps.FilterSubsetStable(Hours, ts, keep, c.hours, now);
    FilterProps.FilterSubsetStable(Minutes, ts, keep, c.minutes, now);
    FilterProps.FilterSubsetStable(Seconds, ts, keep, c.seconds, now);
    assert ToKeepAsWritten(keep, c, firstweekday, now).value == keep;
  }
}
