/**
  Properties of a single retention filter that relate several calls or need
  the bucket arithmetic: at most `number` timestamps kept inside the window,
  a larger count never drops a kept timestamp, and a kept timestamp stays kept
  when the filter runs on any smaller input that still contains it.
 */
module FilterProps {
  import opened Results
  import opened DateTimes
  import opened Filters
  import opened Buckets

  /** The elements of `s` that are not after `now`. */
  function NotAfter(s: set<DateTime>, now: DateTime): set<DateTime> {
    set x | x in s && !Less(now, x)
  }

  /**
    A set whose integer keys are pairwise distinct and lie in `[lo, lo + n)`
    has at most `n` elements.
   */
  lemma {:induction false} DistinctKeysBound<T>(k: set<T>, key: map<T, int>, lo: int, n: nat)
    requires forall x :: x in k ==> x in key && lo <= key[x] < lo + n
    requires forall x, y :: x in k && y in k && key[x] == key[y] ==> x == y
    ensures |k| <= n
    decreases n
  {
    if n == 0 {
      assert k == {};
    } else {
      var top := set x | x in k && key[x] == lo + n - 1;
      var rest := k - top;
      DistinctKeysBound(rest, key, lo, n - 1);
      if top != {} {
        var t :| t in top;
        assert top == {t};
      }
      assert k == rest + top;
    }
  }

  /** Every timestamp a filter keeps inside its window lies fewer than `number` buckets behind `now`. */
  lemma KeptBucketRange(g: Granularity, ts: set<DateTime>, number: int, now: DateTime, x: DateTime)
    requires AllValid(ts) && now.Valid() && x.Valid()
    requires OldestInWindow(g, ts, number, now, x)
    ensures Bucket(g, now) - (number - 1) <= Bucket(g, x) <= Bucket(g, now)
  {
    WindowByBucket(g, number, now, x);
    BucketMonotone(g, x, now);
  }

  /**
    At most `number` timestamps are kept at or before `now`: one per bucket,
    and the window spans `number` buckets.
   */
  lemma FilterBound(g: Granularity, ts: set<DateTime>, number: int, now: Now)
    requires AllValid(ts) && now.Valid() && number >= 0
    ensures Filter(g, ts, number, now).Success?
    ensures |NotAfter(Filter(g, ts, number, now).value, now.Reference())| <= number
  {
    var ref := now.Reference();
    var k := NotAfter(Filter(g, ts, number, now).value, ref);
    KeptInBucketRange(g, ts, number, now);
    KeptBucketsDistinct(g, ts, number, now);
    var key := map x | x in k :: Bucket(g, x);
    DistinctKeysBound(k, key, Bucket(g, ref) - (number - 1), number);
  }

  /** The past part of a filter's result lies in the `number` buckets ending at `now`'s. */
  lemma KeptInBucketRange(g: Granularity, ts: set<DateTime>, number: int, now: Now)
    requires AllValid(ts) && now.Valid() && number >= 0
    ensures forall x :: x in NotAfter(Filter(g, ts, number, now).value, now.Reference()) ==>
      x.Valid() && Bucket(g, now.Reference()) - (number - 1) <= Bucket(g, x) <= Bucket(g, now.Reference())
  {
    var ref := now.Reference();
    forall x | x in NotAfter(Filter(g, ts, number, now).value, ref)
      ensures x.Valid() && Bucket(g, ref) - (number - 1) <= Bucket(g, x) <= Bucket(g, ref)
    {
      KeptBucketRange(g, ts, number, ref, x);
    }
  }

  /** No two timestamps a filter keeps at or before `now` share a bucket. */
  lemma KeptBucketsDistinct(g: Granularity, ts: set<DateTime>, number: int, now: Now)
    requires AllValid(ts) && now.Valid() && number >= 0
    ensures forall x, y ::
      (x in NotAfter(Filter(g, ts, number, now).value, now.Reference()) &&
       y in NotAfter(Filter(g, ts, number, now).value, now.Reference()) && Bucket(g, x) == Bucket(g, y)) ==> x == y
  {
    var ref := now.Reference();
    var k := NotAfter(Filter(g, ts, number, now).value, ref);
    forall x, y | x in k && y in k && Bucket(g, x) == Bucket(g, y)
      ensures x == y
    {
      assert OldestInWindow(g, ts, number, ref, x);
      assert OldestInWindow(g, ts, number, ref, y);
      OldestUnique(g, ts, number, ref, x, y);
    }
  }

  /** Two oldest-in-window timestamps in the same bucket are the same timestamp. */
  lemma OldestUnique(g: Granularity, ts: set<DateTime>, number: int, now: DateTime, x: DateTime, y: DateTime)
    requires AllValid(ts) && now.Valid() && x.Valid() && y.Valid()
    requires x in ts && y in ts
    requires OldestInWindow(g, ts, number, now, x) && OldestInWindow(g, ts, number, now, y)
    requires Bucket(g, x) == Bucket(g, y)
    ensures x == y
  {
    SameMaskSameBucket(g, x, y);
    LessEqAntisymmetric(x, y);
  }

  /** Raising the count by one never removes a kept timestamp. */
  lemma FilterCountMonotone(g: Granularity, ts: set<DateTime>, number: int, now: Now)
    requires AllValid(ts) && now.Valid() && number >= 0
    ensures Filter(g, ts, number, now).Success?
    ensures Filter(g, ts, number, now).value <= Filter(g, ts, number + 1, now).value
  {
    var ref := now.Reference();
    forall x | x in ts && OldestInWindow(g, ts, number, ref, x)
      ensures OldestInWindow(g, ts, number + 1, ref, x)
    {
      OldestInWiderWindow(g, ts, number, ref, x);
    }
  }

  /** The oldest of its bucket in a window stays the oldest of its bucket in the next wider window. */
  lemma OldestInWiderWindow(g: Granularity, ts: set<DateTime>, number: int, now: DateTime, x: DateTime)
    requires AllValid(ts) && now.Valid() && x.Valid()
    requires OldestInWindow(g, ts, number, now, x)
    ensures OldestInWindow(g, ts, number + 1, now, x)
  {
    WindowByBucket(g, number, now, x);
    WindowByBucket(g, number + 1, now, x);
    forall o | o in ts && InWindow(g, number + 1, now, o) && Mask(g, o) == Mask(g, x)
      ensures LessEq(x, o)
    {
      WindowByBucket(g, number + 1, now, o);
      SameMaskSameBucket(g, o, x);
      WindowByBucket(g, number, now, o);
    }
  }

  /**
    A timestamp kept from `ts` is still kept when the filter runs on any
    subset of `ts` that contains it.
   */
  lemma FilterSubsetStable(g: Granularity, ts: set<DateTime>, sub: set<DateTime>, number: int, now: Now)
    requires AllValid(ts) && now.Valid() && number >= 0
    requires sub <= ts
    ensures Filter(g, sub, number, now).Success?
    ensures Filter(g, ts, number, now).value * sub <= Filter(g, sub, number, now).value
  {
    var ref := now.Reference();
    forall x | x in sub && x in ts && OldestInWindow(g, ts, number, ref, x)
      ensures OldestInWindow(g, sub, number, ref, x)
    {
    }
  }

  /** On empty input every filter keeps nothing. */
  lemma FilterEmpty(g: Granularity, number: int, now: Now)
    requires now.Valid() && number >= 0
    ensures Filter(g, {}, number, now) == Success({})
  {
    assert Filter(g, {}, number, now).value == {};
  }

  /**
    The week mask is the midnight of the latest day, on or before `dt`, whose
    weekday is `firstweekday` (taken modulo 7).
   */
  lemma WeekMaskIsWeekStart(dt: DateTime, firstweekday: int)
    requires dt.Valid()
    ensures var m := WeekMask(dt, firstweekday);
      && m.IsMidnight()
      && Calendar.Weekday(m.ToDate()) == firstweekday % 7
      && 0 <= Calendar.Ordinal(dt.ToDate()) - Calendar.Ordinal(m.ToDate()) < 7
  {
    var m := WeekMask(dt, firstweekday);
    WeekMaskDay(dt, firstweekday);
    var b := Bucket(Weeks(firstweekday), dt);
    ModPeriodic(firstweekday, b);
  }

  /** When the week starts on `dt`'s own weekday, the week mask is the day mask. */
  lemma WeekMaskOnFirstWeekday(dt: DateTime)
    requires dt.Valid()
    ensures WeekMask(dt, Calendar.Weekday(dt.ToDate())) == Mask(Days, dt)
  {
    var f := Calendar.Weekday(dt.ToDate());
    assert WeekCorrection(dt, f) == 0;
    WeekMaskWithoutCorrection(dt, f);
  }

  /** With no days to go back, the week mask is the midnight of `dt`'s own day. */
  lemma WeekMaskWithoutCorrection(dt: DateTime, f: int)
    requires dt.Valid()
    requires WeekCorrection(dt, f) == 0
    ensures WeekMask(dt, f) == DateTime(dt.year, dt.month, dt.day, 0, 0, 0, 0)
  {
    var m := WeekMask(dt, f);
    var day := DateTime(dt.year, dt.month, dt.day, 0, 0, 0, 0);
    MidnightsEqual(m, day);
  }

  /**
    The dedup mask the source applies is the mask of `g` itself, except for
    weeks not starting on Saturday (taken modulo 7).
   */
  lemma DedupMaskAgrees(g: Granularity, dt: DateTime)
    requires dt.Valid()
    requires !g.Weeks? || g.firstweekday % 7 == Calendar.SATURDAY
    ensures Mask(DedupGranularity(g), dt) == Mask(g, dt)
  {
    if g.Weeks? {
      var f := g.firstweekday;
      var w := Calendar.Weekday(dt.ToDate());
      assert w - f == (w - Calendar.SATURDAY) + 7 * -(f / 7);
      ModPeriodic(w - Calendar.SATURDAY, -(f / 7));
      assert WeekCorrection(dt, f) == WeekCorrection(dt, Calendar.SATURDAY);
      MidnightsEqual(WeekMask(dt, Calendar.SATURDAY), WeekMask(dt, f));
    }
  }

  /**
    Wherever the dedup mask is the filter's own mask, the source's filter and
    the corrected `Filter` return the same result.
   */
  lemma FilterAsWrittenAgrees(g: Granularity, ts: set<DateTime>, number: int, now: Now)
    requires AllValid(ts) && now.Valid()
    requires !g.Weeks? || g.firstweekday % 7 == Calendar.SATURDAY
    ensures FilterAsWritten(g, ts, number, now) == Filter(g, ts, number, now)
  {
    if number >= 0 {
      var ref := now.Reference();
      forall o | o in ts
        ensures Mask(DedupGranularity(g), o) == Mask(g, o)
      {
        DedupMaskAgrees(g, o);
      }
      forall x | x in ts
        ensures OldestInWindowAsWritten(g, ts, number, ref, x) == OldestInWindow(g, ts, number, ref, x)
      {
      }
      assert FilterAsWritten(g, ts, number, now).value == Filter(g, ts, number, now).value;
    }
  }

  /**
    The source's oldest-in-window test is the corrected one when the window is
    empty or the dedup mask is the filter's own.
   */
  lemma OldestAsWrittenAgrees(g: Granularity, ts: set<DateTime>, number: int, now: DateTime, x: DateTime)
    requires AllValid(ts) && now.Valid() && x.Valid()
    requires number <= 0 || !g.Weeks? || g.firstweekday % 7 == Calendar.SATURDAY
    ensures OldestInWindowAsWritten(g, ts, number, now, x) == OldestInWindow(g, ts, number, now, x)
  {
    if number >= 1 {
      DedupMaskAgrees(g, x);
      forall o | o in ts
        ensures Mask(DedupGranularity(g), o) == Mask(g, o)
      {
        DedupMaskAgrees(g, o);
      }
    }
  }

  /** The source's filter keeps at most `number` past timestamps whenever its dedup mask is its own. */
  lemma FilterBoundAsWritten(g: Granularity, ts: set<DateTime>, number: int, now: Now)
    requires AllValid(ts) && now.Valid() && number >= 0
    requires !g.Weeks? || g.firstweekday % 7 == Calendar.SATURDAY
    ensures FilterAsWritten(g, ts, number, now).Success?
    ensures |NotAfter(FilterAsWritten(g, ts, number, now).value, now.Reference())| <= number
  {
    FilterAsWrittenAgrees(g, ts, number, now);
    FilterBound(g, ts, number, now);
  }

  /** The source's filter never drops a timestamp on a larger count whenever its dedup mask is its own. */
  lemma FilterCountMonotoneAsWritten(g: Granularity, ts: set<DateTime>, number: int, now: Now)
    requires AllValid(ts) && now.Valid() && number >= 0
    requires !g.Weeks? || g.firstweekday % 7 == Calendar.SATURDAY
    ensures FilterAsWritten(g, ts, number, now).Success?
    ensures FilterAsWritten(g, ts, number, now).value <= FilterAsWritten(g, ts, number + 1, now).value
  {
    FilterAsWrittenAgrees(g, ts, number, now);
    FilterAsWrittenAgrees(g, ts, number + 1, now);
    FilterCountMonotone(g, ts, number, now);
  }

  /**
    The source's filter, whatever mask it dedups by, keeps a kept timestamp
    when it runs on any subset of its input containing it.
   */
  lemma FilterSubsetStableAsWritten(g: Granularity, ts: set<DateTime>, sub: set<DateTime>, number: int, now: Now)
    requires AllValid(ts) && now.Valid() && number >= 0
    requires sub <= ts
    ensures FilterAsWritten(g, sub, number, now).Success?
    ensures FilterAsWritten(g, ts, number, now).value * sub <= FilterAsWritten(g, sub, number, now).value
  {
    var ref := now.Reference();
    forall x | x in sub && x in ts && OldestInWindowAsWritten(g, ts, number, ref, x)
      ensures OldestInWindowAsWritten(g, sub, number, ref, x)
    {
    }
  }
}
