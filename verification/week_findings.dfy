/**
  The week filter's dedup loop calls the mask without `firstweekday`, so it
  groups the window by Saturday weeks while the window itself is measured in
  `firstweekday` weeks.  The lemmas below run the source's filter
  (`FilterAsWritten`) and the corrected one (`Filter`) with weeks starting on
  Sunday, on three midnights: a Saturday `sat`, the Sunday `sun` after it and
  the Saturday `next` a week after `sat`, with `now` later on `next`'s day.
  The source keeps two timestamps of one Sunday week for a count of 1, and
  drops a kept timestamp when the count grows from 1 to 2; `to_keep` and
  `dates_to_keep` inherit the first.  2000-01-01, 2000-01-02 and 2000-01-08
  form such a layout.
 */
module WeekFindings {
  import opened Results
  import opened Calendar
  import opened DateTimes
  import opened Filters
  import opened Buckets
  import opened Examples
  import FilterProps
  import GrandFatherSon

  /**
    `sat`, `sun` and `next` are midnights on days `7q + 6`, `7q + 7` and
    `7q + 13`: a Saturday, the Sunday after it and the Saturday a week
    later; `now` is on the day of `next`.
   */
  predicate Layout(q: int, sat: DateTime, sun: DateTime, next: DateTime, now: DateTime) {
    && sat.Valid() && sun.Valid() && next.Valid() && now.Valid()
    && sat.IsMidnight() && sun.IsMidnight() && next.IsMidnight()
    && Ordinal(sat.ToDate()) == 7 * q + 6
    && Ordinal(sun.ToDate()) == 7 * q + 7
    && Ordinal(next.ToDate()) == 7 * q + 13
    && now.ToDate() == next.ToDate()
  }

  lemma DivSeven(q: int, r: int)
    requires 0 <= r < 7
    ensures (7 * q + r) / 7 == q
  {
  }

  /**
    Saturday weeks put `sat` and `sun` together and `next` after them;
    Sunday weeks put `sun`, `next` and `now` together and `sat` before them.
   */
  lemma LayoutBuckets(q: int, sat: DateTime, sun: DateTime, next: DateTime, now: DateTime)
    requires Layout(q, sat, sun, next, now)
    ensures Bucket(Weeks(SATURDAY), sat) == q + 1 && Bucket(Weeks(SATURDAY), sun) == q + 1
    ensures Bucket(Weeks(SATURDAY), next) == q + 2
    ensures Bucket(Weeks(SUNDAY), sat) == q && Bucket(Weeks(SUNDAY), sun) == q + 1
    ensures Bucket(Weeks(SUNDAY), next) == q + 1 && Bucket(Weeks(SUNDAY), now) == q + 1
  {
    DivSeven(q + 1, 0);
    DivSeven(q + 1, 1);
    DivSeven(q + 2, 0);
    DivSeven(q, 6);
    DivSeven(q + 1, 6);
  }

  /** Which of the three share a Saturday week and which share a Sunday week. */
  lemma LayoutMasks(q: int, sat: DateTime, sun: DateTime, next: DateTime, now: DateTime)
    requires Layout(q, sat, sun, next, now)
    ensures Mask(Weeks(SATURDAY), sat) == Mask(Weeks(SATURDAY), sun)
    ensures Mask(Weeks(SATURDAY), sun) != Mask(Weeks(SATURDAY), next)
    ensures Mask(Weeks(SUNDAY), sun) == Mask(Weeks(SUNDAY), next)
    ensures Mask(Weeks(SUNDAY), sat) != Mask(Weeks(SUNDAY), sun)
  {
    LayoutBuckets(q, sat, sun, next, now);
    SameMaskSameBucket(Weeks(SATURDAY), sat, sun);
    SameMaskSameBucket(Weeks(SATURDAY), sun, next);
    SameMaskSameBucket(Weeks(SUNDAY), sun, next);
    SameMaskSameBucket(Weeks(SUNDAY), sat, sun);
  }

  /** The three are in chronological order and none is after `now`. */
  lemma LayoutOrder(q: int, sat: DateTime, sun: DateTime, next: DateTime, now: DateTime)
    requires Layout(q, sat, sun, next, now)
    ensures Less(sat, sun) && Less(sun, next)
    ensures LessEq(sat, now) && LessEq(sun, now) && LessEq(next, now)
    ensures !Less(now, sat) && !Less(now, sun) && !Less(now, next)
    ensures sat != sun && sun != next
  {
    OrderByOrdinal(sat, sun);
    OrderByOrdinal(sun, next);
    OrderByOrdinal(sat, now);
    OrderByOrdinal(sun, now);
    OrderByOrdinal(next, now);
  }

  /** One Sunday week ending at `now` holds `sun` and `next` but not `sat`; two Sunday weeks hold all three. */
  lemma LayoutWindows(q: int, sat: DateTime, sun: DateTime, next: DateTime, now: DateTime)
    requires Layout(q, sat, sun, next, now)
    ensures InWindow(Weeks(SUNDAY), 1, now, sun) && InWindow(Weeks(SUNDAY), 1, now, next)
    ensures !InWindow(Weeks(SUNDAY), 1, now, sat)
    ensures InWindow(Weeks(SUNDAY), 2, now, sat) && InWindow(Weeks(SUNDAY), 2, now, sun)
  {
    LayoutBuckets(q, sat, sun, next, now);
    LayoutOrder(q, sat, sun, next, now);
    WindowByBucket(Weeks(SUNDAY), 1, now, sun);
    WindowByBucket(Weeks(SUNDAY), 1, now, next);
    WindowByBucket(Weeks(SUNDAY), 1, now, sat);
    WindowByBucket(Weeks(SUNDAY), 2, now, sat);
    WindowByBucket(Weeks(SUNDAY), 2, now, sun);
  }

  /** A result of the source's filter is pinned down by deciding, for each input, whether it is kept. */
  lemma FilterAsWrittenIs(g: Granularity, ts: set<DateTime>, number: int, now: Now, expected: set<DateTime>)
    requires AllValid(ts) && now.Valid() && number >= 0
    requires expected <= ts
    requires forall x :: x in ts ==>
      (x in expected <==> Less(now.Reference(), x) || OldestInWindowAsWritten(g, ts, number, now.Reference(), x))
    ensures FilterAsWritten(g, ts, number, now) == Success(expected)
  {
    var r := FilterAsWritten(g, ts, number, now);
    assert r.value == expected;
  }

  /**
    Of two inputs, the source keeps `x` when it is in the window and the
    other input `o` is outside it, has another dedup mask, or is not older.
   */
  lemma PairKeptAsWritten(g: Granularity, number: int, now: DateTime, x: DateTime, o: DateTime)
    requires now.Valid() && x.Valid() && o.Valid()
    requires InWindow(g, number, now, x)
    requires !InWindow(g, number, now, o) || Mask(DedupGranularity(g), o) != Mask(DedupGranularity(g), x) || LessEq(x, o)
    ensures OldestInWindowAsWritten(g, {x, o}, number, now, x)
  {
  }

  /** Of two inputs, the source drops `x` when the other, `o`, is older, in the window and of the same dedup mask. */
  lemma PairDroppedAsWritten(g: Granularity, number: int, now: DateTime, x: DateTime, o: DateTime)
    requires now.Valid() && x.Valid() && o.Valid()
    requires InWindow(g, number, now, o) && Mask(DedupGranularity(g), o) == Mask(DedupGranularity(g), x)
    requires Less(o, x)
    ensures !OldestInWindowAsWritten(g, {x, o}, number, now, x)
  {
  }

  /**
    Of two inputs, the corrected filter keeps `x` when it is in the window
    and the other input `o` is outside it, has another mask, or is not older.
   */
  lemma PairKept(g: Granularity, number: int, now: DateTime, x: DateTime, o: DateTime)
    requires now.Valid() && x.Valid() && o.Valid()
    requires InWindow(g, number, now, x)
    requires !InWindow(g, number, now, o) || Mask(g, o) != Mask(g, x) || LessEq(x, o)
    ensures OldestInWindow(g, {x, o}, number, now, x)
  {
  }

  /** Of two inputs, the corrected filter drops `x` when the other, `o`, is older, in the window and of the same mask. */
  lemma PairDropped(g: Granularity, number: int, now: DateTime, x: DateTime, o: DateTime)
    requires now.Valid() && x.Valid() && o.Valid()
    requires InWindow(g, number, now, o) && Mask(g, o) == Mask(g, x)
    requires Less(o, x)
    ensures !OldestInWindow(g, {x, o}, number, now, x)
  {
  }

  /**
    Two past inputs in the window with different dedup masks are both kept
    by the source, whatever their masks under `g` itself.
   */
  lemma BothKeptAsWritten(g: Granularity, number: int, now: DateTime, a: DateTime, b: DateTime)
    requires now.Valid() && a.Valid() && b.Valid() && Less(a, b)
    requires !Less(now, a) && !Less(now, b)
    requires InWindow(g, number, now, a) && InWindow(g, number, now, b)
    requires Mask(DedupGranularity(g), a) != Mask(DedupGranularity(g), b)
    ensures FilterAsWritten(g, {a, b}, number, At(now)) == Success({a, b})
  {
    PairKeptAsWritten(g, number, now, a, b);
    PairKeptAsWritten(g, number, now, b, a);
    assert {b, a} == {a, b};
    FilterAsWrittenIs(g, {a, b}, number, At(now), {a, b});
  }

  /** Of two past inputs in the window with one dedup mask, the source keeps only the older. */
  lemma OlderKeptAsWritten(g: Granularity, number: int, now: DateTime, a: DateTime, b: DateTime)
    requires now.Valid() && a.Valid() && b.Valid() && Less(a, b)
    requires !Less(now, a) && !Less(now, b)
    requires InWindow(g, number, now, a) && InWindow(g, number, now, b)
    requires Mask(DedupGranularity(g), a) == Mask(DedupGranularity(g), b)
    ensures FilterAsWritten(g, {a, b}, number, At(now)) == Success({a})
  {
    PairKeptAsWritten(g, number, now, a, b);
    PairDroppedAsWritten(g, number, now, b, a);
    assert {b, a} == {a, b};
    FilterAsWrittenIs(g, {a, b}, number, At(now), {a});
  }

  /** Of two past inputs, the source keeps only the later when the older is outside the window. */
  lemma LaterKeptAsWritten(g: Granularity, number: int, now: DateTime, a: DateTime, b: DateTime)
    requires now.Valid() && a.Valid() && b.Valid()
    requires !Less(now, a) && !Less(now, b)
    requires !InWindow(g, number, now, a) && InWindow(g, number, now, b)
    ensures FilterAsWritten(g, {a, b}, number, At(now)) == Success({b})
  {
    PairKeptAsWritten(g, number, now, b, a);
    assert {b, a} == {a, b};
    FilterAsWrittenIs(g, {a, b}, number, At(now), {b});
  }

  /** Two past inputs in the window with different masks are both kept by the corrected filter. */
  lemma BothKept(g: Granularity, number: int, now: DateTime, a: DateTime, b: DateTime)
    requires now.Valid() && a.Valid() && b.Valid() && Less(a, b)
    requires !Less(now, a) && !Less(now, b)
    requires InWindow(g, number, now, a) && InWindow(g, number, now, b)
    requires Mask(g, a) != Mask(g, b)
    ensures Filter(g, {a, b}, number, At(now)) == Success({a, b})
  {
    PairKept(g, number, now, a, b);
    PairKept(g, number, now, b, a);
    assert {b, a} == {a, b};
    FilterIs(g, {a, b}, number, At(now), {a, b});
  }

  /** Of two past inputs in the window with one mask, the corrected filter keeps only the older. */
  lemma OlderKept(g: Granularity, number: int, now: DateTime, a: DateTime, b: DateTime)
    requires now.Valid() && a.Valid() && b.Valid() && Less(a, b)
    requires !Less(now, a) && !Less(now, b)
    requires InWindow(g, number, now, a) && InWindow(g, number, now, b)
    requires Mask(g, a) == Mask(g, b)
    ensures Filter(g, {a, b}, number, At(now)) == Success({a})
  {
    PairKept(g, number, now, a, b);
    PairDropped(g, number, now, b, a);
    assert {b, a} == {a, b};
    FilterIs(g, {a, b}, number, At(now), {a});
  }

  /** Two distinct timestamps not after `now` are two past timestamps. */
  lemma PastPair(now: DateTime, a: DateTime, b: DateTime)
    requires !Less(now, a) && !Less(now, b) && a != b
    ensures |FilterProps.NotAfter({a, b}, now)| == 2
  {
    assert FilterProps.NotAfter({a, b}, now) == {a, b};
  }

  /**
    With one Sunday week, the source keeps both `sun` and `next` although
    they share a Sunday week: two past timestamps kept for a count of 1.
   */
  lemma KeepsTwoInOneWeek(q: int, sat: DateTime, sun: DateTime, next: DateTime, now: DateTime)
    requires Layout(q, sat, sun, next, now)
    ensures Mask(Weeks(SUNDAY), sun) == Mask(Weeks(SUNDAY), next) && sun != next
    ensures FilterAsWritten(Weeks(SUNDAY), {sun, next}, 1, At(now)) == Success({sun, next})
    ensures |FilterProps.NotAfter({sun, next}, now)| == 2
  {
    LayoutOrder(q, sat, sun, next, now);
    LayoutMasks(q, sat, sun, next, now);
    LayoutWindows(q, sat, sun, next, now);
    BothKeptAsWritten(Weeks(SUNDAY), 1, now, sun, next);
    PastPair(now, sun, next);
  }

  /** The corrected filter keeps only `sun`, the older of the two in their Sunday week. */
  lemma KeepsOneInOneWeek(q: int, sat: DateTime, sun: DateTime, next: DateTime, now: DateTime)
    requires Layout(q, sat, sun, next, now)
    ensures Filter(Weeks(SUNDAY), {sun, next}, 1, At(now)) == Success({sun})
  {
    LayoutOrder(q, sat, sun, next, now);
    LayoutMasks(q, sat, sun, next, now);
    LayoutWindows(q, sat, sun, next, now);
    OlderKept(Weeks(SUNDAY), 1, now, sun, next);
  }

  /** With one Sunday week the source keeps `sun`: `sat` is outside the window. */
  lemma KeepsSunInOneWeek(q: int, sat: DateTime, sun: DateTime, next: DateTime, now: DateTime)
    requires Layout(q, sat, sun, next, now)
    ensures FilterAsWritten(Weeks(SUNDAY), {sat, sun}, 1, At(now)) == Success({sun})
  {
    LayoutOrder(q, sat, sun, next, now);
    LayoutWindows(q, sat, sun, next, now);
    LaterKeptAsWritten(Weeks(SUNDAY), 1, now, sat, sun);
  }

  /** With two Sunday weeks the source keeps only `sat`, which shares its Saturday week with `sun`. */
  lemma KeepsSatInTwoWeeks(q: int, sat: DateTime, sun: DateTime, next: DateTime, now: DateTime)
    requires Layout(q, sat, sun, next, now)
    ensures FilterAsWritten(Weeks(SUNDAY), {sat, sun}, 2, At(now)) == Success({sat})
  {
    LayoutOrder(q, sat, sun, next, now);
    LayoutMasks(q, sat, sun, next, now);
    LayoutWindows(q, sat, sun, next, now);
    OlderKeptAsWritten(Weeks(SUNDAY), 2, now, sat, sun);
  }

  /**
    Raising the count of Sunday weeks from 1 to 2 makes the source drop
    `sun`, which it kept for a count of 1.
   */
  lemma DropsOnWiderWindow(q: int, sat: DateTime, sun: DateTime, next: DateTime, now: DateTime)
    requires Layout(q, sat, sun, next, now)
    ensures sun in FilterAsWritten(Weeks(SUNDAY), {sat, sun}, 1, At(now)).value
    ensures sun !in FilterAsWritten(Weeks(SUNDAY), {sat, sun}, 2, At(now)).value
  {
    KeepsSunInOneWeek(q, sat, sun, next, now);
    KeepsSatInTwoWeeks(q, sat, sun, next, now);
    LayoutOrder(q, sat, sun, next, now);
  }

  /** The corrected filter keeps both `sat` and `sun` for two Sunday weeks, one per week. */
  lemma KeepsBothInTwoWeeks(q: int, sat: DateTime, sun: DateTime, next: DateTime, now: DateTime)
    requires Layout(q, sat, sun, next, now)
    ensures Filter(Weeks(SUNDAY), {sat, sun}, 2, At(now)) == Success({sat, sun})
  {
    LayoutOrder(q, sat, sun, next, now);
    LayoutMasks(q, sat, sun, next, now);
    LayoutWindows(q, sat, sun, next, now);
    BothKept(Weeks(SUNDAY), 2, now, sat, sun);
  }

  /**
    With only a week count of 1, the source's `to_keep` is its week filter:
    the other six filters keep nothing but the future.
   */
  lemma OnlyWeeksKeep(ts: set<DateTime>, f: int, now: Now)
    requires AllValid(ts) && now.Valid()
    ensures GrandFatherSon.ToKeepAsWritten(ts, GrandFatherSon.Counts(0, 0, 1, 0, 0, 0, 0), f, now)
      == FilterAsWritten(Weeks(f), ts, 1, now)
  {
    var c := GrandFatherSon.Counts(0, 0, 1, 0, 0, 0, 0);
    var r := GrandFatherSon.ToKeepAsWritten(ts, c, f, now);
    var w := FilterAsWritten(Weeks(f), ts, 1, now);
    forall x | x in ts
      ensures GrandFatherSon.KeptBySomeAsWritten(ts, c, f, now.Reference(), x)
        == OldestInWindowAsWritten(Weeks(f), ts, 1, now.Reference(), x)
    {
    }
    assert r.value == w.value;
  }

  /** The source's `to_keep` with only a week count of 1 returns what its week filter returns. */
  lemma OnlyWeeksKeepResult(ts: set<DateTime>, f: int, now: Now, expected: set<DateTime>)
    requires AllValid(ts) && now.Valid()
    requires FilterAsWritten(Weeks(f), ts, 1, now) == Success(expected)
    ensures GrandFatherSon.ToKeepAsWritten(ts, GrandFatherSon.Counts(0, 0, 1, 0, 0, 0, 0), f, now) == Success(expected)
  {
    OnlyWeeksKeep(ts, f, now);
  }

  /** With only a week count of 1, the corrected `to_keep` is the corrected week filter. */
  lemma OnlyWeeksKeepCorrected(ts: set<DateTime>, f: int, now: Now)
    requires AllValid(ts) && now.Valid()
    ensures GrandFatherSon.ToKeep(ts, GrandFatherSon.Counts(0, 0, 1, 0, 0, 0, 0), f, now)
      == Filter(Weeks(f), ts, 1, now)
  {
    var c := GrandFatherSon.Counts(0, 0, 1, 0, 0, 0, 0);
    var r := GrandFatherSon.ToKeep(ts, c, f, now);
    var w := Filter(Weeks(f), ts, 1, now);
    forall x | x in ts
      ensures GrandFatherSon.KeptBySome(ts, c, f, now.Reference(), x)
        == OldestInWindow(Weeks(f), ts, 1, now.Reference(), x)
    {
      var ref := now.Reference();
      assert !InWindow(Years, 0, ref, x) && !InWindow(Months, 0, ref, x) && !InWindow(Days, 0, ref, x);
      assert !InWindow(Hours, 0, ref, x) && !InWindow(Minutes, 0, ref, x) && !InWindow(Seconds, 0, ref, x);
    }
    assert r.value == w.value;
  }

  /** The corrected `to_keep` with only a week count of 1 returns what the corrected week filter returns. */
  lemma OnlyWeeksKeepCorrectedResult(ts: set<DateTime>, f: int, now: Now, expected: set<DateTime>)
    requires AllValid(ts) && now.Valid()
    requires Filter(Weeks(f), ts, 1, now) == Success(expected)
    ensures GrandFatherSon.ToKeep(ts, GrandFatherSon.Counts(0, 0, 1, 0, 0, 0, 0), f, now) == Success(expected)
  {
    OnlyWeeksKeepCorrected(ts, f, now);
  }

  /** 2000-01-01, a Saturday. */
  const JAN_1: DateTime := DateTime(2000, 1, 1, 0, 0, 0, 0)
  /** 2000-01-02, the Sunday after it. */
  const JAN_2: DateTime := DateTime(2000, 1, 2, 0, 0, 0, 0)
  /** 2000-01-08, the next Saturday. */
  const JAN_8: DateTime := DateTime(2000, 1, 8, 0, 0, 0, 0)
  /** Noon on 2000-01-08, the reference instant. */
  const NOON: DateTime := DateTime(2000, 1, 8, 12, 0, 0, 0)

  /** 1, 2 and 8 January 2000, with noon on the 8th as `now`, form a layout. */
  lemma JanuaryLayout()
    ensures Layout(104302, JAN_1, JAN_2, JAN_8, NOON)
  {
  }

  /**
    `Weeks.filter([2000-01-02, 2000-01-08], 1, firstweekday=SUNDAY)` at noon
    on the 8th: the source keeps both days of that Sunday week; the corrected
    filter keeps the 2nd alone.
   */
  lemma JanuaryOneWeek()
    ensures FilterAsWritten(Weeks(SUNDAY), {JAN_2, JAN_8}, 1, At(NOON)) == Success({JAN_2, JAN_8})
    ensures Filter(Weeks(SUNDAY), {JAN_2, JAN_8}, 1, At(NOON)) == Success({JAN_2})
  {
    JanuaryLayout();
    KeepsTwoInOneWeek(104302, JAN_1, JAN_2, JAN_8, NOON);
    KeepsOneInOneWeek(104302, JAN_1, JAN_2, JAN_8, NOON);
  }

  /**
    `Weeks.filter([2000-01-01, 2000-01-02], n, firstweekday=SUNDAY)` at noon
    on the 8th: the source keeps the 2nd for `n = 1` and drops it for
    `n = 2`; the corrected filter keeps both days for `n = 2`.
   */
  lemma JanuaryWiderWindow()
    ensures FilterAsWritten(Weeks(SUNDAY), {JAN_1, JAN_2}, 1, At(NOON)) == Success({JAN_2})
    ensures FilterAsWritten(Weeks(SUNDAY), {JAN_1, JAN_2}, 2, At(NOON)) == Success({JAN_1})
    ensures Filter(Weeks(SUNDAY), {JAN_1, JAN_2}, 2, At(NOON)) == Success({JAN_1, JAN_2})
  {
    JanuaryLayout();
    KeepsSunInOneWeek(104302, JAN_1, JAN_2, JAN_8, NOON);
    KeepsSatInTwoWeeks(104302, JAN_1, JAN_2, JAN_8, NOON);
    KeepsBothInTwoWeeks(104302, JAN_1, JAN_2, JAN_8, NOON);
  }

  /**
    `to_keep([2000-01-02, 2000-01-08], weeks=1, firstweekday=SUNDAY)` at noon
    on the 8th keeps both days in the source: two past timestamps for counts
    summing to 1.
   */
  lemma JanuaryToKeep()
    ensures GrandFatherSon.ToKeepAsWritten({JAN_2, JAN_8}, GrandFatherSon.Counts(0, 0, 1, 0, 0, 0, 0), SUNDAY, At(NOON))
      == Success({JAN_2, JAN_8})
    ensures GrandFatherSon.Total(GrandFatherSon.Counts(0, 0, 1, 0, 0, 0, 0)) == 1
    ensures |FilterProps.NotAfter({JAN_2, JAN_8}, NOON)| == 2
  {
    JanuaryOneWeek();
    OnlyWeeksKeepResult({JAN_2, JAN_8}, SUNDAY, At(NOON), {JAN_2, JAN_8});
    JanuaryLayout();
    LayoutOrder(104302, JAN_1, JAN_2, JAN_8, NOON);
    PastPair(NOON, JAN_2, JAN_8);
  }

  /** The source's `dates_to_keep` reads back the dates of what its `to_keep` keeps of the midnights. */
  lemma DatesFromKeptAsWritten(d1: Date, d2: Date, f: int, now: Now, kept: set<DateTime>, expected: set<Date>)
    requires d1.Valid() && d2.Valid() && now.Valid()
    requires GrandFatherSon.ToKeepAsWritten(GrandFatherSon.Midnights({d1, d2}), GrandFatherSon.Counts(0, 0, 1, 0, 0, 0, 0), f, now) == Success(kept)
    requires (set dt | dt in kept :: dt.ToDate()) == expected
    ensures GrandFatherSon.DatesToKeepAsWritten({d1, d2}, 0, 0, 1, 0, f, now) == Success(expected)
  {
  }

  /** The corrected `DatesToKeep` reads back the dates of what `ToKeep` keeps of the midnights. */
  lemma DatesFromKept(d1: Date, d2: Date, f: int, now: Now, kept: set<DateTime>, expected: set<Date>)
    requires d1.Valid() && d2.Valid() && now.Valid()
    requires GrandFatherSon.ToKeep(GrandFatherSon.Midnights({d1, d2}), GrandFatherSon.Counts(0, 0, 1, 0, 0, 0, 0), f, now) == Success(kept)
    requires (set dt | dt in kept :: dt.ToDate()) == expected
    ensures GrandFatherSon.DatesToKeep({d1, d2}, 0, 0, 1, 0, f, now) == Success(expected)
  {
  }

  /** Reading back the dates of midnights gives the dates. */
  lemma MidnightDates(d1: Date, d2: Date)
    requires d1.Valid() && d2.Valid()
    ensures (set dt | dt in {AtMidnight(d1), AtMidnight(d2)} :: dt.ToDate()) == {d1, d2}
    ensures (set dt | dt in {AtMidnight(d1)} :: dt.ToDate()) == {d1}
  {
    assert AtMidnight(d1).ToDate() == d1 && AtMidnight(d2).ToDate() == d2;
  }

  /** When the source's `to_keep` keeps both midnights of two dates, its `dates_to_keep` keeps both dates. */
  lemma DatesKeepBothAsWritten(d1: Date, d2: Date, f: int, now: Now)
    requires d1.Valid() && d2.Valid() && now.Valid()
    requires GrandFatherSon.ToKeepAsWritten(GrandFatherSon.Midnights({d1, d2}), GrandFatherSon.Counts(0, 0, 1, 0, 0, 0, 0), f, now)
      == Success({AtMidnight(d1), AtMidnight(d2)})
    ensures GrandFatherSon.DatesToKeepAsWritten({d1, d2}, 0, 0, 1, 0, f, now) == Success({d1, d2})
  {
    MidnightDates(d1, d2);
    DatesFromKeptAsWritten(d1, d2, f, now, {AtMidnight(d1), AtMidnight(d2)}, {d1, d2});
  }

  /** When the corrected `to_keep` keeps only the first of two midnights, `DatesToKeep` keeps only its date. */
  lemma DatesKeepFirst(d1: Date, d2: Date, f: int, now: Now)
    requires d1.Valid() && d2.Valid() && now.Valid()
    requires GrandFatherSon.ToKeep(GrandFatherSon.Midnights({d1, d2}), GrandFatherSon.Counts(0, 0, 1, 0, 0, 0, 0), f, now)
      == Success({AtMidnight(d1)})
    ensures GrandFatherSon.DatesToKeep({d1, d2}, 0, 0, 1, 0, f, now) == Success({d1})
  {
    MidnightDates(d1, d2);
    DatesFromKept(d1, d2, f, now, {AtMidnight(d1)}, {d1});
  }

  /** The dates of `sun` and `next` are valid, and their midnights are `sun` and `next` again. */
  lemma LayoutMidnights(q: int, sat: DateTime, sun: DateTime, next: DateTime, now: DateTime)
    requires Layout(q, sat, sun, next, now)
    ensures sun.ToDate().Valid() && next.ToDate().Valid()
    ensures AtMidnight(sun.ToDate()) == sun && AtMidnight(next.ToDate()) == next
    ensures GrandFatherSon.Midnights({sun.ToDate(), next.ToDate()}) == {sun, next}
  {
  }

  /** With only a week count of 1, the source's `to_keep` keeps both midnights `sun` and `next`. */
  lemma MidnightsKeepTwoInOneWeek(q: int, sat: DateTime, sun: DateTime, next: DateTime, now: DateTime)
    requires Layout(q, sat, sun, next, now)
    ensures sun.ToDate().Valid() && next.ToDate().Valid()
    ensures GrandFatherSon.ToKeepAsWritten(GrandFatherSon.Midnights({sun.ToDate(), next.ToDate()}),
                                           GrandFatherSon.Counts(0, 0, 1, 0, 0, 0, 0), SUNDAY, At(now))
      == Success({AtMidnight(sun.ToDate()), AtMidnight(next.ToDate())})
  {
    LayoutMidnights(q, sat, sun, next, now);
    KeepsTwoInOneWeek(q, sat, sun, next, now);
    OnlyWeeksKeepResult({sun, next}, SUNDAY, At(now), {sun, next});
  }

  /** With only a week count of 1, the corrected `to_keep` keeps only the midnight `sun`. */
  lemma MidnightsKeepOneInOneWeek(q: int, sat: DateTime, sun: DateTime, next: DateTime, now: DateTime)
    requires Layout(q, sat, sun, next, now)
    ensures sun.ToDate().Valid() && next.ToDate().Valid()
    ensures GrandFatherSon.ToKeep(GrandFatherSon.Midnights({sun.ToDate(), next.ToDate()}),
                                  GrandFatherSon.Counts(0, 0, 1, 0, 0, 0, 0), SUNDAY, At(now))
      == Success({AtMidnight(sun.ToDate())})
  {
    LayoutMidnights(q, sat, sun, next, now);
    KeepsOneInOneWeek(q, sat, sun, next, now);
    OnlyWeeksKeepCorrectedResult({sun, next}, SUNDAY, At(now), {sun});
  }

  /**
    `dates_to_keep` inherits the week finding: with weeks starting on Sunday
    and a week count of 1, the source keeps the dates of both `sun` and
    `next`, two days of one Sunday week.
   */
  lemma DatesKeepTwoInOneWeek(q: int, sat: DateTime, sun: DateTime, next: DateTime, now: DateTime)
    requires Layout(q, sat, sun, next, now)
    ensures GrandFatherSon.DatesToKeepAsWritten({sun.ToDate(), next.ToDate()}, 0, 0, 1, 0, SUNDAY, At(now))
      == Success({sun.ToDate(), next.ToDate()})
  {
    MidnightsKeepTwoInOneWeek(q, sat, sun, next, now);
    DatesKeepBothAsWritten(sun.ToDate(), next.ToDate(), SUNDAY, At(now));
  }

  /** The corrected `DatesToKeep` keeps only the date of `sun`. */
  lemma DatesKeepOneInOneWeek(q: int, sat: DateTime, sun: DateTime, next: DateTime, now: DateTime)
    requires Layout(q, sat, sun, next, now)
    ensures GrandFatherSon.DatesToKeep({sun.ToDate(), next.ToDate()}, 0, 0, 1, 0, SUNDAY, At(now))
      == Success({sun.ToDate()})
  {
    MidnightsKeepOneInOneWeek(q, sat, sun, next, now);
    DatesKeepFirst(sun.ToDate(), next.ToDate(), SUNDAY, At(now));
  }

  /** The dates 2000-01-02 and 2000-01-08. */
  const DAY_2: Date := Date(2000, 1, 2)
  const DAY_8: Date := Date(2000, 1, 8)

  /**
    The source's `dates_to_keep` keeps both 2000-01-02 and 2000-01-08 for a
    week count of 1 with weeks starting on Sunday; the corrected variant
    keeps only 2000-01-02.
   */
  lemma JanuaryDates()
    ensures GrandFatherSon.DatesToKeepAsWritten({DAY_2, DAY_8}, 0, 0, 1, 0, SUNDAY, At(NOON)) == Success({DAY_2, DAY_8})
    ensures GrandFatherSon.DatesToKeep({DAY_2, DAY_8}, 0, 0, 1, 0, SUNDAY, At(NOON)) == Success({DAY_2})
  {
    JanuaryLayout();
    assert JAN_2.ToDate() == DAY_2 && JAN_8.ToDate() == DAY_8;
    DatesKeepTwoInOneWeek(104302, JAN_1, JAN_2, JAN_8, NOON);
    DatesKeepOneInOneWeek(104302, JAN_1, JAN_2, JAN_8, NOON);
  }
}
