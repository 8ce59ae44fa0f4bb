/**
  The per-granularity retention filters.  Each granularity has a bucket mask
  (the first instant of the bucket a timestamp falls in) and a window start
  (`number - 1` buckets before the bucket of `now`); a filter keeps every
  timestamp after `now` and, inside the window, the oldest timestamp of each
  bucket.
 */
module Filters {
  import opened Results
  import opened Calendar
  import opened DateTimes

  const MONTHS_IN_YEAR: int := 12

  /** The seven filter classes; the week filter carries its `firstweekday` option. */
  datatype Granularity =
    | Seconds
    | Minutes
    | Hours
    | Days
    | Weeks(firstweekday: int)
    | Months
    | Years

  /** The `ValueError` raised for a negative `number`. */
  datatype FilterError = InvalidNumber(number: int)

  /**
    The reference instant as the caller gives it: a full timestamp, or a plain
    date, which stands for the last microsecond of that day.
   */
  datatype Now = At(instant: DateTime) | OnDate(date: Date) {
    predicate Valid() {
      match this
      case At(i) => i.Valid()
      case OnDate(d) => d.Valid()
    }

    function Reference(): (r: DateTime)
      requires Valid()
      ensures r.Valid()
    {
      match this
      case At(i) => i
      case OnDate(d) => AtEndOfDay(d)
    }
  }

  /** Length of one bucket, in seconds, for the fixed-length granularities below a week. */
  function UnitSeconds(g: Granularity): int
    requires g.Seconds? || g.Minutes? || g.Hours? || g.Days?
  {
    match g
    case Seconds => 1
    case Minutes => SECONDS_PER_MINUTE
    case Hours => SECONDS_PER_HOUR
    case Days => SECONDS_PER_DAY
  }

  /** Days to go back from `dt` to reach the most recent `firstweekday`. */
  function WeekCorrection(dt: DateTime, firstweekday: int): (c: int)
    requires dt.Valid()
    ensures 0 <= c < DAYS_IN_WEEK
  {
    (Weekday(dt.ToDate()) - firstweekday) % DAYS_IN_WEEK
  }

  /**
    `Weeks.mask`: go back `WeekCorrection` whole days, then drop the time of day.
    The result is the midnight that many days before `dt`.
   */
  function WeekMask(dt: DateTime, firstweekday: int): (m: DateTime)
    requires dt.Valid()
    ensures m.Valid() && m.IsMidnight()
    ensures Ordinal(m.ToDate()) == Ordinal(dt.ToDate()) - WeekCorrection(dt, firstweekday)
    ensures LessEq(m, dt)
  {
    var c := WeekCorrection(dt, firstweekday);
    var week := Minus(dt, c * SECONDS_PER_DAY);
    var m := DateTime(week.year, week.month, week.day, 0, 0, 0, 0);
    assert (Ordinal(dt.ToDate()) - c) * SECONDS_PER_DAY
      == Ordinal(dt.ToDate()) * SECONDS_PER_DAY - c * SECONDS_PER_DAY;
    Decompose(Ordinal(week.ToDate()), TimeOfDay(week), Ordinal(dt.ToDate()) - c, TimeOfDay(dt), SECONDS_PER_DAY);
    OrderByOrdinal(m, dt);
    m
  }

  /**
    The bucket mask: `dt` truncated to the resolution of `g`.  It is never later
    than `dt`.
   */
  function Mask(g: Granularity, dt: DateTime): (m: DateTime)
    requires dt.Valid()
    ensures m.Valid()
    ensures LessEq(m, dt)
  {
    match g
    case Seconds => DateTime(dt.year, dt.month, dt.day, dt.hour, dt.minute, dt.second, 0)
    case Minutes => DateTime(dt.year, dt.month, dt.day, dt.hour, dt.minute, 0, 0)
    case Hours => DateTime(dt.year, dt.month, dt.day, dt.hour, 0, 0, 0)
    case Days => DateTime(dt.year, dt.month, dt.day, 0, 0, 0, 0)
    case Weeks(f) => WeekMask(dt, f)
    case Months => DateTime(dt.year, dt.month, 1, 0, 0, 0, 0)
    case Years => DateTime(dt.year, 1, 1, 0, 0, 0, 0)
  }

  /**
    `Months.start`: the year and month `number - 1` months before `now`'s month,
    computed with the source's borrow steps (floor division for a negative
    month, then December for month 0), placed on the month mask of `now`.
   */
  function MonthsStart(now: DateTime, number: int): (r: DateTime)
    requires now.Valid()
    requires number >= 1
    ensures r.Valid()
    ensures 1 <= r.month <= MONTHS_IN_YEAR && r.day == 1 && r.IsMidnight()
    ensures r.year * MONTHS_IN_YEAR + r.month - 1 == now.year * MONTHS_IN_YEAR + now.month - 1 - (number - 1)
  {
    var month0 := now.month - number + 1;
    var (year1, month1) :=
      if month0 < 0 then (now.year + month0 / MONTHS_IN_YEAR, month0 % MONTHS_IN_YEAR)
      else (now.year, month0);
    var (year2, month2) := if month1 == 0 then (year1 - 1, 12) else (year1, month1);
    var m := Mask(Months, now);
    DateTime(year2, month2, m.day, m.hour, m.minute, m.second, m.microsecond)
  }

  /** The first instant of the retention window for `number` buckets ending at `now`. */
  function Start(g: Granularity, now: DateTime, number: int): (r: DateTime)
    requires now.Valid()
    requires number >= 1
    ensures r.Valid()
  {
    match g
    case Weeks(f) => Minus(Mask(g, now), (number - 1) * DAYS_IN_WEEK * SECONDS_PER_DAY)
    case Months => MonthsStart(now, number)
    case Years =>
      var m := Mask(Years, now);
      DateTime(now.year - number + 1, m.month, m.day, m.hour, m.minute, m.second, m.microsecond)
    case _ => Minus(Mask(g, now), (number - 1) * UnitSeconds(g))
  }

  /** `start <= x <= now` for the window of `number >= 1` buckets. */
  predicate InWindow(g: Granularity, number: int, now: DateTime, x: DateTime)
    requires now.Valid()
  {
    number >= 1 && LessEq(Start(g, now, number), x) && LessEq(x, now)
  }

  /** `x` is in the window and no timestamp of `ts` in the window with the same mask is older. */
  predicate OldestInWindow(g: Granularity, ts: set<DateTime>, number: int, now: DateTime, x: DateTime)
    requires now.Valid() && x.Valid() && AllValid(ts)
  {
    && InWindow(g, number, now, x)
    && forall o :: o in ts && InWindow(g, number, now, o) && Mask(g, o) == Mask(g, x) ==> LessEq(x, o)
  }

  /** The oldest element of a non-empty set of timestamps. */
  ghost function Earliest(s: set<DateTime>): (m: DateTime)
    requires s != {}
    ensures m in s
    ensures forall x :: x in s ==> LessEq(m, x)
    decreases |s|
  {
    var x :| x in s;
    if s == {x} then x
    else
      var rest := Earliest(s - {x});
      LessEqTotal(x, rest);
      LessEqTransitiveAll(x, rest);
      if Less(x, rest) then x else rest
  }

  /** The masks of the timestamps in `valid`. */
  function Masks(g: Granularity, valid: set<DateTime>): set<DateTime>
    requires AllValid(valid)
  {
    set dt | dt in valid :: Mask(g, dt)
  }

  /**
    The `kept` dictionary of `Filter.filter`: each mask value of `valid` mapped to
    the oldest timestamp of `valid` carrying it.
   */
  ghost function KeptByMask(g: Granularity, valid: set<DateTime>): (kept: map<DateTime, DateTime>)
    requires AllValid(valid)
    ensures kept.Keys == Masks(g, valid)
    ensures forall k :: k in kept ==> kept[k] in valid && Mask(g, kept[k]) == k
    ensures forall k, o :: k in kept && o in valid && Mask(g, o) == k ==> LessEq(kept[k], o)
  {
    map k | k in Masks(g, valid) :: WithMaskNonEmpty(g, valid, k); Earliest(WithMask(g, valid, k))
  }

  /** The timestamps of `valid` whose mask is `k`. */
  function WithMask(g: Granularity, valid: set<DateTime>, k: DateTime): set<DateTime>
    requires AllValid(valid)
  {
    set dt | dt in valid && Mask(g, dt) == k
  }

  lemma WithMaskNonEmpty(g: Granularity, valid: set<DateTime>, k: DateTime)
    requires AllValid(valid)
    requires k in Masks(g, valid)
    ensures WithMask(g, valid, k) != {}
  {
    var w :| w in valid && Mask(g, w) == k;
    assert w in WithMask(g, valid, k);
  }

  /** A timestamp is a value of `kept` exactly when it is the oldest of `valid` with its mask. */
  lemma KeptValues(g: Granularity, valid: set<DateTime>)
    requires AllValid(valid)
    ensures forall x :: x in KeptByMask(g, valid).Values <==>
      x in valid && forall o :: o in valid && Mask(g, o) == Mask(g, x) ==> LessEq(x, o)
  {
    KeptValuesSound(g, valid);
    KeptValuesComplete(g, valid);
  }

  /**
    The kept values of the timestamps of `ts` inside the window of `g` are
    the window members that are the oldest of their `d` mask there.
   */
  lemma KeptInWindow(g: Granularity, d: Granularity, ts: set<DateTime>, number: int, now: DateTime)
    requires AllValid(ts) && now.Valid() && number >= 1
    ensures forall x :: x in KeptByMask(d, set dt | dt in ts && LessEq(Start(g, now, number), dt) && LessEq(dt, now)).Values <==>
      x in ts && InWindow(g, number, now, x)
      && forall o :: o in ts && InWindow(g, number, now, o) && Mask(d, o) == Mask(d, x) ==> LessEq(x, o)
  {
    KeptValues(d, set dt | dt in ts && LessEq(Start(g, now, number), dt) && LessEq(dt, now));
  }

  lemma KeptValuesSound(g: Granularity, valid: set<DateTime>)
    requires AllValid(valid)
    ensures forall x :: x in KeptByMask(g, valid).Values ==>
      x in valid && forall o :: o in valid && Mask(g, o) == Mask(g, x) ==> LessEq(x, o)
  {
    var kept := KeptByMask(g, valid);
    forall x | x in kept.Values
      ensures x in valid && forall o :: o in valid && Mask(g, o) == Mask(g, x) ==> LessEq(x, o)
    {
      var k :| k in kept && kept[k] == x;
    }
  }

  lemma KeptValuesComplete(g: Granularity, valid: set<DateTime>)
    requires AllValid(valid)
    ensures forall x :: x in valid && (forall o :: o in valid && Mask(g, o) == Mask(g, x) ==> LessEq(x, o)) ==>
      x in KeptByMask(g, valid).Values
  {
    var kept := KeptByMask(g, valid);
    forall x | x in valid && (forall o :: o in valid && Mask(g, o) == Mask(g, x) ==> LessEq(x, o))
      ensures x in kept.Values
    {
      var k := Mask(g, x);
      assert k in Masks(g, valid);
      LessEqAntisymmetric(kept[k], x);
    }
  }

  /**
    `Filter.filter` with the deduplication the documentation describes: fails
    on a negative `number`; otherwise keeps every timestamp after `now` and,
    for `number >= 1`, the oldest timestamp of each bucket of `g` inside the
    inclusive window `[start, now]`.  Window and buckets are the same weeks
    here; `FilterAsWritten` is the source's variant, which dedups weeks by
    the Saturday default.
   */
  ghost function Filter(g: Granularity, ts: set<DateTime>, number: int, now: Now)
    : (r: Result<set<DateTime>, FilterError>)
    requires AllValid(ts) && now.Valid()
    ensures r.Failure? <==> number < 0
    ensures r.Failure? ==> r.error == InvalidNumber(number)
    ensures r.Success? ==> r.value <= ts
    ensures r.Success? ==> forall x :: x in ts && Less(now.Reference(), x) ==> x in r.value
    ensures number == 0 ==> r == Success(set x | x in ts && Less(now.Reference(), x))
    ensures r.Success? ==> forall x :: x in r.value && !Less(now.Reference(), x) ==>
      LessEq(Start(g, now.Reference(), number), x) && LessEq(x, now.Reference())
    ensures r.Success? ==> forall x :: x in r.value <==>
      x in ts && (Less(now.Reference(), x) || OldestInWindow(g, ts, number, now.Reference(), x))
  {
    if number < 0 then Failure(InvalidNumber(number))
    else
      var ref := now.Reference();
      var future := set dt | dt in ts && Less(ref, dt);
      if number == 0 then Success(future)
      else
        var start := Start(g, ref, number);
        var valid := set dt | dt in ts && LessEq(start, dt) && LessEq(dt, ref);
        KeptInWindow(g, g, ts, number, ref);
        Success(KeptByMask(g, valid).Values + future)
  }

  /**
    The granularity whose mask the source's dedup loop applies.  `filter`
    calls `cls.mask(dt)` without passing its options on, so the week filter
    groups its window by weeks starting on the default Saturday, whatever
    `firstweekday` its window start was computed with.
   */
  function DedupGranularity(g: Granularity): (r: Granularity)
    ensures r.Weeks? <==> g.Weeks?
    ensures g.Weeks? ==> r == Weeks(SATURDAY)
    ensures !g.Weeks? ==> r == g
  {
    if g.Weeks? then Weeks(SATURDAY) else g
  }

  /**
    `x` is in the window of `g` and no timestamp of `ts` in that window with
    the same dedup mask is older.
   */
  predicate OldestInWindowAsWritten(g: Granularity, ts: set<DateTime>, number: int, now: DateTime, x: DateTime)
    requires now.Valid() && x.Valid() && AllValid(ts)
  {
    && InWindow(g, number, now, x)
    && forall o :: (o in ts && InWindow(g, number, now, o)
                    && Mask(DedupGranularity(g), o) == Mask(DedupGranularity(g), x)) ==> LessEq(x, o)
  }

  /**
    `Filter.filter` exactly as the source runs it: the window comes from the
    start of `g`, the deduplication from the mask of `DedupGranularity(g)`.
    It differs from `Filter` only for weeks not starting on Saturday.
   */
  ghost function FilterAsWritten(g: Granularity, ts: set<DateTime>, number: int, now: Now)
    : (r: Result<set<DateTime>, FilterError>)
    requires AllValid(ts) && now.Valid()
    ensures r.Failure? <==> number < 0
    ensures r.Failure? ==> r.error == InvalidNumber(number)
    ensures r.Success? ==> r.value <= ts
    ensures r.Success? ==> forall x :: x in ts && Less(now.Reference(), x) ==> x in r.value
    ensures number == 0 ==> r == Success(set x | x in ts && Less(now.Reference(), x))
    ensures r.Success? ==> forall x :: x in r.value <==>
      x in ts && (Less(now.Reference(), x) || OldestInWindowAsWritten(g, ts, number, now.Reference(), x))
  {
    if number < 0 then Failure(InvalidNumber(number))
    else
      var ref := now.Reference();
      var future := set dt | dt in ts && Less(ref, dt);
      if number == 0 then Success(future)
      else
        var start := Start(g, ref, number);
        var valid := set dt | dt in ts && LessEq(start, dt) && LessEq(dt, ref);
        var d := DedupGranularity(g);
        KeptInWindow(g, d, ts, number, ref);
        Success(KeptByMask(d, valid).Values + future)
  }
}
