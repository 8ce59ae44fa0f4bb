/**
  Bucket numbers: each granularity's buckets, counted as consecutive integers.
  Two timestamps share a mask exactly when they share a bucket number, the
  numbers follow chronological order, and the window start of `number`
  buckets is the first instant of the bucket `number - 1` before `now`'s.
  These facts turn the window test `start <= x <= now` into plain integer
  distance between bucket numbers.
 */
module Buckets {
  import opened Calendar
  import opened DateTimes
  import opened Filters

  /** The position of `dt`'s bucket on the integer line. */
  function Bucket(g: Granularity, dt: DateTime): int
    requires dt.Valid()
  {
    var days := Ordinal(dt.ToDate());
    match g
    case Seconds => SecondsOf(dt)
    case Minutes => days * 1440 + dt.hour * 60 + dt.minute
    case Hours => days * 24 + dt.hour
    case Days => days
    case Weeks(f) => (days + 6 - f) / 7
    case Months => dt.year * 12 + dt.month - 1
    case Years => dt.year
  }

  /** The week mask falls on day `7 * bucket + firstweekday - 6`. */
  lemma WeekMaskDay(dt: DateTime, f: int)
    requires dt.Valid()
    ensures Ordinal(WeekMask(dt, f).ToDate()) == 7 * Bucket(Weeks(f), dt) + f - 6
  {
    WeekArithmetic(Ordinal(dt.ToDate()), f);
  }

  /** Going back `((o + 6) % 7 - f) % 7` days from day `o` lands on `7 * ((o + 6 - f) / 7) + f - 6`. */
  lemma WeekArithmetic(o: int, f: int)
    ensures o - ((o + 6) % 7 - f) % 7 == 7 * ((o + 6 - f) / 7) + f - 6
  {
    ModShift(o + 6, f);
    var x := o + 6 - f;
    assert x == 7 * (x / 7) + x % 7;
  }

  lemma ModShift(a: int, f: int)
    ensures (a % 7 - f) % 7 == (a - f) % 7
  {
    var q := a / 7;
    assert a - f == (a % 7 - f) + 7 * q;
    ModPeriodic(a % 7 - f, q);
  }

  lemma ModPeriodic(y: int, q: int)
    ensures (y + 7 * q) % 7 == y % 7
  {
  }

  /** Two midnights on the same day are the same timestamp. */
  lemma MidnightsEqual(a: DateTime, b: DateTime)
    requires a.Valid() && b.Valid() && a.IsMidnight() && b.IsMidnight()
    requires Ordinal(a.ToDate()) == Ordinal(b.ToDate())
    ensures a == b
  {
    OrdinalInjective(a.ToDate(), b.ToDate());
  }

  lemma SameMaskSameBucketFixed(g: Granularity, a: DateTime, b: DateTime)
    requires g.Seconds? || g.Minutes? || g.Hours? || g.Days?
    requires a.Valid() && b.Valid()
    ensures Mask(g, a) == Mask(g, b) <==> Bucket(g, a) == Bucket(g, b)
  {
    var oa, ob := Ordinal(a.ToDate()), Ordinal(b.ToDate());
    if Bucket(g, a) == Bucket(g, b) {
      match g
      case Seconds =>
        SecondsOfInjective(a, b);
      case Minutes =>
        Decompose(oa, a.hour * 60 + a.minute, ob, b.hour * 60 + b.minute, 1440);
        Decompose(a.hour, a.minute, b.hour, b.minute, 60);
        OrdinalInjective(a.ToDate(), b.ToDate());
      case Hours =>
        Decompose(oa, a.hour, ob, b.hour, 24);
        OrdinalInjective(a.ToDate(), b.ToDate());
      case Days =>
        OrdinalInjective(a.ToDate(), b.ToDate());
    }
  }

  /** Two timestamps share a mask exactly when they share a bucket. */
  lemma SameMaskSameBucket(g: Granularity, a: DateTime, b: DateTime)
    requires a.Valid() && b.Valid()
    ensures Mask(g, a) == Mask(g, b) <==> Bucket(g, a) == Bucket(g, b)
  {
    match g
    case Weeks(f) =>
      WeekMaskDay(a, f);
      WeekMaskDay(b, f);
      if Bucket(g, a) == Bucket(g, b) {
        MidnightsEqual(Mask(g, a), Mask(g, b));
      }
    case Months =>
    case Years =>
    case _ =>
      SameMaskSameBucketFixed(g, a, b);
  }

  /** Bucket numbers never decrease along chronological order. */
  lemma BucketMonotone(g: Granularity, a: DateTime, b: DateTime)
    requires a.Valid() && b.Valid()
    requires LessEq(a, b)
    ensures Bucket(g, a) <= Bucket(g, b)
  {
    OrderByOrdinal(a, b);
    match g
    case Seconds => SecondsOfMonotone(a, b);
    case Weeks(f) =>
      DivMonotone(Ordinal(a.ToDate()) + 6 - f, Ordinal(b.ToDate()) + 6 - f);
    case _ =>
  }

  lemma DivMonotone(x: int, y: int)
    requires x <= y
    ensures x / 7 <= y / 7
  {
  }

  /** A mask is the first instant of its own bucket: masking it again changes nothing. */
  lemma MaskIdempotent(g: Granularity, dt: DateTime)
    requires dt.Valid()
    ensures Mask(g, Mask(g, dt)) == Mask(g, dt)
    ensures Bucket(g, Mask(g, dt)) == Bucket(g, dt)
  {
    var m := Mask(g, dt);
    match g
    case Weeks(f) =>
      WeekMaskDay(dt, f);
      WeekMaskDay(m, f);
      var b := Bucket(g, dt);
      assert Ordinal(m.ToDate()) + 6 - f == 7 * b;
      assert Bucket(g, m) == b;
      MidnightsEqual(Mask(g, m), m);
    case _ =>
  }

  /** `number - 1` buckets back from the bucket of `now`, on a bucket boundary. */
  lemma StartBucket(g: Granularity, now: DateTime, number: int)
    requires now.Valid() && number >= 1
    ensures Mask(g, Start(g, now, number)) == Start(g, now, number)
    ensures Bucket(g, Start(g, now, number)) == Bucket(g, now) - (number - 1)
  {
    match g
    case Seconds =>
    case Minutes => StartBucketMinutes(now, number);
    case Hours => StartBucketHours(now, number);
    case Days => StartBucketDays(now, number);
    case Weeks(f) => StartBucketWeeks(now, f, number);
    case Months =>
    case Years =>
  }

  lemma StartBucketMinutes(now: DateTime, number: int)
    requires now.Valid() && number >= 1
    ensures Mask(Minutes, Start(Minutes, now, number)) == Start(Minutes, now, number)
    ensures Bucket(Minutes, Start(Minutes, now, number)) == Bucket(Minutes, now) - (number - 1)
  {
    var s := Start(Minutes, now, number);
    var o := Ordinal(s.ToDate());
    assert SecondsOf(s) == SecondsOf(Mask(Minutes, now)) - (number - 1) * 60;
    Decompose(o * 1440 + s.hour * 60 + s.minute, s.second,
              Bucket(Minutes, now) - (number - 1), 0, 60);
  }

  lemma StartBucketHours(now: DateTime, number: int)
    requires now.Valid() && number >= 1
    ensures Mask(Hours, Start(Hours, now, number)) == Start(Hours, now, number)
    ensures Bucket(Hours, Start(Hours, now, number)) == Bucket(Hours, now) - (number - 1)
  {
    var s := Start(Hours, now, number);
    var o := Ordinal(s.ToDate());
    assert SecondsOf(s) == SecondsOf(Mask(Hours, now)) - (number - 1) * 3600;
    Decompose(o * 24 + s.hour, s.minute * 60 + s.second,
              Bucket(Hours, now) - (number - 1), 0, 3600);
  }

  lemma StartBucketDays(now: DateTime, number: int)
    requires now.Valid() && number >= 1
    ensures Mask(Days, Start(Days, now, number)) == Start(Days, now, number)
    ensures Bucket(Days, Start(Days, now, number)) == Bucket(Days, now) - (number - 1)
  {
    var s := Start(Days, now, number);
    var o := Ordinal(s.ToDate());
    assert SecondsOf(s) == SecondsOf(Mask(Days, now)) - (number - 1) * 86400;
    Decompose(o, TimeOfDay(s), Bucket(Days, now) - (number - 1), 0, 86400);
  }

  /** The week start is the midnight `number - 1` whole weeks before the week mask of `now`. */
  lemma StartBucketWeeks(now: DateTime, f: int, number: int)
    requires now.Valid() && number >= 1
    ensures Start(Weeks(f), now, number).IsMidnight()
    ensures Ordinal(Start(Weeks(f), now, number).ToDate())
      == Ordinal(WeekMask(now, f).ToDate()) - 7 * (number - 1)
    ensures Mask(Weeks(f), Start(Weeks(f), now, number)) == Start(Weeks(f), now, number)
    ensures Bucket(Weeks(f), Start(Weeks(f), now, number)) == Bucket(Weeks(f), now) - (number - 1)
  {
    var g := Weeks(f);
    var s := Start(g, now, number);
    WeekStartDay(now, f, number);
    WeekMaskDay(now, f);
    var b := Bucket(g, now) - (number - 1);
    assert Ordinal(s.ToDate()) + 6 - f == 7 * b;
    WeekMaskDay(s, f);
    MidnightsEqual(Mask(g, s), s);
  }

  /** Going back whole weeks from a midnight lands on a midnight, that many weeks of days earlier. */
  lemma WeekStartDay(now: DateTime, f: int, number: int)
    requires now.Valid() && number >= 1
    ensures Start(Weeks(f), now, number).IsMidnight()
    ensures Ordinal(Start(Weeks(f), now, number).ToDate())
      == Ordinal(WeekMask(now, f).ToDate()) - 7 * (number - 1)
  {
    var s := Start(Weeks(f), now, number);
    var m := WeekMask(now, f);
    assert SecondsOf(s) == SecondsOf(m) - (number - 1) * 604800;
    assert SecondsOf(m) == Ordinal(m.ToDate()) * 86400;
    Decompose(Ordinal(s.ToDate()), TimeOfDay(s), Ordinal(m.ToDate()) - 7 * (number - 1), 0, 86400);
  }

  /**
    For a timestamp not after `now`, being in the window of `number` buckets
    means being fewer than `number` buckets behind `now`.
   */
  lemma WindowByBucket(g: Granularity, number: int, now: DateTime, x: DateTime)
    requires now.Valid() && x.Valid() && number >= 1
    ensures InWindow(g, number, now, x) <==> LessEq(x, now) && Bucket(g, now) - Bucket(g, x) < number
  {
    var s := Start(g, now, number);
    StartBucket(g, now, number);
    if LessEq(s, x) {
      BucketMonotone(g, s, x);
    } else {
      LessEqTotal(s, x);
      BucketMonotone(g, x, s);
      SameMaskSameBucket(g, x, s);
    }
  }
}
