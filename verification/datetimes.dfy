/**
  Naive timestamps with microsecond resolution, ordered the way Python's
  `datetime` compares them, and the one piece of `timedelta` arithmetic the
  retention filters need: going back a whole number of seconds.
 */
module DateTimes {
  import opened Calendar

  const SECONDS_PER_MINUTE: int := 60
  const SECONDS_PER_HOUR: int := 3600
  const SECONDS_PER_DAY: int := 86400

  datatype DateTime = DateTime(year: int, month: int, day: int,
                               hour: int, minute: int, second: int, microsecond: int)
  {
    /** The calendar date of this timestamp (`dt.date()`). */
    function ToDate(): Date {
      Date(year, month, day)
    }

    predicate Valid() {
      && ToDate().Valid()
      && 0 <= hour < 24
      && 0 <= minute < 60
      && 0 <= second < 60
      && 0 <= microsecond < 1000000
    }

    predicate IsMidnight() {
      hour == 0 && minute == 0 && second == 0 && microsecond == 0
    }
  }

  /** `datetime.combine(d, time())`: the first instant of day `d`. */
  function AtMidnight(d: Date): (r: DateTime)
    requires d.Valid()
    ensures r.Valid() && r.IsMidnight() && r.ToDate() == d
  {
    DateTime(d.year, d.month, d.day, 0, 0, 0, 0)
  }

  /** `datetime.combine(d, time(23, 59, 59, 999999))`: the last instant of day `d`. */
  function AtEndOfDay(d: Date): (r: DateTime)
    requires d.Valid()
    ensures r.Valid() && r.ToDate() == d
    ensures forall x: DateTime :: x.ToDate() == d && x.Valid() ==> LessEq(x, r)
  {
    DateTime(d.year, d.month, d.day, 23, 59, 59, 999999)
  }

  /** Every timestamp of the collection is a real calendar instant. */
  predicate AllValid(ts: set<DateTime>) {
    forall dt :: dt in ts ==> dt.Valid()
  }

  /** Strict chronological order: lexicographic on all seven fields, as `datetime` compares. */
  predicate Less(a: DateTime, b: DateTime) {
    || a.year < b.year
    || (a.year == b.year && a.month < b.month)
    || (a.year == b.year && a.month == b.month && a.day < b.day)
    || (a.ToDate() == b.ToDate() && a.hour < b.hour)
    || (a.ToDate() == b.ToDate() && a.hour == b.hour && a.minute < b.minute)
    || (a.ToDate() == b.ToDate() && a.hour == b.hour && a.minute == b.minute && a.second < b.second)
    || (a.ToDate() == b.ToDate() && a.hour == b.hour && a.minute == b.minute && a.second == b.second
        && a.microsecond < b.microsecond)
  }

  predicate LessEq(a: DateTime, b: DateTime) {
    a == b || Less(a, b)
  }

  /** Any two timestamps are comparable. */
  lemma LessEqTotal(a: DateTime, b: DateTime)
    ensures LessEq(a, b) || Less(b, a)
  {
  }

  /** Chronological order is transitive, in both its strict and its reflexive form. */
  lemma LessEqTransitiveAll(a: DateTime, b: DateTime)
    ensures forall c :: LessEq(a, b) && LessEq(b, c) ==> LessEq(a, c)
    ensures forall c :: Less(b, a) && LessEq(a, c) ==> Less(b, c)
  {
  }

  /** Two timestamps each not after the other are the same timestamp. */
  lemma LessEqAntisymmetric(a: DateTime, b: DateTime)
    requires LessEq(a, b) && LessEq(b, a)
    ensures a == b
  {
  }

  /** Seconds elapsed since midnight, ignoring microseconds. */
  function TimeOfDay(dt: DateTime): int {
    dt.hour * SECONDS_PER_HOUR + dt.minute * SECONDS_PER_MINUTE + dt.second
  }

  /** Whole seconds on a single time line: the ordinal's days plus the time of day. */
  function SecondsOf(dt: DateTime): int
    requires dt.Valid()
  {
    Ordinal(dt.ToDate()) * SECONDS_PER_DAY + TimeOfDay(dt)
  }

  /**
    `dt - timedelta(seconds=k)` for `k >= 0`: the time of day borrows whole days
    from the date, and the microseconds are untouched.
   */
  function Minus(dt: DateTime, k: nat): (r: DateTime)
    requires dt.Valid()
    ensures r.Valid()
    ensures r.microsecond == dt.microsecond
    ensures SecondsOf(r) == SecondsOf(dt) - k
  {
    var t := TimeOfDay(dt) - k;
    DayBorrow(t);
    var back := -(t / SECONDS_PER_DAY);
    var s := t % SECONDS_PER_DAY;
    ClockSplit(s);
    var d := SubDays(dt.ToDate(), back);
    var r := DateTime(d.year, d.month, d.day, s / SECONDS_PER_HOUR, (s % SECONDS_PER_HOUR) / SECONDS_PER_MINUTE,
                      s % SECONDS_PER_MINUTE, dt.microsecond);
    assert TimeOfDay(r) == s;
    BorrowedSeconds(Ordinal(dt.ToDate()), back, s);
    r
  }

  /** A time of day less than a day splits into whole days borrowed (never positive) and a remainder. */
  lemma DayBorrow(t: int)
    requires t < SECONDS_PER_DAY
    ensures t / SECONDS_PER_DAY <= 0
    ensures 0 <= t % SECONDS_PER_DAY < SECONDS_PER_DAY
    ensures t == (t / SECONDS_PER_DAY) * SECONDS_PER_DAY + t % SECONDS_PER_DAY
  {
  }

  /** Seconds within a day split into an hour, minute and second on the clock. */
  lemma ClockSplit(s: int)
    requires 0 <= s < SECONDS_PER_DAY
    ensures 0 <= s / SECONDS_PER_HOUR < 24
    ensures 0 <= (s % SECONDS_PER_HOUR) / SECONDS_PER_MINUTE < 60
    ensures 0 <= s % SECONDS_PER_MINUTE < 60
    ensures (s / SECONDS_PER_HOUR) * SECONDS_PER_HOUR + ((s % SECONDS_PER_HOUR) / SECONDS_PER_MINUTE) * SECONDS_PER_MINUTE
      + s % SECONDS_PER_MINUTE == s
  {
  }

  /** Borrowing `back` whole days moves the seconds count back by `back` days. */
  lemma BorrowedSeconds(o: int, back: int, s: int)
    ensures (o - back) * SECONDS_PER_DAY + s == o * SECONDS_PER_DAY - back * SECONDS_PER_DAY + s
  {
  }

  lemma {:induction false} MulAtLeast(d: int, c: int)
    requires d >= 1 && c > 0
    ensures d * c >= c
    decreases d
  {
    if d > 1 {
      MulAtLeast(d - 1, c);
      assert d * c == (d - 1) * c + c;
    }
  }

  /** `x * c + r` determines `x` and `r` when `0 <= r < c`. */
  lemma Decompose(x1: int, r1: int, x2: int, r2: int, c: int)
    requires c > 0 && 0 <= r1 < c && 0 <= r2 < c
    requires x1 * c + r1 == x2 * c + r2
    ensures x1 == x2 && r1 == r2
  {
    if x1 < x2 {
      MulAtLeast(x2 - x1, c);
      assert false;
    } else if x2 < x1 {
      MulAtLeast(x1 - x2, c);
      assert false;
    }
  }

  /**
    Chronological order compares dates by ordinal first and, on the same date,
    the time of day lexicographically.
   */
  lemma OrderByOrdinal(a: DateTime, b: DateTime)
    requires a.Valid() && b.Valid()
    ensures LessEq(a, b) <==>
      || Ordinal(a.ToDate()) < Ordinal(b.ToDate())
      || (a.ToDate() == b.ToDate() && !Less(b, a))
  {
    OrdinalOrder(a.ToDate(), b.ToDate());
    OrdinalOrder(b.ToDate(), a.ToDate());
  }

  /** The time of day determines the hour, minute and second. */
  lemma TimeOfDayInjective(a: DateTime, b: DateTime)
    requires a.Valid() && b.Valid()
    requires TimeOfDay(a) == TimeOfDay(b)
    ensures a.hour == b.hour && a.minute == b.minute && a.second == b.second
  {
    Decompose(a.hour, a.minute * 60 + a.second, b.hour, b.minute * 60 + b.second, SECONDS_PER_HOUR);
    Decompose(a.minute, a.second, b.minute, b.second, SECONDS_PER_MINUTE);
  }

  /** Two valid timestamps with the same whole-second value differ at most in microseconds. */
  lemma SecondsOfInjective(a: DateTime, b: DateTime)
    requires a.Valid() && b.Valid()
    requires SecondsOf(a) == SecondsOf(b)
    ensures a.ToDate() == b.ToDate()
    ensures a.hour == b.hour && a.minute == b.minute && a.second == b.second
  {
    Decompose(Ordinal(a.ToDate()), TimeOfDay(a), Ordinal(b.ToDate()), TimeOfDay(b), SECONDS_PER_DAY);
    OrdinalInjective(a.ToDate(), b.ToDate());
    TimeOfDayInjective(a, b);
  }

  /** Chronological order never decreases the whole-second value. */
  lemma SecondsOfMonotone(a: DateTime, b: DateTime)
    requires a.Valid() && b.Valid()
    requires LessEq(a, b)
    ensures SecondsOf(a) <= SecondsOf(b)
  {
    OrderByOrdinal(a, b);
  }
}
