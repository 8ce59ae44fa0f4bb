/**
  The deduplication loop of `Filter.filter` as the source writes it: walk the
  window's timestamps in ascending order and `setdefault` each one under its
  mask, so the first (oldest) timestamp of every bucket wins.  The loop calls
  the mask without the filter's options, so weeks are grouped from Saturday
  (`DedupGranularity`).
 */
module Dedup {
  import opened Results
  import opened DateTimes
  import opened Filters

  predicate StrictlyAscending(s: seq<DateTime>) {
    forall i, j :: 0 <= i < j < |s| ==> Less(s[i], s[j])
  }

  /** The loop's dictionary is exactly the oldest-per-mask map of the window. */
  method KeepFirstPerMask(g: Granularity, sorted: seq<DateTime>) returns (kept: map<DateTime, DateTime>)
    requires forall i :: 0 <= i < |sorted| ==> sorted[i].Valid()
    requires StrictlyAscending(sorted)
    ensures AllValid(set x | x in sorted)
    ensures kept == KeptByMask(g, set x | x in sorted)
  {
    kept := map[];
    var i := 0;
    while i < |sorted|
      invariant 0 <= i <= |sorted|
      invariant forall k :: k in kept ==> kept[k] in sorted[..i] && Mask(g, kept[k]) == k
      invariant forall j :: 0 <= j < i ==>
        Mask(g, sorted[j]) in kept && LessEq(kept[Mask(g, sorted[j])], sorted[j])
    {
      var m := Mask(g, sorted[i]);
      if m !in kept {
        kept := kept[m := sorted[i]];
      }
      i := i + 1;
    }
    assert sorted[..i] == sorted;
    FirstPerMaskIsOldest(g, (set x | x in sorted), kept);
  }

  /**
    `Filter.filter` over timestamps already in ascending order: the negative
    check, the future set, the window scan and the `setdefault` loop under
    the mask of `DedupGranularity(g)`.  It returns what the set-level
    `FilterAsWritten` describes.
   */
  method FilterAscending(g: Granularity, sorted: seq<DateTime>, number: int, now: Now)
    returns (r: Result<set<DateTime>, FilterError>)
    requires forall i :: 0 <= i < |sorted| ==> sorted[i].Valid()
    requires StrictlyAscending(sorted)
    requires now.Valid()
    ensures AllValid(set x | x in sorted)
    ensures r == FilterAsWritten(g, (set x | x in sorted), number, now)
  {
    var all := set x | x in sorted;
    if number < 0 {
      return Failure(InvalidNumber(number));
    }
    var ref := now.Reference();
    var future := set dt | dt in all && Less(ref, dt);
    if number == 0 {
      return Success(future);
    }
    var start := Start(g, ref, number);
    var valid := Window(sorted, start, ref);
    var kept := KeepFirstPerMask(DedupGranularity(g), valid);
    assert (set x | x in valid) == (set dt | dt in all && LessEq(start, dt) && LessEq(dt, ref));
    r := Success(kept.Values + future);
  }

  /** The generator `valid`, materialised in order: the elements of `sorted` inside `[start, now]`. */
  method Window(sorted: seq<DateTime>, start: DateTime, now: DateTime) returns (valid: seq<DateTime>)
    requires forall i :: 0 <= i < |sorted| ==> sorted[i].Valid()
    requires StrictlyAscending(sorted)
    ensures forall j :: 0 <= j < |valid| ==> valid[j].Valid()
    ensures StrictlyAscending(valid)
    ensures forall x :: x in valid <==> x in sorted && LessEq(start, x) && LessEq(x, now)
  {
    valid := [];
    var i := 0;
    while i < |sorted|
      invariant 0 <= i <= |sorted|
      invariant forall j :: 0 <= j < |valid| ==> valid[j] in sorted[..i]
      invariant StrictlyAscending(valid)
      invariant forall x :: x in valid <==> x in sorted[..i] && LessEq(start, x) && LessEq(x, now)
    {
      if LessEq(start, sorted[i]) && LessEq(sorted[i], now) {
        valid := valid + [sorted[i]];
      }
      i := i + 1;
    }
    assert sorted[..i] == sorted;
  }

  /**
    A map holding, for every mask of `valid`, an element of `valid` with that
    mask that is not after any other such element, is `KeptByMask`.
   */
  lemma FirstPerMaskIsOldest(g: Granularity, valid: set<DateTime>, kept: map<DateTime, DateTime>)
    requires AllValid(valid)
    requires forall k :: k in kept ==> kept[k] in valid && Mask(g, kept[k]) == k
    requires forall x :: x in valid ==> Mask(g, x) in kept && LessEq(kept[Mask(g, x)], x)
    ensures kept == KeptByMask(g, valid)
  {
    var expected := KeptByMask(g, valid);
    forall k | k in expected
      ensures k in kept && kept[k] == expected[k]
    {
      var x := expected[k];
      assert Mask(g, x) == k;
      LessEqAntisymmetric(kept[k], x);
    }
    forall k | k in kept
      ensures k in expected
    {
      assert Mask(g, kept[k]) == k;
    }
    assert kept.Keys == expected.Keys;
  }
}
