/** Each of the three ways to get stuck, on sources of any size. */
module StuckRuns {
  import opened Sorting
  import opened Sums
  import opened RangeCuts
  import opened Stretches
  import opened Stairs

  // ----- a detailed histogram is used up too early -----

  /** Source 1 holds the three smallest buckets that source 2 does not hold. */
  ghost function OneTakesAll(step: nat, u: nat): Data {
    var n := u + 3 * step;
    Data(step, u, [Stair(0, n), Stair(3 * step, n), Stair(u, n)])
  }

  lemma TakingAllIsPossible(step: nat, u: nat)
    requires WholeBuckets(step, u)
    ensures var x, v := OneTakesAll(step, u), OneTakesAll(step, u).stairs[2].At(0);
      var cs := After(Opened(x), 1, 3 * step - 1);
      && IsData(x, step, u) && x.step == step && x.u == u && |x.stairs| == 3
      && Opened(x)[1].pos == 0 && CanDetail(x, u, Opened(x), 1, 3 * step - 1, v)
      && u + 3 * step - 1 < x.N() && CanPick(x, cs, 1, v)
      && cs[1].window.Detailed? && cs[1].pos + 1 == cs[1].window.hi
  {
  }

  lemma UsedUpAtAnySize(step: nat, u: nat)
    requires WholeBuckets(step, u)
    ensures var cfg := OneTakesAll(step, u).Cfg();
      cfg.Valid() && Inv(cfg, Start(cfg)) && Run(cfg, Start(cfg)) == Stuck(CompletedTooEarly)
  {
    UsedUp(step, u);
    DataIsValid(OneTakesAll(step, u));
  }

  lemma UsedUp(step: nat, u: nat)
    requires WholeBuckets(step, u)
    ensures var x := OneTakesAll(step, u);
      && |x.stairs| == 3 && x.Valid() && Inv(x.Cfg(), Start(x.Cfg()))
      && Result(x, Start(x.Cfg())) == Stuck(CompletedTooEarly)
  {
    hide *;
    TakingAllIsPossible(step, u);
    var x, v := OneTakesAll(step, u), OneTakesAll(step, u).stairs[2].At(0);
    var s := Opening(x);
    var t := Detail(x, s, 0, u, Opened(x), [], 1, 3 * step - 1, v);
    GetsUsedUp(x, t, 0, u + 3 * step - 1, After(Opened(x), 1, 3 * step - 1), [], 1, v);
  }

  // ----- a coarse cursor leaves its histogram -----

  /** Source 2 is ahead, all its last items are equal to those of the others, and it is later. */
  ghost function OneRunsAhead(step: nat, u: nat): Data {
    var n := u + 3 * step;
    Data(step, u, [Stair(step, n), Stair(step, n), Stair(u + step, n)])
  }

  lemma RunningAheadIsPossible(step: nat, u: nat)
    requires WholeBuckets(step, u) && u >= 2 * step
    ensures var x, v := OneRunsAhead(step, u), OneRunsAhead(step, u).stairs[2].At(0);
      var c0 := Opened(x);
      var c1 := After(c0, 2, u + step);
      var c2 := After(c1, 1, step);
      && IsData(x, step, u) && x.step == step && x.u == u && |x.stairs| == 3 && x.N() == u + 3 * step
      && c0[2].pos == u && CanDetail(x, u, c0, 2, u + step, v)
      && c1[1].pos == 0 && CanDetail(x, u + step, c1, 1, step, v)
      && c2[0].pos == 0 && CanDetail(x, u + 2 * step, c2, 0, step, v) && CanReopen(x, After(c2, 0, step))
      && SyncedCursorsAt(x, After(c2, 0, step)) == AheadByABucket(step, u)
  {
    StepKeepsRemainder(u, step);
    StepKeepsRemainder(0, step);
  }

  lemma RunningOutIsPossible(step: nat, u: nat)
    requires WholeBuckets(step, u) && u >= 2 * step
    ensures var x, v := OneRunsAhead(step, u), OneRunsAhead(step, u).stairs[2].At(u + step);
      var cs, cs' := AheadByABucket(step, u), After(AheadByABucket(step, u), 2, u + 2 * step);
      && cs[2].pos == u + step && CanSkip(x, 0, cs, 2, u + 2 * step, v) && CanPick(x, cs', 2, v)
      && cs'[2].window.Coarse? && cs'[2].pos + x.step >= x.N()
  {
    StepKeepsRemainder(0, step);
  }

  lemma PastTheEnd(step: nat, u: nat)
    requires WholeBuckets(step, u) && u >= 2 * step
    ensures var x := OneRunsAhead(step, u);
      && |x.stairs| == 3 && x.Valid() && Inv(x.Cfg(), Start(x.Cfg()))
      && Result(x, Start(x.Cfg())) == Stuck(PastLastBucket)
  {
    hide *;
    RunningAheadIsPossible(step, u);
    RunningOutIsPossible(step, u);
    var x := OneRunsAhead(step, u);
    var v, w, c0 := x.stairs[2].At(0), x.stairs[2].At(u + step), Opened(x);
    var s0 := Opening(x);
    var s1 := Detail(x, s0, 0, u, c0, [], 2, u + step, v);
    var c1 := After(c0, 2, u + step);
    var s2 := Detail(x, s1, 0, u + step, c1, [], 1, step, v);
    var c2 := After(c1, 1, step);
    var s3 := Detail(x, s2, 0, u + 2 * step, c2, [], 0, step, v);
    var s4 := NextDestination(x, s3, 0, After(c2, 0, step), []);
    var rows := [] + [RangesOf(After(c2, 0, step))];
    var s5 := Skip(x, s4, 1, 0, AheadByABucket(step, u), rows, 2, u + 2 * step, w);
    GetsPastTheEnd(x, s5, 1, step, After(AheadByABucket(step, u), 2, u + 2 * step), rows, 2, w);
  }

  lemma PastTheEndAtAnySize(step: nat, u: nat)
    requires WholeBuckets(step, u) && u >= 2 * step
    ensures var cfg := OneRunsAhead(step, u).Cfg();
      cfg.Valid() && Inv(cfg, Start(cfg)) && Run(cfg, Start(cfg)) == Stuck(PastLastBucket)
  {
    PastTheEnd(step, u);
    DataIsValid(OneRunsAhead(step, u));
  }

  // ----- a detailed histogram is still held -----

  /** Sources 1 and 2 are left in the middle of a bucket, and source 0 has all the next items. */
  ghost function TwoAreLeftBehind(step: nat, u: nat): Data
    requires step > 0
  {
    var n := u + 3 * step;
    Data(step, u, [Stair(u, n), Stair(3 * step - 1, n), Stair(u + 1, n)])
  }

  lemma LeavingBehindIsPossible(step: nat, u: nat)
    requires WholeBuckets(step, u) && step >= 2
    ensures var x, v := TwoAreLeftBehind(step, u), TwoAreLeftBehind(step, u).stairs[2].At(0);
      var c0 := Opened(x);
      var c1 := After(c0, 2, u + 1);
      && IsData(x, step, u) && x.step == step && x.u == u && |x.stairs| == 3 && x.N() == u + 3 * step
      && c0[2].pos == u && CanDetail(x, u, c0, 2, u + 1, v)
      && c1[1].pos == 0 && CanDetail(x, u + 1, c1, 1, 3 * step - 1, v) && CanReopen(x, After(c1, 1, 3 * step - 1))
      && SyncedCursorsAt(x, After(c1, 1, 3 * step - 1)) == LeftBehind(x, step, u)
  {
    DivMod(u, step);
    RemainderIsUnique(u + 1, step, u / step, 1);
    RemainderIsUnique(3 * step - 1, step, 2, step - 1);
    RemainderIsUnique(0, step, 0, 0);
  }

  function LeftBehind(x: Data, step: nat, u: nat): (cs: seq<Cursor>)
    requires step > 0
    ensures |cs| == 3
  {
    [CoarseAt(0, 0), InWindow(x, 3 * step - 1, 3 * step - 1, 0), InWindow(x, u + 1, u + 1, u)]
  }

  lemma RequestingIsPossible(step: nat, u: nat)
    requires WholeBuckets(step, u) && step >= 2
    ensures u - step >= 0
    ensures var x, v := TwoAreLeftBehind(step, u), TwoAreLeftBehind(step, u).stairs[2].At(0);
      var cs, cs' := LeftBehind(x, step, u), After(LeftBehind(x, step, u), 0, u - step);
      && cs[0].pos == 0 && CanSkip(x, 0, cs, 0, u - step, v) && CanPick(x, cs', 0, v)
      && cs'[0].window.Coarse? && cs'[0].pos + x.step < x.N() && cs'[1].window.Detailed?
  {
    BucketBeforeLast(u, step);
  }

  lemma StillHeld(step: nat, u: nat)
    requires WholeBuckets(step, u) && step >= 2
    ensures var x := TwoAreLeftBehind(step, u);
      && |x.stairs| == 3 && x.Valid() && Inv(x.Cfg(), Start(x.Cfg()))
      && Result(x, Start(x.Cfg())) == Stuck(DetailedStillHeld)
  {
    hide *;
    LeavingBehindIsPossible(step, u);
    RequestingIsPossible(step, u);
    var x := TwoAreLeftBehind(step, u);
    var v, c0 := x.stairs[2].At(0), Opened(x);
    var s0 := Opening(x);
    var s1 := Detail(x, s0, 0, u, c0, [], 2, u + 1, v);
    var c1 := After(c0, 2, u + 1);
    var s2 := Detail(x, s1, 0, u + 1, c1, [], 1, 3 * step - 1, v);
    var c2 := After(c1, 1, 3 * step - 1);
    var s3 := NextDestination(x, s2, 0, c2, []);
    var rows, cs := [] + [RangesOf(c2)], LeftBehind(x, step, u);
    var s4 := Skip(x, s3, 1, 0, cs, rows, 0, u - step, v);
    IsStillHeld(x, s4, 1, u - step, After(cs, 0, u - step), rows, 0, 1, v);
  }

  lemma StillHeldAtAnySize(step: nat, u: nat)
    requires WholeBuckets(step, u) && step >= 2
    ensures var cfg := TwoAreLeftBehind(step, u).Cfg();
      cfg.Valid() && Inv(cfg, Start(cfg)) && Run(cfg, Start(cfg)) == Stuck(DetailedStillHeld)
  {
    StillHeld(step, u);
    DataIsValid(TwoAreLeftBehind(step, u));
  }
}
