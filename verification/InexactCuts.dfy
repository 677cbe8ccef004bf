/** Runs that finish although one of their cuts is not exact: their outputs are not sorted. */
module InexactCuts {
  import opened Sorting
  import opened Sums
  import opened Flattening
  import opened RangeCuts
  import opened Stretches
  import opened Stairs
  import opened EndToEnd

  /** Source 2 has its last 1 at the beginning of a bucket, and the others still have many. */
  ghost function Lopsided(step: nat, u: nat): Data {
    Data(step, u, [Stair(step, u + 2 * step), Stair(step, u + 2 * step), Stair(u, u + step + 1)])
  }

  ghost predicate IsLopsided(x: Data, step: nat, u: nat) {
    WholeBuckets(step, u) && step >= 2 && x == Lopsided(step, u)
  }

  lemma LopsidedIsData(x: Data, step: nat, u: nat)
    requires IsLopsided(x, step, u)
    ensures IsData(x, step, u) && x.Valid() && |x.stairs| == 3
    ensures x.step == step && x.u == u && x.N() == u + 3 * step
  {
  }

  // ----- the first destination -----

  lemma FirstIsPossible(x: Data, step: nat, u: nat)
    requires IsLopsided(x, step, u)
    ensures |x.stairs| == 3
    ensures var v, w := x.stairs[0].At(0), x.stairs[0].At(step);
      var c0 := Opened(x);
      var c1 := After(c0, 1, step);
      var c2 := After(c1, 0, step);
      && c0[1].pos == 0 && CanDetail(x, u, c0, 1, step, v)
      && c1[0].pos == 0 && CanDetail(x, u + step, c1, 0, step, v)
      && c2[2].pos == u && CanDetail(x, u + 2 * step, c2, 2, u + step, w)
      && CanReopen(x, After(c2, 2, u + step)) && SyncedCursorsAt(x, After(c2, 2, u + step)) == AheadByABucket(step, u)
  {
    StepKeepsRemainder(u, step);
    StepKeepsRemainder(0, step);
  }

  lemma FirstDestination(x: Data, s: State, step: nat, u: nat) returns (t: State, row: seq<Range>)
    requires IsLopsided(x, step, u) && Fetched(x, s, 0, u, Opened(x), [])
    ensures Open(x, t, 1, 0, AheadByABucket(step, u), [row]) && Result(x, s) == Result(x, t)
  {
    hide *;
    LopsidedIsData(x, step, u);
    FirstIsPossible(x, step, u);
    var v, w, c0 := x.stairs[0].At(0), x.stairs[0].At(step), Opened(x);
    var s1 := Detail(x, s, 0, u, c0, [], 1, step, v);
    var c1 := After(c0, 1, step);
    var s2 := Detail(x, s1, 0, u + step, c1, [], 0, step, v);
    var c2 := After(c1, 0, step);
    var s3 := Detail(x, s2, 0, u + 2 * step, c2, [], 2, u + step, w);
    var c3 := After(c2, 2, u + step);
    t := NextDestination(x, s3, 0, c3, []);
    row := RangesOf(c3);
    assert [] + [row] == [row];
  }

  // ----- the second destination -----

  /** The cursors of the second destination, when its detailed histograms have arrived. */
  function SecondWindows(x: Data, step: nat, u: nat): (cs: seq<Cursor>)
    ensures |cs| == 3
  {
    [InWindow(x, step, step, step), InWindow(x, step, u, u), InWindow(x, u + step, u + 2 * step, u + 2 * step)]
  }

  lemma ShortSecondIsPossible(x: Data, step: nat, u: nat)
    requires IsLopsided(x, step, u) && u == step
    ensures |x.stairs| == 3
    ensures var w, cs := x.stairs[0].At(step), AheadByABucket(step, u);
      && CanRequest(x, 0, cs, 2, w) && cs[2].pos + x.step == u + 2 * step
      && WindowsOf(x, After(cs, 2, u + 2 * step)) == SecondWindows(x, step, u)
  {
  }

  lemma LongSecondIsPossible(x: Data, step: nat, u: nat)
    requires IsLopsided(x, step, u) && u > step
    ensures |x.stairs| == 3 && u >= 2 * step
    ensures var w, cs := x.stairs[0].At(step), AheadByABucket(step, u);
      var cs1 := After(cs, 2, u + 2 * step);
      var cs2 := After(cs1, 1, u - step);
      && cs[2].pos == u + step && CanSkip(x, 0, cs, 2, u + 2 * step, w)
      && cs1[1].pos == step && CanSkip(x, step, cs1, 1, u - step, w)
      && CanRequest(x, u - step, cs2, 1, w) && cs2[1].pos + x.step == u
      && WindowsOf(x, After(cs2, 1, u)) == SecondWindows(x, step, u)
  {
    BucketBeforeLast(u, step);
    BucketBeforeLast(u - step, step);
    StepKeepsRemainder(0, step);
    if u > 2 * step { BucketsAhead(u - 2 * step, step); }
  }

  lemma SecondRequest(x: Data, s: State, step: nat, u: nat, rows: seq<seq<Range>>) returns (t: State)
    requires IsLopsided(x, step, u) && Open(x, s, 1, 0, AheadByABucket(step, u), rows)
    ensures Fetched(x, t, 1, u, SecondWindows(x, step, u), rows) && Result(x, s) == Result(x, t)
  {
    hide *;
    LopsidedIsData(x, step, u);
    var w, cs := x.stairs[0].At(step), AheadByABucket(step, u);
    AtLeastABucket(x, step, u);
    if u == step {
      ShortSecondIsPossible(x, step, u);
      t := Request(x, s, 1, 0, cs, rows, 2, w);
    } else {
      LongSecondIsPossible(x, step, u);
      var s1 := Skip(x, s, 1, 0, cs, rows, 2, u + 2 * step, w);
      var cs1 := After(cs, 2, u + 2 * step);
      var s2 := Skip(x, s1, 1, step, cs1, rows, 1, u - step, w);
      t := Request(x, s2, 1, u - step, After(cs1, 1, u - step), rows, 1, w);
    }
  }

  lemma AtLeastABucket(x: Data, step: nat, u: nat)
    requires IsLopsided(x, step, u)
    ensures u >= step
  {
  }

  lemma SecondIsPossible(x: Data, step: nat, u: nat)
    requires IsLopsided(x, step, u)
    ensures |x.stairs| == 3
    ensures var w, cs := x.stairs[0].At(step), SecondWindows(x, step, u);
      var cs1 := After(cs, 1, u + 2 * step);
      var cs2 := After(cs1, 0, 2 * step);
      && cs[1].pos == u && CanDetail(x, u, cs, 1, u + 2 * step, w)
      && cs1[0].pos == step && CanDetail(x, u + 2 * step, cs1, 0, 2 * step, w)
      && CanReopen(x, cs2) && SyncedCursorsAt(x, cs2) == ThirdStart(step, u) && RangesOf(cs2) == SecondRow(step, u)
  {
    StepKeepsRemainder(u, step);
    StepKeepsRemainder(u + step, step);
    StepKeepsRemainder(0, step);
    StepKeepsRemainder(step, step);
  }

  function ThirdStart(step: nat, u: nat): (cs: seq<Cursor>)
    ensures |cs| == 3
  {
    [CoarseAt(2 * step, 2 * step), CoarseAt(u + 2 * step, u + 2 * step), CoarseAt(u + 2 * step, u + 2 * step)]
  }

  /** Source 2 hands out a whole bucket, of which only the first item should go. */
  function SecondRow(step: nat, u: nat): seq<Range> {
    [Range(step, 2 * step - 1), Range(step, u + 2 * step - 1), Range(u + step, u + 2 * step - 1)]
  }

  lemma SecondDestination(x: Data, s: State, step: nat, u: nat, row: seq<Range>) returns (t: State)
    requires IsLopsided(x, step, u) && Open(x, s, 1, 0, AheadByABucket(step, u), [row])
    ensures Open(x, t, 2, 0, ThirdStart(step, u), [row, SecondRow(step, u)]) && Result(x, s) == Result(x, t)
  {
    hide *;
    LopsidedIsData(x, step, u);
    SecondIsPossible(x, step, u);
    var w, cs := x.stairs[0].At(step), SecondWindows(x, step, u);
    var s0 := SecondRequest(x, s, step, u, [row]);
    var s1 := Detail(x, s0, 1, u, cs, [row], 1, u + 2 * step, w);
    var cs1 := After(cs, 1, u + 2 * step);
    var s2 := Detail(x, s1, 1, u + 2 * step, cs1, [row], 0, 2 * step, w);
    t := NextDestination(x, s2, 1, After(cs1, 0, 2 * step), [row]);
    assert [row] + [SecondRow(step, u)] == [row, SecondRow(step, u)];
  }

  // ----- the third destination -----

  lemma ThirdIsPossible(x: Data, step: nat, u: nat)
    requires IsLopsided(x, step, u)
    ensures |x.stairs| == 3
    ensures var w, cs := x.stairs[0].At(step), ThirdStart(step, u);
      && cs[0].pos == 2 * step && u - step >= 0
      && CanSkip(x, 0, cs, 0, u + step, w) && CanRequest(x, u - step, After(cs, 0, u + step), 0, w)
  {
    BucketBeforeLast(u, step);
  }

  lemma ThirdDestination(x: Data, s: State, step: nat, u: nat, rows: seq<seq<Range>>)
    requires IsLopsided(x, step, u) && Open(x, s, 2, 0, ThirdStart(step, u), rows)
    ensures Result(x, s).Done? && |Result(x, s).rows| == |rows| + 1 && Result(x, s).rows[..|rows|] == rows
  {
    hide *;
    LopsidedIsData(x, step, u);
    ThirdIsPossible(x, step, u);
    var w, cs := x.stairs[0].At(step), ThirdStart(step, u);
    var s1 := Skip(x, s, 2, 0, cs, rows, 0, u + step, w);
    var cs1 := After(cs, 0, u + step);
    var s2 := Request(x, s1, 2, u - step, cs1, rows, 0, w);
    ThirdFinishes(x, s2, u - step + x.step, WindowsOf(x, After(cs1, 0, cs1[0].pos + x.step)), rows);
  }

  lemma ThirdFinishes(x: Data, s: State, count: int, cs: seq<Cursor>, rows: seq<seq<Range>>)
    requires Fetched(x, s, 2, count, cs, rows)
    ensures Result(x, s).Done? && |Result(x, s).rows| == |rows| + 1 && Result(x, s).rows[..|rows|] == rows
  {
    DataIsValid(x);
    hide Inv, Run, Data.Cfg;
    LastDestinationFinishes(x.Cfg(), s);
  }

  // ----- the result -----

  lemma SecondRowDoesNotAgree(x: Data, step: nat, u: nat)
    requires IsLopsided(x, step, u)
    ensures x.Valid() && x.Cfg().Valid() && RowInRange(x.Cfg(), SecondRow(step, u))
    ensures !BoundaryAgrees(x.Cfg(), SecondRow(step, u))
  {
    DataIsValid(x);
    hide Data.Cfg;
    var row := SecondRow(step, u);
    assert x.Cfg().sources[2][row[2].last] > x.Cfg().sources[0][row[0].last + 1];
  }

  lemma LopsidedRun(x: Data, step: nat, u: nat)
    requires IsLopsided(x, step, u)
    ensures |x.stairs| == 3 && Inv(x.Cfg(), Start(x.Cfg()))
    ensures var o := Result(x, Start(x.Cfg())); o.Done? && |o.rows| == 3 && o.rows[1] == SecondRow(step, u)
  {
    hide *;
    LopsidedIsData(x, step, u);
    var s0 := Opening(x);
    var s1, row := FirstDestination(x, s0, step, u);
    var s2 := SecondDestination(x, s1, step, u, row);
    ThirdDestination(x, s2, step, u, [row, SecondRow(step, u)]);
    var rows := Result(x, s2).rows;
    assert rows[..2][1] == rows[1];
  }

  /** The run finishes, but the second destination gets items 2 of source 2, and the third one items 1
      of source 0; for buckets of any width but one, and any number of them. */
  lemma FinishedButNotSorted(step: nat, u: nat, outputs: seq<seq<Item>>)
    requires WholeBuckets(step, u) && step >= 2
    ensures var cfg := Lopsided(step, u).Cfg();
      && cfg.Valid() && cfg.step == step && cfg.n == u + 3 * step && Inv(cfg, Start(cfg))
      && var o := Run(cfg, Start(cfg));
         o.Done? && !BoundariesAgree(cfg, o.rows) && (Delivered(cfg, o.rows, outputs) ==> !Sorted(Flatten(outputs)))
  {
    var x := Lopsided(step, u);
    LopsidedRun(x, step, u);
    DataIsValid(x);
    SecondRowDoesNotAgree(x, step, u);
    hide Run, Inv, Data.Cfg, Start, BoundaryAgrees;
    var o := Run(x.Cfg(), Start(x.Cfg()));
    RunKeepsPromises(x.Cfg(), Start(x.Cfg()));
    if Delivered(x.Cfg(), o.rows, outputs) { SortIsCorrectExactly(x.Cfg(), o, outputs); }
  }
}
