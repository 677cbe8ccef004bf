/** What one pass of the analyser does, and how its runs end, said of the cursors alone. */
module Passes {
  import opened Sorting
  import opened Sums
  import opened RangeCuts

  // ----- one pass -----

  /** cs are the cursors of s, back on the coarse histogram wherever a bucket starts, if they may
      go back by now: not for the first destination, nor after the request. */
  ghost predicate AreSynced(cfg: Config, s: State, cs: seq<Cursor>)
    requires cfg.step > 0
  {
    |cs| == |s.cursors| && forall j :: 0 <= j < |cs| ==>
      cs[j] == if s.dest > 0 && !s.fetched && s.cursors[j].window.Detailed? && s.cursors[j].pos % cfg.step == 0
               then s.cursors[j].(window := Coarse) else s.cursors[j]
  }

  /** Cursor i shows a least value among those that are not complete, and is the last that does. */
  ghost predicate IsLeast(cfg: Config, cs: seq<Cursor>, i: nat)
    requires InRange(cfg, cs)
  {
    i < |cs| && !cs[i].complete && forall j :: 0 <= j < |cs| && j != i && !cs[j].complete ==>
      cfg.sources[i][cs[i].pos] <= cfg.sources[j][cs[j].pos] &&
      (j > i ==> cfg.sources[i][cs[i].pos] < cfg.sources[j][cs[j].pos])
  }

  /** The pass that starts in s synchronises the cursors to cs and moves cursor i. */
  ghost predicate Selects(cfg: Config, s: State, cs: seq<Cursor>, i: nat) {
    cfg.step > 0 && AreSynced(cfg, s, cs) && InRange(cfg, cs) && IsLeast(cfg, cs, i)
  }

  /** There is exactly one way to synchronise, and exactly one cursor to move. */
  lemma SyncedAndLeast(cfg: Config, s: State) returns (cs: seq<Cursor>, i: nat)
    requires Inv(cfg, s) && s.count < cfg.n
    ensures Selects(cfg, s, cs, i)
  {
    SyncKeepsInv(cfg, s);
    SomeCursorIsActive(cfg, Synced(cfg, s));
    SyncedAre(cfg, s);
    cs := Synced(cfg, s).cursors;
    i := Pick(cfg, cs, |cs|);
    hide *;
    PickedIsLeast(cfg, s, cs, i);
  }

  lemma PickedIsLeast(cfg: Config, s: State, cs: seq<Cursor>, i: nat)
    requires cfg.step > 0 && AreSynced(cfg, s, cs) && InRange(cfg, cs) && i == Pick(cfg, cs, |cs|)
    ensures Selects(cfg, s, cs, i)
  {
    assert forall j :: 0 <= j < |cs| ==> Value(cfg, cs, j) == cfg.sources[j][cs[j].pos];
  }

  lemma SyncedAre(cfg: Config, s: State)
    requires Inv(cfg, s)
    ensures AreSynced(cfg, s, Synced(cfg, s).cursors) && InRange(cfg, Synced(cfg, s).cursors)
  {
    hide Quota, Order, History, CursorOk, Total;
  }

  lemma SyncedIs(cfg: Config, s: State, cs: seq<Cursor>)
    requires Inv(cfg, s) && AreSynced(cfg, s, cs)
    ensures Synced(cfg, s).cursors == cs && InRange(cfg, cs)
  {
    hide Quota, Order, History, CursorOk, Total;
  }

  lemma LeastIsPicked(cfg: Config, cs: seq<Cursor>, i: nat)
    requires InRange(cfg, cs) && IsLeast(cfg, cs, i)
    ensures Pick(cfg, cs, |cs|) == i
  {
    assert forall j :: 0 <= j < |cs| ==> Value(cfg, cs, j) == cfg.sources[j][cs[j].pos];
  }

  ghost predicate OtherIsHeld(cs: seq<Cursor>, i: nat) {
    exists j :: 0 <= j < |cs| && j != i && cs[j].window.Detailed?
  }

  /** Why a pass gets stuck, if it does. */
  ghost predicate StuckFor(cfg: Config, s: State, cs: seq<Cursor>, i: nat, reason: StuckReason) {
    i < |cs| &&
    match reason
    case PastLastBucket => cs[i].window.Coarse? && cs[i].pos + cfg.step >= cfg.n
    case DetailedStillHeld =>
      && cs[i].window.Coarse? && cs[i].pos + cfg.step < cfg.n && s.count + cfg.step + cfg.Width() >= cfg.n
      && OtherIsHeld(cs, i)
    case CompletedTooEarly =>
      && cs[i].window.Detailed? && cs[i].pos + 1 == cs[i].window.hi
      && !(s.fetched && s.dest + 1 == cfg.Len())
  }

  /** What a pass that goes on makes of the cursors. */
  ghost predicate GoesOn(cfg: Config, s: State, cs: seq<Cursor>, i: nat, t: State) {
    && InRange(cfg, cs) && i < |cs|
    && t.dest == s.dest && t.rows == s.rows && t.cuts == s.cuts && |t.cursors| == |cs|
    && t.picks == s.picks + [cfg.sources[i][cs[i].pos]]
    && t.picked == (if !t.fetched then s.picked else if s.fetched then s.picked + {i} else {})
    && match cs[i].window
       case Coarse =>
         var moved := cs[i := cs[i].(pos := cs[i].pos + cfg.step)];
         && t.count == s.count + cfg.step
         && if s.count + cfg.step + cfg.Width() < cfg.n then t.cursors == moved && t.fetched == s.fetched
            else t.fetched && forall j :: 0 <= j < |cs| ==>
              t.cursors[j] == moved[j].(window := Detailed(moved[j].pos, Min(moved[j].pos + cfg.Width(), cfg.n)))
       case Detailed(_, hi) =>
         && t.count == s.count + 1 && t.fetched == s.fetched
         && t.cursors == cs[i := if cs[i].pos + 1 == hi then cs[i].(complete := true) else cs[i].(pos := cs[i].pos + 1)]
  }

  /** What a move leaves alone, and what it notes about the pick. */
  ghost predicate RemembersPick(cfg: Config, s: State, i: nat, t: State) {
    && i < |s.cursors| && InRange(cfg, s.cursors) && t.cuts == s.cuts
    && t.picks == s.picks + [cfg.sources[i][s.cursors[i].pos]]
    && t.picked == if s.fetched then s.picked + {i} else s.picked
  }

  /** The cursors after a coarse move. */
  lemma CoarseMove(cfg: Config, s: State, i: nat)
    requires Inv(cfg, s) && InSync(cfg, s) && s.count < cfg.n && i < |s.cursors| && s.cursors[i].window.Coarse?
    requires !s.cursors[i].complete && s.cursors[i].pos + cfg.step < cfg.n
    ensures var t := Moved(cfg, s, i);
      && RemembersPick(cfg, s, i, t)
      && t.cursors == s.cursors[i := s.cursors[i].(pos := s.cursors[i].pos + cfg.step)]
      && t.count == s.count + cfg.step && t.dest == s.dest && t.rows == s.rows && t.fetched == s.fetched
      && (NearQuota(cfg, t, i) <==> s.count + cfg.step + cfg.Width() >= cfg.n)
      && ((exists j :: 0 <= j < |t.cursors| && t.cursors[j].window.Detailed?) <==> OtherIsHeld(s.cursors, i))
  {
    hide Quota, Order, History, CursorOk, Total;
    MoveCounts(cfg, s, i);
    var cs := s.cursors[i := s.cursors[i].(pos := s.cursors[i].pos + cfg.step)];
    if j :| 0 <= j < |cs| && cs[j].window.Detailed? { assert j != i && s.cursors[j].window.Detailed?; }
    if j :| 0 <= j < |cs| && j != i && s.cursors[j].window.Detailed? { assert cs[j].window.Detailed?; }
  }

  lemma CoarseStep(cfg: Config, s: State, i: nat)
    requires Inv(cfg, s) && InSync(cfg, s) && s.count < cfg.n && i < |s.cursors| && s.cursors[i].window.Coarse?
    requires Pick(cfg, s.cursors, |s.cursors|) == i
    ensures forall reason :: PassFrom(cfg, s) == StepStuck(reason) <==> StuckFor(cfg, s, s.cursors, i, reason)
    ensures PassFrom(cfg, s).Next? ==> GoesOn(cfg, s, s.cursors, i, PassFrom(cfg, s).state)
  {
    hide Inv, Pick, NearQuota, Shape, Quota, Order, History;
    if s.cursors[i].pos + cfg.step < cfg.n {
      CoarseMove(cfg, s, i);
      CoarseMeansUnfetched(cfg, s, i);
      hide Moved;
    }
  }

  lemma CoarseMeansUnfetched(cfg: Config, s: State, i: nat)
    requires Inv(cfg, s) && i < |s.cursors| && s.cursors[i].window.Coarse?
    ensures !s.fetched
  {
    assert CursorOk(cfg, s, s.cursors[i]);
  }

  lemma WindowBounds(cfg: Config, s: State, i: nat)
    requires Inv(cfg, s) && i < |s.cursors| && s.cursors[i].window.Detailed?
    ensures InRange(cfg, s.cursors) && s.cursors[i].pos < s.cursors[i].window.hi <= cfg.n
  {
    assert CursorOk(cfg, s, s.cursors[i]);
  }

  lemma DetailedMove(cfg: Config, s: State, i: nat)
    requires Inv(cfg, s) && InSync(cfg, s) && s.count < cfg.n && i < |s.cursors| && s.cursors[i].window.Detailed?
    requires !s.cursors[i].complete
    ensures var c, t := s.cursors[i], Moved(cfg, s, i);
      && RemembersPick(cfg, s, i, t)
      && t.cursors == s.cursors[i := if c.pos + 1 == c.window.hi then c.(complete := true) else c.(pos := c.pos + 1)]
      && t.dest == s.dest && t.rows == s.rows && t.fetched == s.fetched && !NearQuota(cfg, t, i)
      && t.cursors[i].pos < cfg.n
      && (CanMove(cfg, s, i) ==> t.count == s.count + 1)
  {
    hide Quota, Order, History, CursorOk, Total, Shape;
    WindowBounds(cfg, s, i);
    if CanMove(cfg, s, i) { MoveCounts(cfg, s, i); }
  }

  lemma DetailedStep(cfg: Config, s: State, i: nat)
    requires Inv(cfg, s) && InSync(cfg, s) && s.count < cfg.n && i < |s.cursors| && s.cursors[i].window.Detailed?
    requires Pick(cfg, s.cursors, |s.cursors|) == i
    ensures forall reason :: PassFrom(cfg, s) == StepStuck(reason) <==> StuckFor(cfg, s, s.cursors, i, reason)
    ensures PassFrom(cfg, s).Next? ==> GoesOn(cfg, s, s.cursors, i, PassFrom(cfg, s).state)
  {
    hide Inv, Pick, NearQuota, Shape, Quota, Order, History;
    DetailedMove(cfg, s, i);
    hide Moved;
  }

  lemma StuckForSame(cfg: Config, s: State, t: State, cs: seq<Cursor>, i: nat)
    requires i < |cs| && t == s.(cursors := cs)
    ensures forall reason :: StuckFor(cfg, s, cs, i, reason) == StuckFor(cfg, t, cs, i, reason)
    ensures forall u :: GoesOn(cfg, s, cs, i, u) == GoesOn(cfg, t, cs, i, u)
  {
  }

  /** A pass gets stuck for each of the three reasons exactly under its condition, and in no other
      way. */
  lemma PassExactly(cfg: Config, s: State, cs: seq<Cursor>, i: nat)
    requires Inv(cfg, s) && s.count < cfg.n
    requires Selects(cfg, s, cs, i)
    ensures forall reason :: Pass(cfg, s) == StepStuck(reason) <==> StuckFor(cfg, s, cs, i, reason)
    ensures Pass(cfg, s).Next? ==> GoesOn(cfg, s, cs, i, Pass(cfg, s).state)
  {
    hide Shape, Quota, Order, History, Total, PassFrom, StuckFor, GoesOn, Pick;
    SyncKeepsInv(cfg, s);
    SyncedIs(cfg, s, cs);
    LeastIsPicked(cfg, cs, i);
    var t := Synced(cfg, s);
    StuckForSame(cfg, s, t, cs, i);
    if cs[i].window.Coarse? { CoarseStep(cfg, t, i); } else { DetailedStep(cfg, t, i); }
  }

  /** What the next destination starts with: every cursor where it stands, an empty interval and a
      count of nothing; the row of the last one has been recorded, both ends included. */
  ghost predicate GoesToNext(s: State, t: State) {
    && t.dest == s.dest + 1 && t.count == 0 && !t.fetched && t.picked == {} && t.picks == s.picks
    && |t.cursors| == |s.cursors|
    && (forall j :: 0 <= j < |s.cursors| ==> t.cursors[j] == s.cursors[j].(begin := s.cursors[j].pos))
    && |t.rows| == |s.rows| + 1 && t.rows == s.rows + [t.rows[|s.rows|]] && |t.rows[|s.rows|]| == |s.cursors|
    && (forall j :: 0 <= j < |s.cursors| ==> t.rows[|s.rows|][j] == Range(s.cursors[j].begin, s.cursors[j].pos - 1))
    && t.cuts == s.cuts + [Cut(LastPick(s.picks), s.picked)]
  }

  lemma NoneIsComplete(cfg: Config, s: State)
    requires Inv(cfg, s) && s.dest + 1 < cfg.Len()
    ensures forall j :: 0 <= j < |s.cursors| ==> !s.cursors[j].complete
  {
    forall j | 0 <= j < |s.cursors| ensures !s.cursors[j].complete {
      assert CursorOk(cfg, s, s.cursors[j]);
    }
  }

  lemma ReopenedGoesToNext(s: State)
    requires forall j :: 0 <= j < |s.cursors| ==> !s.cursors[j].complete
    ensures GoesToNext(s, Reopened(Closed(s)))
  {
  }

  /** No source is complete when a destination other than the last one is closed; the state of the
      next one is determined. */
  lemma ReopensExactly(cfg: Config, s: State)
    requires Inv(cfg, s) && s.count >= cfg.n && s.dest + 1 < cfg.Len()
    ensures forall t :: t == Reopened(Closed(s)) <==> GoesToNext(s, t)
  {
    hide *;
    NoneIsComplete(cfg, s);
    ReopenedGoesToNext(s);
    forall t | GoesToNext(s, t) ensures t == Reopened(Closed(s)) {
      OneNextState(s, t, Reopened(Closed(s)));
    }
  }

  lemma OneNextState(s: State, t: State, u: State)
    requires GoesToNext(s, t) && GoesToNext(s, u)
    ensures t == u
  {
    assert t.cursors == u.cursors;
    assert t.rows[|s.rows|] == u.rows[|s.rows|];
  }

  // ----- whole runs -----

  /** A pass gets stuck here, for this reason. */
  ghost predicate GetsStuck(cfg: Config, s: State, reason: StuckReason) {
    Inv(cfg, s) && s.count < cfg.n &&
    exists cs, i: nat :: Selects(cfg, s, cs, i) && StuckFor(cfg, s, cs, i, reason)
  }

  lemma GetsStuckExactly(cfg: Config, s: State, reason: StuckReason)
    requires Inv(cfg, s) && s.count < cfg.n
    ensures GetsStuck(cfg, s, reason) <==> Pass(cfg, s) == StepStuck(reason)
  {
    hide Inv, Pass, Selects, StuckFor;
    if GetsStuck(cfg, s, reason) {
      var cs, i: nat :| Selects(cfg, s, cs, i) && StuckFor(cfg, s, cs, i, reason);
      PassExactly(cfg, s, cs, i);
    }
    if Pass(cfg, s) == StepStuck(reason) {
      var cs, i := SyncedAndLeast(cfg, s);
      PassExactly(cfg, s, cs, i);
    }
  }

  /** From s the analyser gets to t in one pass, or by going on with the next destination. */
  ghost predicate Follows(cfg: Config, s: State, t: State) {
    Inv(cfg, s) && Inv(cfg, t) &&
    if s.count < cfg.n then Pass(cfg, s) == StepResult.Next(t)
    else s.dest + 1 < cfg.Len() && t == Reopened(Closed(s))
  }

  /** The states of a run, one after the other. */
  ghost predicate IsRun(cfg: Config, path: seq<State>) {
    path != [] && Inv(cfg, path[0]) && forall k :: 0 <= k < |path| - 1 ==> Follows(cfg, path[k], path[k + 1])
  }

  /** The last destination's quota is met. */
  ghost predicate IsFinal(cfg: Config, s: State) {
    Inv(cfg, s) && s.count >= cfg.n && s.dest + 1 == cfg.Len()
  }

  lemma RunFollows(cfg: Config, s: State, t: State)
    requires Follows(cfg, s, t)
    ensures Run(cfg, s) == Run(cfg, t)
  {
    hide Inv, Pass;
  }

  lemma {:induction false} RunEndsAlike(cfg: Config, path: seq<State>)
    requires IsRun(cfg, path)
    ensures Inv(cfg, path[|path| - 1]) && Run(cfg, path[0]) == Run(cfg, path[|path| - 1])
  {
    hide Inv, Run, Follows;
    if |path| > 1 {
      assert Follows(cfg, path[0], path[1]);
      FollowsKeepsInv(cfg, path[0], path[1]);
      RunFollows(cfg, path[0], path[1]);
      RunEndsAlike(cfg, path[1..]);
    }
  }

  lemma FollowsKeepsInv(cfg: Config, s: State, t: State)
    requires Follows(cfg, s, t)
    ensures Inv(cfg, s) && Inv(cfg, t)
  {
  }

  /** The outcome of a run whose last state is t. */
  ghost predicate EndsAs(cfg: Config, t: State, o: Outcome) {
    match o
    case Stuck(reason) => GetsStuck(cfg, t, reason)
    case Done(rows, _, _) => IsFinal(cfg, t) && rows == Closed(t).rows
  }

  /** Every run comes to an end: it gets stuck for some reason, or its last quota is met. */
  lemma {:induction false} RunComesToAnEnd(cfg: Config, s: State) returns (path: seq<State>)
    requires Inv(cfg, s)
    ensures IsRun(cfg, path) && |path| > 0 && path[0] == s && EndsAs(cfg, path[|path| - 1], Run(cfg, s))
    decreases cfg.Len() - s.dest, cfg.n - s.count
  {
    path := [s];
    hide Shape, Quota, Order, History, PassFrom, Synced, Follows, GetsStuck, EndsAs, Run;
    if s.count < cfg.n {
      PassKeepsInv(cfg, s);
      match Pass(cfg, s) {
        case StepStuck(reason) => StuckIsTheEnd(cfg, s, reason);
        case Next(t) =>
          var rest := RunComesToAnEnd(cfg, t);
          PassFollows(cfg, s, t);
          RunFollows(cfg, s, t);
          path := Prepend(cfg, s, rest);
      }
    } else if s.dest + 1 < cfg.Len() {
      ReopenKeepsInv(cfg, s);
      var rest := RunComesToAnEnd(cfg, Reopened(Closed(s)));
      ReopeningFollows(cfg, s);
      RunFollows(cfg, s, Reopened(Closed(s)));
      path := Prepend(cfg, s, rest);
    } else {
      LastQuotaIsTheEnd(cfg, s);
    }
  }

  lemma StuckIsTheEnd(cfg: Config, s: State, reason: StuckReason)
    requires Inv(cfg, s) && s.count < cfg.n && Pass(cfg, s) == StepStuck(reason)
    ensures EndsAs(cfg, s, Run(cfg, s))
  {
    GetsStuckExactly(cfg, s, reason);
    hide Inv, Pass, GetsStuck;
  }

  lemma LastQuotaIsTheEnd(cfg: Config, s: State)
    requires Inv(cfg, s) && s.count >= cfg.n && s.dest + 1 >= cfg.Len()
    ensures EndsAs(cfg, s, Run(cfg, s))
  {
    hide Quota, Order, RowsAndCutsHold;
    assert s.dest < cfg.Len();
    hide Inv;
  }

  lemma PassFollows(cfg: Config, s: State, t: State)
    requires Inv(cfg, s) && Inv(cfg, t) && s.count < cfg.n && Pass(cfg, s) == StepResult.Next(t)
    ensures Follows(cfg, s, t)
  {
  }

  lemma ReopeningFollows(cfg: Config, s: State)
    requires Inv(cfg, s) && s.count >= cfg.n && s.dest + 1 < cfg.Len()
    ensures Follows(cfg, s, Reopened(Closed(s)))
  {
    ReopenKeepsInv(cfg, s);
  }

  lemma Prepend(cfg: Config, s: State, rest: seq<State>) returns (path: seq<State>)
    requires IsRun(cfg, rest) && Follows(cfg, s, rest[0])
    ensures IsRun(cfg, path) && path[0] == s && path[|path| - 1] == rest[|rest| - 1]
  {
    hide Inv, Follows;
    FollowsKeepsInv(cfg, s, rest[0]);
    path := [s] + rest;
    assert path[1] == rest[0];
    assert forall k :: 1 <= k < |path| ==> path[k] == rest[k - 1];
    forall k | 0 <= k < |path| - 1 ensures Follows(cfg, path[k], path[k + 1]) {
      if k > 0 { assert Follows(cfg, rest[k - 1], rest[k - 1 + 1]); }
    }
  }

  ghost predicate IsStuckRun(cfg: Config, path: seq<State>, s: State, reason: StuckReason) {
    IsRun(cfg, path) && path[0] == s && GetsStuck(cfg, path[|path| - 1], reason)
  }

  ghost predicate IsFullRun(cfg: Config, path: seq<State>, s: State) {
    IsRun(cfg, path) && path[0] == s && IsFinal(cfg, path[|path| - 1])
  }

  /** A run gets stuck for a reason exactly if it reaches a state in which that reason holds. */
  lemma RunGetsStuckExactly(cfg: Config, s: State, reason: StuckReason)
    requires Inv(cfg, s)
    ensures Run(cfg, s) == Stuck(reason) <==> exists path :: IsStuckRun(cfg, path, s, reason)
  {
    hide *;
    var path := RunComesToAnEnd(cfg, s);
    if Run(cfg, s) == Stuck(reason) { IsThatRun(cfg, path, s, reason); }
    if p :| IsStuckRun(cfg, p, s, reason) { StuckAtTheEnd(cfg, p, s, reason); }
  }

  lemma IsThatRun(cfg: Config, path: seq<State>, s: State, reason: StuckReason)
    requires IsRun(cfg, path) && |path| > 0 && path[0] == s && EndsAs(cfg, path[|path| - 1], Stuck(reason))
    ensures IsStuckRun(cfg, path, s, reason)
  {
  }

  /** A run finishes exactly if it reaches the end of the last destination. */
  lemma RunFinishesExactly(cfg: Config, s: State)
    requires Inv(cfg, s)
    ensures Run(cfg, s).Done? <==> exists path :: IsFullRun(cfg, path, s)
  {
    hide *;
    var path := RunComesToAnEnd(cfg, s);
    if Run(cfg, s).Done? { IsThatFullRun(cfg, path, s, Run(cfg, s)); }
    if p :| IsFullRun(cfg, p, s) { DoneAtTheEnd(cfg, p, s); }
  }

  lemma IsThatFullRun(cfg: Config, path: seq<State>, s: State, o: Outcome)
    requires IsRun(cfg, path) && |path| > 0 && path[0] == s && o.Done? && EndsAs(cfg, path[|path| - 1], o)
    ensures IsFullRun(cfg, path, s)
  {
  }

  lemma StuckAtTheEnd(cfg: Config, path: seq<State>, s: State, reason: StuckReason)
    requires IsStuckRun(cfg, path, s, reason)
    ensures Inv(cfg, s) && Run(cfg, s) == Stuck(reason)
  {
    RunEndsAlike(cfg, path);
    var t := path[|path| - 1];
    assert t.count < cfg.n;
    GetsStuckExactly(cfg, t, reason);
    hide Inv, Pass, Follows;
  }

  lemma DoneAtTheEnd(cfg: Config, path: seq<State>, s: State)
    requires IsFullRun(cfg, path, s)
    ensures Inv(cfg, s) && Run(cfg, s).Done?
  {
    RunEndsAlike(cfg, path);
    hide Inv, Pass, Follows;
  }
}
