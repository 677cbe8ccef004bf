/** Several passes at once: for following a run of the analyser on given data. */
module Stretches {
  import opened Sorting
  import opened Sums
  import opened RangeCuts

  /** The items of source i up to place q are picked before those at the other cursors. */
  ghost predicate Leads(cfg: Config, cs: seq<Cursor>, i: nat, q: nat)
    requires InRange(cfg, cs) && i < |cs| && q <= cfg.n
  {
    forall k, j :: cs[i].pos <= k < q && 0 <= j < |cs| && j != i && !cs[j].complete ==>
      cfg.sources[i][k] <= Value(cfg, cs, j) && (j > i ==> cfg.sources[i][k] < Value(cfg, cs, j))
  }

  ghost predicate CanMoveTo(cfg: Config, s: State, i: nat, q: nat) {
    && Inv(cfg, s) && s.fetched && i < |s.cursors| && s.cursors[i].window.Detailed? && !s.cursors[i].complete
    && s.cursors[i].pos <= q < s.cursors[i].window.hi <= cfg.n
    && s.count + (q - s.cursors[i].pos) <= cfg.n
    && Leads(cfg, s.cursors, i, q)
  }

  lemma LeaderIsPicked(cfg: Config, cs: seq<Cursor>, i: nat, q: nat)
    requires InRange(cfg, cs) && i < |cs| && !cs[i].complete && cs[i].pos < q <= cfg.n && Leads(cfg, cs, i, q)
    ensures Pick(cfg, cs, |cs|) == i
  {
    assert Value(cfg, cs, i) == cfg.sources[i][cs[i].pos];
    assert forall j :: 0 <= j < |cs| && j != i && !cs[j].complete ==> Value(cfg, cs, i) <= Value(cfg, cs, j);
  }

  /** A pass that moves the picked cursor inside its detailed histogram. */
  lemma DetailedPass(cfg: Config, s: State, i: nat)
    requires Inv(cfg, s) && s.fetched && s.count < cfg.n && i < |s.cursors|
    requires Pick(cfg, s.cursors, |s.cursors|) == i
    requires s.cursors[i].window.Detailed? && s.cursors[i].pos + 1 < s.cursors[i].window.hi <= cfg.n
    ensures Pass(cfg, s) == StepResult.Next(Moved(cfg, s, i))
    ensures Moved(cfg, s, i).count == s.count + 1
  {
    assert Synced(cfg, s) == s;
    MoveCounts(cfg, s, i);
  }

  /** One of the detailed moves. */
  lemma MoveOn(cfg: Config, s: State, i: nat, q: nat)
    requires CanMoveTo(cfg, s, i, q) && s.cursors[i].pos < q
    ensures Pass(cfg, s).Next?
    ensures var t := Pass(cfg, s).state;
      && t.cursors == s.cursors[i := s.cursors[i].(pos := s.cursors[i].pos + 1)] && t.count == s.count + 1
      && t.dest == s.dest && t.fetched && t.rows == s.rows && Inv(cfg, t) && CanMoveTo(cfg, t, i, q)
    ensures Run(cfg, s) == Run(cfg, Pass(cfg, s).state)
  {
    hide Pick, Quota, Order, History, CursorOk, Total;
    LeaderIsPicked(cfg, s.cursors, i, q);
    DetailedPass(cfg, s, i);
    PassKeepsInv(cfg, s);
    LeadsOn(cfg, s.cursors, i, q, Moved(cfg, s, i).cursors);
    hide Pass, Leads;
  }

  lemma LeadsOn(cfg: Config, cs: seq<Cursor>, i: nat, q: nat, cs': seq<Cursor>)
    requires InRange(cfg, cs) && InRange(cfg, cs') && i < |cs| && q <= cfg.n && Leads(cfg, cs, i, q)
    requires cs' == cs[i := cs[i].(pos := cs[i].pos + 1)]
    ensures Leads(cfg, cs', i, q)
  {
    assert forall j :: 0 <= j < |cs| && j != i ==> Value(cfg, cs', j) == Value(cfg, cs, j);
  }

  /** A stretch of detailed moves of one cursor. */
  lemma {:induction false} MovesTo(cfg: Config, s: State, i: nat, q: nat) returns (t: State)
    requires CanMoveTo(cfg, s, i, q)
    ensures t.cursors == s.cursors[i := s.cursors[i].(pos := q)] && t.count == s.count + (q - s.cursors[i].pos)
    ensures t.dest == s.dest && t.fetched && t.rows == s.rows && Inv(cfg, t)
    ensures Run(cfg, s) == Run(cfg, t)
    decreases q - s.cursors[i].pos
  {
    hide Inv, Leads, Run;
    if s.cursors[i].pos == q {
      t := s;
    } else {
      MoveOn(cfg, s, i, q);
      t := MovesTo(cfg, Pass(cfg, s).state, i, q);
    }
  }

  /** The coarse move that is followed by the request for detailed histograms. */
  lemma RequestPass(cfg: Config, s: State, cs: seq<Cursor>, i: nat) returns (t: State)
    requires Inv(cfg, s) && s.count < cfg.n && !s.fetched && InRange(cfg, cs) && Synced(cfg, s).cursors == cs
    requires forall j :: 0 <= j < |cs| ==> cs[j].window.Coarse?
    requires i < |cs| && Pick(cfg, cs, |cs|) == i && cs[i].pos + cfg.step < cfg.n
    requires s.count + cfg.step + cfg.Width() >= cfg.n
    ensures t.cursors == FetchAll(cs[i := Advance(cs[i], cfg.step)], cfg.Width(), cfg.n)
    ensures t.count == s.count + cfg.step
    ensures t.dest == s.dest && t.fetched && t.rows == s.rows && Inv(cfg, t)
    ensures Run(cfg, s) == Run(cfg, t)
  {
    hide Pick, Shape, Quota, Order, History, CursorOk, Total;
    SyncKeepsInv(cfg, s);
    RequestCounts(cfg, Synced(cfg, s), i);
    PassKeepsInv(cfg, s);
    t := FetchedAll(cfg, Moved(cfg, Synced(cfg, s), i));
    assert Pass(cfg, s) == StepResult.Next(t);
  }

  lemma RequestCounts(cfg: Config, s: State, i: nat)
    requires Inv(cfg, s) && InSync(cfg, s) && s.count < cfg.n && i < |s.cursors|
    requires forall j :: 0 <= j < |s.cursors| ==> s.cursors[j].window.Coarse?
    requires i == Pick(cfg, s.cursors, |s.cursors|) && s.cursors[i].pos + cfg.step < cfg.n
    requires s.count + cfg.step + cfg.Width() >= cfg.n
    ensures PassFrom(cfg, s) == StepResult.Next(FetchedAll(cfg, Moved(cfg, s, i)))
    ensures Moved(cfg, s, i).count == s.count + cfg.step
  {
    hide Quota, Order, History, Total, Pick, CursorOk;
    MoveCounts(cfg, s, i);
  }

  /** Once the last detailed histograms have been requested, the run finishes. */
  lemma {:induction false} LastDestinationFinishes(cfg: Config, s: State)
    requires Inv(cfg, s) && LastRequested(cfg, s)
    ensures Run(cfg, s).Done? && |Run(cfg, s).rows| == |s.rows| + 1 && Run(cfg, s).rows[..|s.rows|] == s.rows
    decreases cfg.n - s.count
  {
    if s.count < cfg.n {
      LastPassGoesOn(cfg, s);
      LastDestinationFinishes(cfg, Pass(cfg, s).state);
    }
  }

  lemma LastPassGoesOn(cfg: Config, s: State)
    requires Inv(cfg, s) && LastRequested(cfg, s) && s.count < cfg.n
    ensures Pass(cfg, s).Next?
    ensures var t := Pass(cfg, s).state;
      Inv(cfg, t) && LastRequested(cfg, t) && t.rows == s.rows && t.count > s.count
    ensures Run(cfg, s) == Run(cfg, Pass(cfg, s).state)
  {
    hide Quota, Order, History, Total;
    assert Synced(cfg, s) == s;
    SomeCursorIsActive(cfg, s);
    assert CursorOk(cfg, s, s.cursors[Pick(cfg, s.cursors, |s.cursors|)]);
    PassKeepsInv(cfg, s);
  }

  lemma GoesOnReopened(cfg: Config, s: State)
    requires Inv(cfg, s) && s.count >= cfg.n && s.dest + 1 < cfg.Len()
    ensures Inv(cfg, Reopened(Closed(s))) && Run(cfg, s) == Run(cfg, Reopened(Closed(s)))
  {
    ReopenKeepsInv(cfg, s);
  }

  // ----- coarse moves -----

  /** Cursor i is coarse, and moves on to place q, some buckets further on, without a request. */
  ghost predicate CanSkipTo(cfg: Config, s: State, cs: seq<Cursor>, i: nat, q: nat) {
    && Inv(cfg, s) && !s.fetched && InRange(cfg, cs) && Synced(cfg, s).cursors == cs
    && i < |cs| && cs[i].window.Coarse? && !cs[i].complete && cs[i].pos <= q < cfg.n
    && (q - cs[i].pos) % cfg.step == 0
    && s.count + (q - cs[i].pos) + cfg.Width() < cfg.n
    && (cs[i].pos < q ==> cfg.step <= q && Leads(cfg, cs, i, q - cfg.step + 1))
  }

  /** A coarse move that calls for no request. */
  lemma CoarsePass(cfg: Config, s: State, cs: seq<Cursor>, i: nat)
    requires Inv(cfg, s) && s.count < cfg.n && !s.fetched && InRange(cfg, cs) && Synced(cfg, s).cursors == cs
    requires i < |cs| && cs[i].window.Coarse? && !cs[i].complete && cs[i].pos + cfg.step < cfg.n
    requires Pick(cfg, cs, |cs|) == i && s.count + cfg.step + cfg.Width() < cfg.n
    ensures Pass(cfg, s) == StepResult.Next(Moved(cfg, Synced(cfg, s), i))
    ensures Moved(cfg, Synced(cfg, s), i).count == s.count + cfg.step
  {
    hide Pick, Shape, Quota, Order, History, CursorOk, Total;
    SyncKeepsInv(cfg, s);
    MoveCounts(cfg, Synced(cfg, s), i);
  }

  /** Once in sync, cursors stay in sync. */
  lemma SyncedOnce(cfg: Config, s: State, cs: seq<Cursor>, i: nat)
    requires cfg.step > 0 && !s.fetched && Synced(cfg, s).cursors == cs && i < |cs| && cs[i].window.Coarse?
    requires InRange(cfg, cs)
    ensures var t := Moved(cfg, Synced(cfg, s), i);
      Synced(cfg, t).cursors == t.cursors == cs[i := Advance(cs[i], cfg.step)]
  {
    hide Total;
    var t := Moved(cfg, Synced(cfg, s), i);
    if s.dest > 0 {
      forall j | 0 <= j < |cs| ensures Resync(t.cursors[j], cfg.step) == t.cursors[j] {
        assert cs[j] == Resync(s.cursors[j], cfg.step);
      }
      assert ResyncAll(t.cursors, cfg.step) == t.cursors;
    }
  }

  /** A stretch of coarse moves of one cursor. */
  lemma {:induction false} SkipsTo(cfg: Config, s: State, cs: seq<Cursor>, i: nat, q: nat) returns (t: State)
    requires CanSkipTo(cfg, s, cs, i, q)
    ensures Inv(cfg, t) && !t.fetched && t.dest == s.dest && t.rows == s.rows
    ensures Synced(cfg, t).cursors == cs[i := cs[i].(pos := q)] && t.count == s.count + (q - cs[i].pos)
    ensures Run(cfg, s) == Run(cfg, t)
    decreases q - cs[i].pos
  {
    if cs[i].pos == q {
      t := s;
      assert cs[i := cs[i].(pos := q)] == cs;
    } else {
      SkipOnce(cfg, s, cs, i, q);
      var s1 := Pass(cfg, s).state;
      hide Inv, Leads, Run, Pass, CanSkipTo;
      t := SkipsTo(cfg, s1, cs[i := cs[i].(pos := cs[i].pos + cfg.step)], i, q);
    }
  }

  lemma SkipOnce(cfg: Config, s: State, cs: seq<Cursor>, i: nat, q: nat)
    requires CanSkipTo(cfg, s, cs, i, q) && cs[i].pos < q
    ensures cfg.step > 0 && cs[i].pos + cfg.step <= q && s.count < cfg.n && Pass(cfg, s).Next?
    ensures var t := Pass(cfg, s).state;
      && CanSkipTo(cfg, t, cs[i := cs[i].(pos := cs[i].pos + cfg.step)], i, q)
      && t.dest == s.dest && t.rows == s.rows && t.count == s.count + cfg.step
    ensures Run(cfg, s) == Run(cfg, Pass(cfg, s).state)
  {
    hide Pick, Shape, Quota, Order, History, CursorOk, Total;
    BucketsAhead(q - cs[i].pos, cfg.step);
    LeaderIsPicked(cfg, cs, i, q - cfg.step + 1);
    CoarsePass(cfg, s, cs, i);
    SyncedOnce(cfg, s, cs, i);
    PassKeepsInv(cfg, s);
    LeadsBehind(cfg, cs, i, q - cfg.step + 1, cs[i].pos + cfg.step);
    hide Pass, Leads;
  }

  lemma BucketsAhead(x: nat, step: nat)
    requires step > 0 && x > 0 && x % step == 0
    ensures x >= step && (x - step) % step == 0
  {
    MultiplesWithinStep(step, x, step);
    StepKeepsRemainder(x - step, step);
  }

  lemma LeadsBehind(cfg: Config, cs: seq<Cursor>, i: nat, q: nat, p: nat)
    requires InRange(cfg, cs) && i < |cs| && q <= cfg.n && Leads(cfg, cs, i, q) && cs[i].pos <= p < cfg.n
    ensures Leads(cfg, cs[i := cs[i].(pos := p)], i, q)
  {
    var cs' := cs[i := cs[i].(pos := p)];
    assert forall j :: 0 <= j < |cs| && j != i ==> Value(cfg, cs', j) == Value(cfg, cs, j);
  }

  // ----- the three ways to get stuck -----

  /** The picked cursor stands in the last bucket: the next one does not exist. */
  lemma PastTheLastBucket(cfg: Config, s: State, cs: seq<Cursor>, i: nat)
    requires Inv(cfg, s) && s.count < cfg.n && !s.fetched && InRange(cfg, cs) && Synced(cfg, s).cursors == cs
    requires i < |cs| && cs[i].window.Coarse? && Pick(cfg, cs, |cs|) == i && cs[i].pos + cfg.step >= cfg.n
    ensures Run(cfg, s) == Stuck(PastLastBucket)
  {
    hide Pick, Shape, Quota, Order, History, Total;
    SyncKeepsInv(cfg, s);
  }

  /** A coarse move calls for a request, and another cursor has not given up its detailed histogram. */
  lemma HeldAtTheRequest(cfg: Config, s: State, cs: seq<Cursor>, i: nat, j: nat)
    requires Inv(cfg, s) && s.count < cfg.n && !s.fetched && InRange(cfg, cs) && Synced(cfg, s).cursors == cs
    requires i < |cs| && cs[i].window.Coarse? && Pick(cfg, cs, |cs|) == i && cs[i].pos + cfg.step < cfg.n
    requires s.count + cfg.step + cfg.Width() >= cfg.n && j < |cs| && j != i && cs[j].window.Detailed?
    ensures Run(cfg, s) == Stuck(DetailedStillHeld)
  {
    hide Pick, Shape, Quota, Order, History, CursorOk, Total;
    SyncKeepsInv(cfg, s);
    MoveCounts(cfg, Synced(cfg, s), i);
    assert Moved(cfg, Synced(cfg, s), i).cursors[j] == cs[j];
  }

  /** The picked cursor stands at the end of a detailed histogram that is not the last one. */
  lemma UsedUpTooEarly(cfg: Config, s: State, cs: seq<Cursor>, i: nat)
    requires Inv(cfg, s) && s.count < cfg.n && !LastRequested(cfg, s)
    requires InRange(cfg, cs) && Synced(cfg, s).cursors == cs
    requires i < |cs| && cs[i].window.Detailed? && cs[i].pos + 1 == cs[i].window.hi && Pick(cfg, cs, |cs|) == i
    ensures Run(cfg, s) == Stuck(CompletedTooEarly)
  {
    hide Pick, Shape, Quota, Order, History, Total;
    SyncKeepsInv(cfg, s);
  }
}
