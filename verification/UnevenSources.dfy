/** Data on which the analyser does get stuck. */
module UnevenSources {
  import opened Sorting
  import opened Sums
  import opened RangeCuts
  import opened Stretches
  import opened EndToEnd
  import EvenSources

  /** No item of source m is above any item of another source; on a tie, the later source goes first. */
  ghost predicate HoldsSmallest(cfg: Config, m: nat) {
    cfg.Valid() && m < cfg.Len() && cfg.Len() >= 2 &&
    forall j :: 0 <= j < cfg.Len() && j != m ==>
      cfg.sources[m][cfg.n - 1] <= cfg.sources[j][0] && (j > m ==> cfg.sources[m][cfg.n - 1] < cfg.sources[j][0])
  }

  ghost predicate OnlyMoved(cfg: Config, s: State, m: nat) {
    s.dest == 0 && m < |s.cursors| && forall j :: 0 <= j < |s.cursors| && j != m ==> s.cursors[j].pos == 0
  }

  lemma SmallestIsPicked(cfg: Config, s: State, m: nat)
    requires HoldsSmallest(cfg, m) && Inv(cfg, s) && OnlyMoved(cfg, s, m)
    ensures Pick(cfg, s.cursors, |s.cursors|) == m
  {
    assert CursorOk(cfg, s, s.cursors[m]);
    hide Quota, Order, History, Total;
    assert Value(cfg, s.cursors, m) <= cfg.sources[m][cfg.n - 1];
    forall j | 0 <= j < |s.cursors| && j != m
      ensures Value(cfg, s.cursors, m) <= Value(cfg, s.cursors, j)
      ensures j > m ==> Value(cfg, s.cursors, m) < Value(cfg, s.cursors, j)
    {
      assert Value(cfg, s.cursors, j) == cfg.sources[j][0];
    }
  }

  /** A pass moves the picked cursor only. */
  lemma PassMovesPicked(cfg: Config, s: State, i: nat)
    requires InRange(cfg, s.cursors) && i < |s.cursors| && Pick(cfg, s.cursors, |s.cursors|) == i
    requires PassFrom(cfg, s).Next?
    ensures var t := PassFrom(cfg, s).state;
      t.dest == s.dest && |t.cursors| == |s.cursors| &&
      forall j :: 0 <= j < |s.cursors| && j != i ==> t.cursors[j].pos == s.cursors[j].pos
  {
    hide Pick, Total;
  }

  lemma OnlySmallestMoves(cfg: Config, s: State, m: nat)
    requires HoldsSmallest(cfg, m) && Inv(cfg, s) && OnlyMoved(cfg, s, m) && s.count < cfg.n
    ensures Pass(cfg, s).Next? ==> OnlyMoved(cfg, Pass(cfg, s).state, m)
  {
    SmallestIsPicked(cfg, s, m);
    assert Synced(cfg, s) == s;
    if Pass(cfg, s).Next? {
      hide Pick, PassFrom, Quota, Order, History;
      PassMovesPicked(cfg, s, m);
    }
  }

  /** When one source holds the smallest items, it is used up by the first destination, and the run
      gets stuck. */
  lemma {:induction false} SmallestSourceGetsStuck(cfg: Config, m: nat, s: State)
    requires HoldsSmallest(cfg, m) && Inv(cfg, s) && OnlyMoved(cfg, s, m)
    ensures Run(cfg, s).Stuck?
    decreases cfg.n - s.count
  {
    if s.count < cfg.n {
      PassKeepsInv(cfg, s);
      OnlySmallestMoves(cfg, s, m);
      if Pass(cfg, s).Next? { SmallestSourceGetsStuck(cfg, m, Pass(cfg, s).state); }
    } else {
      OneSourceCannotFillQuota(cfg, s, m);
      assert false;
    }
  }

  /** Data that is already partitioned cannot be sorted, from the start on. */
  lemma PartitionedDataGetsStuck(cfg: Config, m: nat)
    requires HoldsSmallest(cfg, m)
    ensures Inv(cfg, Start(cfg)) && Run(cfg, Start(cfg)).Stuck?
  {
    StartHasInv(cfg);
    SmallestSourceGetsStuck(cfg, m, Start(cfg));
  }

  /** Nor can data in which all items are equal, for any number of sources from two on. */
  lemma EqualItemsGetStuck(cfg: Config, v: Item)
    requires cfg.Valid() && cfg.Len() >= 2
    requires forall i, k :: 0 <= i < cfg.Len() && 0 <= k < cfg.n ==> cfg.sources[i][k] == v
    ensures Inv(cfg, Start(cfg)) && Run(cfg, Start(cfg)).Stuck?
  {
    PartitionedDataGetsStuck(cfg, cfg.Len() - 1);
  }

  lemma OneSourceCannotFillQuota(cfg: Config, s: State, m: nat)
    requires HoldsSmallest(cfg, m) && Inv(cfg, s) && OnlyMoved(cfg, s, m)
    ensures s.count < cfg.n
  {
    forall j | 0 <= j < |s.cursors| ensures CursorOk(cfg, s, s.cursors[j]) && !s.cursors[j].complete {
    }
    EndsAreBeginsAndSizes(s.cursors);
    TotalAtMostBut(Ends(s.cursors), 0, m, s.cursors[m].pos);
  }

  // ----- two sources -----

  /** Two perfectly interleaved sources of six items each, in buckets of two. */
  ghost function Interleaved(): Config {
    Config([[0, 2, 4, 6, 8, 10], [1, 3, 5, 7, 9, 11]], 6, 2)
  }

  lemma InterleavedValues()
    ensures Interleaved().Valid() && Interleaved().Len() == 2 && Interleaved().Width() == 4
    ensures Interleaved().n == 6 && Interleaved().step == 2
    ensures forall i, k :: 0 <= i < 2 && 0 <= k < 6 ==> Interleaved().sources[i][k] == 2 * k + i
  {
    forall i, k | 0 <= i < 2 && 0 <= k < 6 ensures Interleaved().sources[i][k] == 2 * k + i {
      assert i == 0 || i == 1;
    }
  }

  lemma InterleavedIsEvenlySpread()
    ensures EvenSources.RankSkewBelow(Interleaved(), 1)
  {
    InterleavedValues();
    hide Interleaved;
  }

  ghost predicate At(s: State, dest: nat, fetched: bool, c: Cursor, d: Cursor) {
    Inv(Interleaved(), s) && s.dest == dest && s.fetched == fetched && s.cursors == [c, d]
  }

  lemma SizeOfTwo(cs: seq<Cursor>)
    requires |cs| == 2
    ensures SizeOf(cs) == cs[0].End() - cs[0].begin + (cs[1].End() - cs[1].begin)
  {
    assert Sizes(cs)[..1][..0] == [];
    assert Total(Sizes(cs)[..1]) == cs[0].End() - cs[0].begin;
  }

  /** One pass over two cursors that the resynchronisation turns into c and d; e and f are the
      cursors after the move. */
  lemma StepOfTwo(s: State, c: Cursor, d: Cursor, i: nat, e: Cursor, f: Cursor)
    requires Inv(Interleaved(), s) && s.count < 6 && Synced(Interleaved(), s).cursors == [c, d]
    requires i < 2 && c.pos < 6 && d.pos < 6 && !c.complete && !d.complete
    requires i == if 2 * d.pos + 1 <= 2 * c.pos then 1 else 0
    requires [e, f] == [c, d][i := Advance([c, d][i], 2)] && e.pos < 6 && f.pos < 6
    ensures Synced(Interleaved(), s).cursors == [c, d]
    ensures ([e, f][i].complete && !LastRequested(Interleaved(), s)) ==>
      Pass(Interleaved(), s) == StepStuck(CompletedTooEarly)
    ensures (![e, f][i].complete && [e, f][i].window.Detailed?) ==>
      Pass(Interleaved(), s).Next? && At(Pass(Interleaved(), s).state, s.dest, s.fetched, e, f)
  {
    InterleavedValues();
    hide Quota, Order, History, Total, Interleaved;
    var cfg := Interleaved();
    var s' := Synced(cfg, s);
    assert Value(cfg, s'.cursors, 0) == 2 * c.pos && Value(cfg, s'.cursors, 1) == 2 * d.pos + 1;
    assert Pick(cfg, s'.cursors, 2) == i;
    PassKeepsInv(cfg, s);
    assert Moved(cfg, s', i).cursors == [e, f];
  }

  lemma RunStep(s: State)
    requires Inv(Interleaved(), s) && s.count < 6 && Pass(Interleaved(), s).Next?
    ensures Inv(Interleaved(), Pass(Interleaved(), s).state)
    ensures Run(Interleaved(), s) == Run(Interleaved(), Pass(Interleaved(), s).state)
  {
    PassKeepsInv(Interleaved(), s);
  }

  lemma CountOf(s: State, dest: nat, fetched: bool, c: Cursor, d: Cursor)
    requires At(s, dest, fetched, c, d)
    ensures s.count == c.End() - c.begin + (d.End() - d.begin)
  {
    SizeOfTwo(s.cursors);
  }

  function First(pos: nat): Cursor {
    Cursor(0, pos, Detailed(2, 6), false)
  }

  function Second(pos: nat): Cursor {
    Cursor(0, pos, Detailed(0, 4), false)
  }

  lemma LeadsOfTwo(cs: seq<Cursor>, i: nat, r: nat)
    requires |cs| == 2 && i < 2 && cs[0].pos < 6 && cs[1].pos < 6 && r <= 6
    requires r <= if i == 0 then cs[1].pos + 1 else cs[0].pos
    ensures InRange(Interleaved(), cs) && Leads(Interleaved(), cs, i, r)
  {
    InterleavedValues();
    assert InRange(Interleaved(), cs);
    hide Interleaved;
    assert Value(Interleaved(), cs, 0) == 2 * cs[0].pos && Value(Interleaved(), cs, 1) == 2 * cs[1].pos + 1;
  }

  /** Source i is ahead of the other one until it has got to place r. */
  lemma StretchOfTwo(s: State, p: nat, q: nat, i: nat, r: nat) returns (t: State)
    requires At(s, 0, true, First(p), Second(q)) && p < 6 && q < 4
    requires if i == 0 then p <= r < 6 && r <= q + 1 && r + q <= 6 else i == 1 && q <= r < 4 && r <= p && p + r <= 6
    ensures At(t, 0, true, First(if i == 0 then r else p), Second(if i == 1 then r else q))
    ensures Run(Interleaved(), s) == Run(Interleaved(), t)
  {
    InterleavedValues();
    CountOf(s, 0, true, First(p), Second(q));
    hide Inv, Run, Interleaved, SizeOf, Leads;
    LeadsOfTwo(s.cursors, i, r);
    t := MovesTo(Interleaved(), s, i, r);
  }

  /** The first destination ends with both cursors at item 3. */
  lemma FirstDestination(s: State) returns (t: State)
    requires Inv(Interleaved(), s) && s == Start(Interleaved())
    ensures At(t, 0, true, First(3), Second(3))
    ensures Run(Interleaved(), s) == Run(Interleaved(), t)
  {
    InterleavedValues();
    hide Inv, Run, Interleaved;
    var cs := [Cursor(0, 0, Coarse, false), Cursor(0, 0, Coarse, false)];
    assert Value(Interleaved(), cs, 0) == 0 && Value(Interleaved(), cs, 1) == 1;
    var s0 := RequestPass(Interleaved(), s, cs, 0);
    assert s0.cursors == [First(2), Second(0)];
    var s1 := StretchOfTwo(s0, 2, 0, 1, 2);
    var s2 := StretchOfTwo(s1, 2, 2, 0, 3);
    t := StretchOfTwo(s2, 3, 2, 1, 3);
  }

  /** The second destination starts with leftover windows; the first source's is given up after
      one move. */
  lemma LeftoverMove(s: State) returns (t: State)
    requires At(s, 1, false, Cursor(3, 3, Detailed(2, 6), false), Cursor(3, 3, Detailed(0, 4), false))
    ensures At(t, 1, false, Cursor(3, 4, Detailed(2, 6), false), Cursor(3, 3, Detailed(0, 4), false))
    ensures Run(Interleaved(), s) == Run(Interleaved(), t)
  {
    var c, d := Cursor(3, 3, Detailed(2, 6), false), Cursor(3, 3, Detailed(0, 4), false);
    CountOf(s, 1, false, c, d);
    hide Pass, Quota, Order, History, Value;
    StepOfTwo(s, c, d, 0, c.(pos := 4), d);
    RunStep(s);
    t := Pass(Interleaved(), s).state;
  }

  /** The second source's window has no bucket to go back to. */
  lemma LeftoverIsUsedUp(s: State)
    requires At(s, 1, false, Cursor(3, 4, Detailed(2, 6), false), Cursor(3, 3, Detailed(0, 4), false))
    ensures Run(Interleaved(), s) == Stuck(CompletedTooEarly)
  {
    InterleavedValues();
    CountOf(s, 1, false, s.cursors[0], s.cursors[1]);
    hide Inv, Run, Interleaved;
    var cs := [Cursor(3, 4, Coarse, false), Cursor(3, 3, Detailed(0, 4), false)];
    assert Synced(Interleaved(), s).cursors == cs;
    assert Value(Interleaved(), cs, 0) == 8 && Value(Interleaved(), cs, 1) == 7;
    UsedUpTooEarly(Interleaved(), s, cs, 1);
  }

  lemma BetweenDestinations(s: State)
    requires At(s, 0, true, First(3), Second(3))
    ensures At(Reopened(Closed(s)), 1, false, Cursor(3, 3, Detailed(2, 6), false), Cursor(3, 3, Detailed(0, 4), false))
    ensures Run(Interleaved(), s) == Run(Interleaved(), Reopened(Closed(s)))
  {
    CountOf(s, 0, true, First(3), Second(3));
    hide Inv, Run, Pass, SizeOf;
    GoesOnReopened(Interleaved(), s);
  }

  /** Two sources are not enough: the analyser gets stuck on these, although their items are
      spread as evenly as possible. */
  lemma TwoSourcesGetStuck()
    ensures EvenSources.RankSkewBelow(Interleaved(), 1)
    ensures Inv(Interleaved(), Start(Interleaved()))
    ensures Run(Interleaved(), Start(Interleaved())) == Stuck(CompletedTooEarly)
  {
    InterleavedValues();
    InterleavedIsEvenlySpread();
    StartHasInv(Interleaved());
    hide Run, Pass, Inv;
    var s := FirstDestination(Start(Interleaved()));
    BetweenDestinations(s);
    var t := LeftoverMove(Reopened(Closed(s)));
    LeftoverIsUsedUp(t);
  }


  // ----- what every finished run needs -----

  /** Before the last destination, no source is used up. */
  ghost predicate LeavesItems(cfg: Config, rows: seq<seq<Range>>) {
    forall d, i :: 0 <= d < |rows| && d + 1 < cfg.Len() && 0 <= i < |rows[d]| ==> rows[d][i].last + 1 < cfg.n
  }

  lemma {:induction false} RunLeavesItems(cfg: Config, s: State)
    requires Inv(cfg, s) && Run(cfg, s).Done? && LeavesItems(cfg, s.rows)
    ensures LeavesItems(cfg, Run(cfg, s).rows)
    decreases cfg.Len() - s.dest, cfg.n - s.count
  {
    if s.count < cfg.n {
      PassKeepsInv(cfg, s);
      RunLeavesItems(cfg, Pass(cfg, s).state);
    } else {
      CloseLeavesItems(cfg, s);
      if s.dest + 1 < cfg.Len() {
        ReopenKeepsInv(cfg, s);
        RunLeavesItems(cfg, Reopened(Closed(s)));
      }
    }
  }

  lemma CloseLeavesItems(cfg: Config, s: State)
    requires Inv(cfg, s) && LeavesItems(cfg, s.rows)
    ensures LeavesItems(cfg, Closed(s).rows)
  {
    hide Quota, Order, RowsAndCutsHold, Total;
    assert |s.rows| == s.dest;
    if s.dest + 1 < cfg.Len() {
      forall i | 0 <= i < |s.cursors| ensures RowOf(s.cursors)[i].last + 1 < cfg.n {
        assert CursorOk(cfg, s, s.cursors[i]);
      }
    }
  }

  /** How many items of each source are at most v. */
  ghost function AtMost(cfg: Config, v: Item): seq<int> {
    seq(cfg.Len(), i requires 0 <= i < cfg.Len() => CountAtMost(cfg.sources[i], v))
  }

  ghost function CountAtMost(s: seq<Item>, v: Item): nat {
    if s == [] then 0 else CountAtMost(s[..|s| - 1], v) + if s[|s| - 1] <= v then 1 else 0
  }

  lemma {:induction false} AtMostOrAbove(s: seq<Item>, v: Item)
    ensures CountAtMost(s, v) + CountAbove(s, v) == |s|
  {
    if s != [] { AtMostOrAbove(s[..|s| - 1], v); }
  }

  /** More items of a longer sequence are at most a greater value. */
  lemma {:induction false} AtMostGrows(s: seq<Item>, k: nat, v: Item, w: Item)
    requires k <= |s| && v <= w
    ensures CountAtMost(s[..k], v) <= CountAtMost(s, w)
  {
    if k < |s| {
      assert s[..|s| - 1][..k] == s[..k];
      AtMostGrows(s[..|s| - 1], k, v, w);
    } else if s != [] {
      assert s[..k] == s;
      AtMostGrows(s[..|s| - 1], |s| - 1, v, w);
      assert s[..|s| - 1][..|s| - 1] == s[..|s| - 1];
    }
  }

  /** The ends of the ranges handed out so far add up to the quotas. */
  lemma {:induction false} EndsOfRows(cfg: Config, rows: seq<seq<Range>>, ends: seq<int>)
    requires cfg.Valid() && Tiles(cfg, rows) && |ends| == cfg.Len()
    requires forall d :: 0 <= d < |rows| ==> RowInRange(cfg, rows[d]) && Total(RowSizes(rows[d])) == cfg.n
    requires rows != [] ==> |rows[|rows| - 1]| == cfg.Len()
    requires forall i :: 0 <= i < cfg.Len() ==> ends[i] == NextFirst(rows, i)
    ensures Total(ends) == |rows| * cfg.n
  {
    if rows == [] {
      TotalConstant(ends, 0);
    } else {
      hide Total;
      var before, row := rows[..|rows| - 1], rows[|rows| - 1];
      var firsts := seq(cfg.Len(), i requires 0 <= i < cfg.Len() => row[i].first);
      EndsOfRows(cfg, before, firsts);
      TotalAdd(firsts, RowSizes(row), ends);
      MulNext(|rows| - 1, cfg.n);
    }
  }

  /** In a finished run, nearly all items that the destinations before the last one get are at most
      the greatest item of every source. */
  lemma FinishedRunsAreSpread(cfg: Config, i: nat)
    requires cfg.Valid() && cfg.Len() >= 2 && i < cfg.Len()
    ensures Inv(cfg, Start(cfg))
    ensures Run(cfg, Start(cfg)).Done? ==>
      Total(AtMost(cfg, cfg.sources[i][cfg.n - 1])) >= (cfg.Len() - 1) * (cfg.n - (cfg.step - 1))
  {
    StartHasInv(cfg);
    var o := Run(cfg, Start(cfg));
    if o.Done? {
      RunKeepsPromises(cfg, Start(cfg));
      RunLeavesItems(cfg, Start(cfg));
      BeforeTheLastCut(cfg, o, i);
    }
  }

  ghost function EndsOf(cfg: Config, row: seq<Range>): seq<int>
    requires RowInRange(cfg, row)
  {
    seq(cfg.Len(), j requires 0 <= j < cfg.Len() => row[j].last + 1)
  }

  /** What has been handed out by then is at most v, but for what is displaced. */
  lemma HandedOutIsAtMost(cfg: Config, row: seq<Range>, v: Item, w: Item)
    requires cfg.Valid() && RowInRange(cfg, row) && v <= w
    ensures Total(EndsOf(cfg, row)) <= Total(AtMost(cfg, w)) + Total(Displaced(cfg, row, v))
  {
    hide Total;
    var ends, above := EndsOf(cfg, row), Displaced(cfg, row, v);
    var below := seq(cfg.Len(), j requires 0 <= j < cfg.Len() => ends[j] - above[j]);
    forall j | 0 <= j < cfg.Len() ensures below[j] <= AtMost(cfg, w)[j] {
      AtMostOrAbove(cfg.sources[j][..ends[j]], v);
      AtMostGrows(cfg.sources[j], ends[j], v, w);
    }
    TotalAdd(below, above, ends);
    TotalOrder(below, AtMost(cfg, w));
  }

  /** At the last cut but one, all destinations before the last one have got their quotas. */
  lemma LastCut(cfg: Config, o: Outcome, d: nat, i: nat)
    requires cfg.Valid() && d + 2 == cfg.Len() && i < cfg.Len() && o.Done? && RunHolds(cfg, o)
    requires LeavesItems(cfg, o.rows)
    ensures |o.rows| == |o.cuts| == cfg.Len() && RowInRange(cfg, o.rows[d]) && CutHolds(cfg, o.rows[d], o.cuts[d])
    ensures o.cuts[d].last <= cfg.sources[i][cfg.n - 1]
    ensures Total(EndsOf(cfg, o.rows[d])) == (d + 1) * cfg.n
  {
    hide Total, RowSizes;
    TilesAt(cfg, o.rows, d);
    assert CutHolds(cfg, o.rows[d], o.cuts[d]) && o.rows[d][i].last + 1 < cfg.n;
    hide CutHolds, RunHolds;
    EndsOfRows(cfg, o.rows[..d + 1], EndsOf(cfg, o.rows[d]));
  }

  lemma BeforeTheLastCut(cfg: Config, o: Outcome, i: nat)
    requires cfg.Valid() && cfg.Len() >= 2 && i < cfg.Len() && o.Done? && RunHolds(cfg, o) && LeavesItems(cfg, o.rows)
    ensures Total(AtMost(cfg, cfg.sources[i][cfg.n - 1])) >= (cfg.Len() - 1) * (cfg.n - (cfg.step - 1))
  {
    hide RunHolds, LeavesItems, Total, AtMost, Displaced;
    var d := cfg.Len() - 2;
    LastCut(cfg, o, d, i);
    HandedOutIsAtMost(cfg, o.rows[d], o.cuts[d].last, cfg.sources[i][cfg.n - 1]);
    TimesDifference(cfg.Len() - 1, cfg.n, cfg.step - 1);
  }

  /** A check on the data: when too few items are at most the greatest item of some source, that
      source is used up too early, and the run gets stuck. */
  lemma RoughlyPartitionedDataGetsStuck(cfg: Config, i: nat)
    requires cfg.Valid() && cfg.Len() >= 2 && i < cfg.Len()
    requires Total(AtMost(cfg, cfg.sources[i][cfg.n - 1])) < (cfg.Len() - 1) * (cfg.n - (cfg.step - 1))
    ensures Inv(cfg, Start(cfg)) && Run(cfg, Start(cfg)).Stuck?
  {
    FinishedRunsAreSpread(cfg, i);
  }
}
