/** What the manager's histogram analyser does, with every histogram replaced by the place
    its cursor stands at. HistogramAnalyser shows that the C code does exactly this. */
module RangeCuts {
  import opened Sorting
  import opened Sums

  /** Where a worker's cursor moves: over coarse buckets, or item by item over the
      detailed histogram of the items lo..hi. */
  datatype Window = Coarse | Detailed(lo: nat, hi: nat)

  /** One worker. The items begin..End() of its source go to the current destination. */
  datatype Cursor = Cursor(begin: nat, pos: nat, window: Window, complete: bool) {
    function End(): nat {
      if complete then pos + 1 else pos
    }
  }

  /** The sorted sources, the items in each of them, and the width of a coarse bucket. */
  datatype Config = Config(sources: seq<seq<Item>>, n: nat, step: nat) {
    function Len(): nat {
      |sources|
    }

    /** How many items a detailed histogram can hold. */
    function Width(): nat {
      Len() * step
    }

    ghost predicate Valid() {
      && Len() > 0 && step > 0
      && Width() + step <= n
      && forall i :: 0 <= i < Len() ==> |sources[i]| == n && Sorted(sources[i])
    }
  }

  /** The range of items one source sends to one destination, both ends included. */
  datatype Range = Range(first: int, last: int)

  /** How a destination was closed: the value picked last, and which sources were picked
      after their detailed histograms had arrived. */
  datatype Cut = Cut(last: Item, picked: set<nat>)

  /** The analyser's variables. rows, cuts and picks remember the run so far. */
  datatype State = State(
    cursors: seq<Cursor>,
    dest: nat,
    count: int,
    fetched: bool,
    picked: set<nat>,
    picks: seq<Item>,
    rows: seq<seq<Range>>,
    cuts: seq<Cut>)

  datatype StuckReason =
    | PastLastBucket       // a coarse cursor left its histogram, which is then read out of bounds
    | DetailedStillHeld    // the assertion that no detailed histogram is held fails
    | CompletedTooEarly    // a detailed histogram ran out before the last one was requested

  datatype StepResult = Next(state: State) | StepStuck(reason: StuckReason)

  datatype Outcome =
    | Done(rows: seq<seq<Range>>, cuts: seq<Cut>, picks: seq<Item>)
    | Stuck(reason: StuckReason)

  // ----- one cursor -----

  /** check_remove_detailed_histogram: back to the coarse histogram at a bucket's first item. */
  function Resync(c: Cursor, step: nat): Cursor
    requires step > 0
  {
    if c.window.Detailed? && c.pos % step == 0 then c.(window := Coarse) else c
  }

  /** set_next_histogram. */
  function Advance(c: Cursor, step: nat): Cursor {
    match c.window
    case Coarse => c.(pos := c.pos + step)
    case Detailed(_, hi) => if c.pos + 1 == hi then c.(complete := true) else c.(pos := c.pos + 1)
  }

  /** set_detailed_histogram, with the window that was requested. */
  function Fetch(c: Cursor, width: nat, n: nat): Cursor
    requires c.pos <= n
  {
    c.(window := Detailed(c.pos, Min(c.pos + width, n)))
  }

  /** init_histogram. */
  function Reopen(c: Cursor): Cursor {
    c.(begin := c.pos)
  }

  // ----- all cursors -----

  function ResyncAll(cs: seq<Cursor>, step: nat): seq<Cursor>
    requires step > 0
  {
    seq(|cs|, i requires 0 <= i < |cs| => Resync(cs[i], step))
  }

  function FetchAll(cs: seq<Cursor>, width: nat, n: nat): seq<Cursor>
    requires forall c :: c in cs ==> c.pos <= n
  {
    seq(|cs|, i requires 0 <= i < |cs| => Fetch(cs[i], width, n))
  }

  function ReopenAll(cs: seq<Cursor>): seq<Cursor> {
    seq(|cs|, i requires 0 <= i < |cs| => Reopen(cs[i]))
  }

  function RowOf(cs: seq<Cursor>): seq<Range> {
    seq(|cs|, i requires 0 <= i < |cs| => Range(cs[i].begin, cs[i].End() - 1))
  }

  ghost function Begins(cs: seq<Cursor>): seq<int> {
    seq(|cs|, i requires 0 <= i < |cs| => cs[i].begin)
  }

  ghost function Ends(cs: seq<Cursor>): seq<int> {
    seq(|cs|, i requires 0 <= i < |cs| => cs[i].End())
  }

  ghost function Sizes(cs: seq<Cursor>): seq<int> {
    seq(|cs|, i requires 0 <= i < |cs| => cs[i].End() - cs[i].begin)
  }

  /** size_all_processed_histograms. */
  ghost function SizeOf(cs: seq<Cursor>): int {
    Total(Sizes(cs))
  }

  /** The cursors stand inside their sources. */
  ghost predicate InRange(cfg: Config, cs: seq<Cursor>) {
    |cs| == cfg.Len() == |cfg.sources| &&
    forall i :: 0 <= i < |cs| ==> cs[i].pos < cfg.n == |cfg.sources[i]|
  }

  function Value(cfg: Config, cs: seq<Cursor>, i: nat): Item
    requires InRange(cfg, cs) && i < |cs|
  {
    cfg.sources[i][cs[i].pos]
  }

  /** The search for the cursor with the least value among the first k cursors: the last of
      them on a tie, -1 if all of them are complete. */
  function Pick(cfg: Config, cs: seq<Cursor>, k: nat): (p: int)
    requires InRange(cfg, cs) && k <= |cs|
    ensures -1 <= p < k
    ensures p == -1 <==> forall j :: 0 <= j < k ==> cs[j].complete
    ensures p >= 0 ==> !cs[p].complete
    ensures p >= 0 ==> forall j :: 0 <= j < k && !cs[j].complete ==> Value(cfg, cs, p) <= Value(cfg, cs, j)
    ensures p >= 0 ==> forall j :: p < j < k && !cs[j].complete ==> Value(cfg, cs, p) < Value(cfg, cs, j)
  {
    if k == 0 then -1
    else
      var p := Pick(cfg, cs, k - 1);
      if cs[k - 1].complete then p
      else if p == -1 || Value(cfg, cs, k - 1) <= Value(cfg, cs, p) then k - 1
      else p
  }

  // ----- the run -----

  ghost function Start(cfg: Config): State {
    State(seq(cfg.Len(), _ => Cursor(0, 0, Coarse, false)), 0, 0, false, {}, [], [], [])
  }

  /** Between the destinations, detailed histograms are given up where that is possible. */
  ghost function Synced(cfg: Config, s: State): State
    requires cfg.step > 0
  {
    if s.dest > 0 && !s.fetched then s.(cursors := ResyncAll(s.cursors, cfg.step)) else s
  }

  /** Cursor i, which has the least value, moves on. */
  ghost function Moved(cfg: Config, s: State, i: nat): State
    requires InRange(cfg, s.cursors) && i < |s.cursors|
  {
    var cs := s.cursors[i := Advance(s.cursors[i], cfg.step)];
    s.(cursors := cs,
       count := SizeOf(cs),
       picked := if s.fetched then s.picked + {i} else s.picked,
       picks := s.picks + [Value(cfg, s.cursors, i)])
  }

  /** A coarse move towards the end of the quota makes the manager request detailed histograms. */
  ghost predicate NearQuota(cfg: Config, s: State, i: nat)
    requires i < |s.cursors|
  {
    s.cursors[i].window.Coarse? && s.count + cfg.Width() >= cfg.n
  }

  ghost function FetchedAll(cfg: Config, s: State): State
    requires forall c :: c in s.cursors ==> c.pos <= cfg.n
  {
    s.(cursors := FetchAll(s.cursors, cfg.Width(), cfg.n), fetched := true, picked := {})
  }

  /** The last detailed histograms have been requested; the sources may run out now. */
  ghost predicate LastRequested(cfg: Config, s: State) {
    s.fetched && s.dest + 1 == cfg.Len()
  }

  /** One pass of the inner loop, from the resynchronised state on. */
  ghost function PassFrom(cfg: Config, s: State): StepResult
    requires InRange(cfg, s.cursors) && Pick(cfg, s.cursors, |s.cursors|) >= 0
  {
    var i := Pick(cfg, s.cursors, |s.cursors|);
    var s' := Moved(cfg, s, i);
    var c := s'.cursors[i];
    if c.pos >= cfg.n then StepStuck(PastLastBucket)
    else if c.complete && !LastRequested(cfg, s) then StepStuck(CompletedTooEarly)
    else if !NearQuota(cfg, s', i) then Next(s')
    else if exists j :: 0 <= j < |s'.cursors| && s'.cursors[j].window.Detailed? then StepStuck(DetailedStillHeld)
    else Next(FetchedAll(cfg, s'))
  }

  ghost function Pass(cfg: Config, s: State): StepResult
    requires Inv(cfg, s) && s.count < cfg.n
  {
    SyncKeepsInv(cfg, s);
    SomeCursorIsActive(cfg, Synced(cfg, s));
    PassFrom(cfg, Synced(cfg, s))
  }

  /** The quota of a destination is met: its row is recorded. */
  ghost function Closed(s: State): State {
    s.(rows := s.rows + [RowOf(s.cursors)],
       cuts := s.cuts + [Cut(LastPick(s.picks), s.picked)])
  }

  /** The next destination starts where the previous one ended. */
  ghost function Reopened(s: State): State {
    s.(cursors := ReopenAll(s.cursors), dest := s.dest + 1, count := 0, fetched := false, picked := {})
  }

  ghost function Run(cfg: Config, s: State): Outcome
    requires Inv(cfg, s)
    decreases cfg.Len() - s.dest, cfg.n - s.count
  {
    if s.count < cfg.n then
      PassKeepsInv(cfg, s);
      match Pass(cfg, s)
      case StepStuck(reason) => Stuck(reason)
      case Next(s') => Run(cfg, s')
    else
      var closed := Closed(s);
      if s.dest + 1 == cfg.Len() then Done(closed.rows, closed.cuts, s.picks)
      else
        ReopenKeepsInv(cfg, s);
        Run(cfg, Reopened(closed))
  }

  function LastPick(picks: seq<Item>): Item {
    if picks == [] then 0 else picks[|picks| - 1]
  }

  // ----- what a finished run must satisfy -----

  /** The number of items of s above v. */
  ghost function CountAbove(s: seq<Item>, v: Item): nat {
    if s == [] then 0 else CountAbove(s[..|s| - 1], v) + if s[|s| - 1] > v then 1 else 0
  }

  ghost function RowSizes(row: seq<Range>): seq<int> {
    seq(|row|, i requires 0 <= i < |row| => row[i].last - row[i].first + 1)
  }

  ghost predicate RowInRange(cfg: Config, row: seq<Range>) {
    |row| == cfg.Len() && forall i :: 0 <= i < |row| ==> -1 <= row[i].first - 1 <= row[i].last < cfg.n
  }

  /** Where source i's range for the next destination has to begin. */
  ghost function NextFirst(rows: seq<seq<Range>>, i: nat): int
    requires rows != [] ==> i < |rows[|rows| - 1]|
  {
    if rows == [] then 0 else rows[|rows| - 1][i].last + 1
  }

  /** Each source's ranges follow one another, from its first item on. */
  ghost predicate Tiles(cfg: Config, rows: seq<seq<Range>>) {
    rows == [] ||
    var before, row := rows[..|rows| - 1], rows[|rows| - 1];
    && Tiles(cfg, before)
    && RowInRange(cfg, row)
    && (before != [] ==> |before[|before| - 1]| == cfg.Len())
    && forall i :: 0 <= i < cfg.Len() ==> row[i].first == NextFirst(before, i)
  }

  /** How many items each source has handed out, up to and including this row, that are above v. */
  ghost function Displaced(cfg: Config, row: seq<Range>, v: Item): seq<int>
    requires cfg.Valid() && RowInRange(cfg, row)
  {
    seq(|row|, i requires 0 <= i < |row| => CountAbove(cfg.sources[i][..row[i].last + 1], v))
  }

  ghost predicate CutHolds(cfg: Config, row: seq<Range>, cut: Cut)
    requires cfg.Valid() && RowInRange(cfg, row)
  {
    // what is left for later destinations is not below the last pick
    && (forall i, k :: 0 <= i < cfg.Len() && row[i].last < k < cfg.n ==> cut.last <= cfg.sources[i][k])
    // few items that were handed out are above it
    && Total(Displaced(cfg, row, cut.last)) <= (cfg.Len() - 1) * (cfg.step - 1)
    // and none of a source that was picked item by item
    && (forall i :: i in cut.picked ==> i < cfg.Len())
    && (forall i, k :: i in cut.picked && 0 <= k <= row[i].last ==> cfg.sources[i][k] <= cut.last)
  }

  ghost predicate RowsAndCutsHold(cfg: Config, rows: seq<seq<Range>>, cuts: seq<Cut>)
    requires cfg.Valid()
  {
    && |rows| == |cuts|
    && Tiles(cfg, rows)
    && (forall d :: 0 <= d < |rows| ==> RowInRange(cfg, rows[d]) && Total(RowSizes(rows[d])) == cfg.n)
    && (forall d :: 0 <= d < |rows| ==> CutHolds(cfg, rows[d], cuts[d]))
    && (forall d, e :: 0 <= d <= e < |cuts| ==> cuts[d].last <= cuts[e].last)
  }

  // ----- the invariant -----

  ghost predicate CursorOk(cfg: Config, s: State, c: Cursor)
    requires cfg.step > 0
  {
    && c.begin <= c.pos < cfg.n
    && match c.window
       case Coarse => !c.complete && !s.fetched && c.pos % cfg.step == 0
       case Detailed(lo, hi) =>
         && lo <= c.pos < hi == Min(lo + cfg.Width(), cfg.n) && lo % cfg.step == 0
         && (c.complete ==> LastRequested(cfg, s) && c.pos + 1 == hi)
         && (LastRequested(cfg, s) ==> hi == cfg.n)
         && (!s.fetched ==> s.dest > 0 && c.pos <= RoundUp(c.begin, cfg.step))
  }

  ghost predicate Shape(cfg: Config, s: State)
    requires cfg.step > 0
  {
    && s.dest < cfg.Len()
    && (s.fetched || s.picked == {})
    && InRange(cfg, s.cursors)
    && forall i :: 0 <= i < |s.cursors| ==> CursorOk(cfg, s, s.cursors[i])
  }

  /** What cursor c contributes to its destination before it can be resynchronised. */
  ghost function Weight(c: Cursor, step: nat): int
    requires step > 0
  {
    if c.window.Detailed? then RoundUp(c.begin, step) - c.begin else c.End() - c.begin
  }

  ghost function Weights(cs: seq<Cursor>, step: nat): seq<int>
    requires step > 0
  {
    seq(|cs|, i requires 0 <= i < |cs| => Weight(cs[i], step))
  }

  /** The quota cannot be overshot: as long as no detailed histograms have been requested,
      even a further coarse move stays below it. */
  ghost predicate Quota(cfg: Config, s: State)
    requires cfg.step > 0
  {
    && s.count == SizeOf(s.cursors)
    && Total(Begins(s.cursors)) == s.dest * cfg.n
    && 0 <= s.count <= cfg.n
    && (!s.fetched ==> Total(Weights(s.cursors, cfg.step)) + cfg.step < cfg.n)
    && (s.fetched && s.picked == {} ==> s.count < cfg.n)
  }

  /** A bucket behind the last item handed out. */
  function Behind(end: nat, step: nat): nat {
    if end >= step then end - step else 0
  }

  /** Cursors are not behind the last pick, and what was handed out is not far ahead of it. */
  ghost predicate OrderAt(cfg: Config, s: State, i: nat)
    requires InRange(cfg, s.cursors) && i < |s.cursors|
  {
    var c, a, last := s.cursors[i], cfg.sources[i], LastPick(s.picks);
    && (!c.complete ==> last <= a[c.pos])
    && (c.End() > 0 && cfg.step > 0 ==> a[Behind(c.End(), cfg.step)] <= last)
    && (i in s.picked ==> c.End() > 0 && a[c.End() - 1] <= last)
  }

  ghost predicate Order(cfg: Config, s: State)
    requires InRange(cfg, s.cursors)
  {
    && Sorted(s.picks)
    && (forall i :: i in s.picked ==> i < cfg.Len())
    && (forall i :: 0 <= i < |s.cursors| ==> OrderAt(cfg, s, i))
  }

  ghost predicate History(cfg: Config, s: State)
    requires cfg.Valid()
  {
    && RowsAndCutsHold(cfg, s.rows, s.cuts)
    && |s.rows| == s.dest
    && |s.cursors| == cfg.Len()
    && (forall i :: 0 <= i < |s.cursors| ==> s.cursors[i].begin == NextFirst(s.rows, i))
    && (s.cuts != [] ==> s.cuts[|s.cuts| - 1].last <= LastPick(s.picks))
  }

  ghost predicate Inv(cfg: Config, s: State) {
    cfg.Valid() && Shape(cfg, s) && Quota(cfg, s) && Order(cfg, s) && History(cfg, s)
  }

  // ----- the invariant holds at the start -----

  lemma StartHasInv(cfg: Config)
    requires cfg.Valid()
    ensures Inv(cfg, Start(cfg))
  {
    var s := Start(cfg);
    TotalConstant(Sizes(s.cursors), 0);
    TotalConstant(Begins(s.cursors), 0);
    TotalConstant(Weights(s.cursors, cfg.step), 0);
  }

  // ----- resynchronising is invisible -----

  /** Going back to the coarse histogram changes nothing that is counted or compared. */
  lemma ResyncIsInvisible(cfg: Config, s: State, c: Cursor)
    requires cfg.step > 0 && CursorOk(cfg, s, c) && !s.fetched
    ensures CursorOk(cfg, s, Resync(c, cfg.step))
    ensures Resync(c, cfg.step).(window := c.window) == c
    ensures Weight(Resync(c, cfg.step), cfg.step) == Weight(c, cfg.step)
    ensures Resync(c, cfg.step).window.Detailed? ==> c.pos < RoundUp(c.begin, cfg.step)
  {
    RoundUpBounds(c.begin, cfg.step);
    if c.window.Detailed? && c.pos % cfg.step == 0 {
      MultiplesWithinStep(RoundUp(c.begin, cfg.step), c.pos, cfg.step);
    }
  }

  /** After resynchronising, what is still detailed is short of its next bucket. */
  ghost predicate InSync(cfg: Config, s: State)
    requires cfg.step > 0
  {
    forall i :: 0 <= i < |s.cursors| && s.cursors[i].window.Detailed? && !s.fetched ==>
      s.cursors[i].pos < RoundUp(s.cursors[i].begin, cfg.step)
  }

  ghost predicate SameButWindows(cs: seq<Cursor>, cs': seq<Cursor>) {
    |cs| == |cs'| &&
    forall i :: 0 <= i < |cs| ==>
      cs'[i].begin == cs[i].begin && cs'[i].pos == cs[i].pos && cs'[i].complete == cs[i].complete
  }

  /** Neither the counts nor the order of the items depend on the windows. */
  lemma WindowsDoNotMatter(cfg: Config, s: State, s': State)
    requires SameButWindows(s.cursors, s'.cursors) && s'.picks == s.picks && s'.picked <= s.picked
    requires InRange(cfg, s.cursors)
    ensures InRange(cfg, s'.cursors)
    ensures Sizes(s'.cursors) == Sizes(s.cursors) && Begins(s'.cursors) == Begins(s.cursors)
    ensures Order(cfg, s) ==> Order(cfg, s')
  {
    if Order(cfg, s) {
      forall i | 0 <= i < |s.cursors| ensures OrderAt(cfg, s', i) {
        assert OrderAt(cfg, s, i);
      }
    }
  }

  lemma SyncedCursors(cfg: Config, s: State)
    requires cfg.Valid() && Shape(cfg, s) && s.dest > 0 && !s.fetched
    ensures var s' := Synced(cfg, s);
      && SameButWindows(s.cursors, s'.cursors)
      && Shape(cfg, s') && InSync(cfg, s')
      && Weights(s'.cursors, cfg.step) == Weights(s.cursors, cfg.step)
  {
    var s' := Synced(cfg, s);
    forall i | 0 <= i < |s.cursors|
      ensures CursorOk(cfg, s', s'.cursors[i])
      ensures s'.cursors[i].(window := s.cursors[i].window) == s.cursors[i]
      ensures Weight(s'.cursors[i], cfg.step) == Weight(s.cursors[i], cfg.step)
      ensures s'.cursors[i].window.Detailed? ==> s'.cursors[i].pos < RoundUp(s'.cursors[i].begin, cfg.step)
    {
      ResyncIsInvisible(cfg, s, s.cursors[i]);
    }
  }

  lemma SyncKeepsInv(cfg: Config, s: State)
    requires Inv(cfg, s)
    ensures Inv(cfg, Synced(cfg, s))
    ensures InSync(cfg, Synced(cfg, s))
  {
    hide Order, RowsAndCutsHold, Total;
    if s.dest > 0 && !s.fetched {
      hide CursorOk;
      SyncedCursors(cfg, s);
      WindowsDoNotMatter(cfg, s, Synced(cfg, s));
    } else {
      forall i | 0 <= i < |s.cursors| && s.cursors[i].window.Detailed? ensures s.fetched {
        assert CursorOk(cfg, s, s.cursors[i]);
      }
    }
  }

  // ----- one pass -----

  lemma EndsAreBeginsAndSizes(cs: seq<Cursor>)
    ensures Total(Ends(cs)) == Total(Begins(cs)) + SizeOf(cs)
  {
    TotalAdd(Begins(cs), Sizes(cs), Ends(cs));
  }

  /** While the quota is not met, some source has items left. */
  lemma SomeCursorIsActive(cfg: Config, s: State)
    requires Inv(cfg, s) && s.count < cfg.n
    ensures Pick(cfg, s.cursors, |s.cursors|) >= 0
  {
    var cs := s.cursors;
    if Pick(cfg, cs, |cs|) == -1 {
      forall i | 0 <= i < |cs| ensures Ends(cs)[i] == cfg.n {
        assert CursorOk(cfg, s, cs[i]) && cs[i].complete;
      }
      assert LastRequested(cfg, s) by { assert CursorOk(cfg, s, cs[0]); }
      TotalConstant(Ends(cs), cfg.n);
      EndsAreBeginsAndSizes(cs);
      MulNext(s.dest, cfg.n);
    }
  }

  /** The effect of one move on the totals. */
  lemma MoveTotals(cs: seq<Cursor>, i: nat, c: Cursor, step: nat)
    requires i < |cs| && step > 0 && c.begin == cs[i].begin
    ensures Begins(cs[i := c]) == Begins(cs)
    ensures SizeOf(cs[i := c]) == SizeOf(cs) + c.End() - cs[i].End()
    ensures Total(Weights(cs[i := c], step)) == Total(Weights(cs, step)) + Weight(c, step) - Weight(cs[i], step)
  {
    TotalUpdate(Sizes(cs), i, c.End() - c.begin);
    assert Sizes(cs[i := c]) == Sizes(cs)[i := c.End() - c.begin];
    TotalUpdate(Weights(cs, step), i, Weight(c, step));
    assert Weights(cs[i := c], step) == Weights(cs, step)[i := Weight(c, step)];
    assert Begins(cs[i := c]) == Begins(cs);
  }

  lemma SizesBelowWeights(cfg: Config, s: State)
    requires cfg.Valid() && Shape(cfg, s) && !s.fetched
    ensures SizeOf(s.cursors) <= Total(Weights(s.cursors, cfg.step))
  {
    forall i | 0 <= i < |s.cursors| ensures Sizes(s.cursors)[i] <= Weights(s.cursors, cfg.step)[i] {
      assert CursorOk(cfg, s, s.cursors[i]);
    }
    TotalOrder(Sizes(s.cursors), Weights(s.cursors, cfg.step));
  }

  /** Cursor i can move without getting the run stuck. */
  ghost predicate CanMove(cfg: Config, s: State, i: nat)
    requires cfg.step > 0 && i < |s.cursors|
  {
    var c := Advance(s.cursors[i], cfg.step);
    c.pos < cfg.n && (c.complete ==> LastRequested(cfg, s))
  }

  lemma MoveKeepsShape(cfg: Config, s: State, i: nat)
    requires cfg.Valid() && Shape(cfg, s) && InSync(cfg, s)
    requires i < |s.cursors| && !s.cursors[i].complete && CanMove(cfg, s, i)
    ensures Shape(cfg, Moved(cfg, s, i))
  {
    var c := s.cursors[i];
    var s' := Moved(cfg, s, i);
    assert CursorOk(cfg, s, c);
    if c.window.Coarse? { StepKeepsRemainder(c.pos, cfg.step); }
    assert CursorOk(cfg, s', s'.cursors[i]);
    forall j | 0 <= j < |s'.cursors| && j != i ensures CursorOk(cfg, s', s'.cursors[j]) {
      assert CursorOk(cfg, s, s.cursors[j]);
    }
  }

  /** A move never takes the count past the quota, and always adds to it. */
  lemma MoveCounts(cfg: Config, s: State, i: nat)
    requires Inv(cfg, s) && InSync(cfg, s) && s.count < cfg.n
    requires i < |s.cursors| && !s.cursors[i].complete && CanMove(cfg, s, i)
    ensures var s' := Moved(cfg, s, i);
      && s'.count == s.count + (if s.cursors[i].window.Coarse? then cfg.step else 1)
      && s'.count <= cfg.n
      && (!s.fetched ==> s'.count < cfg.n)
      && Total(Begins(s'.cursors)) == s.dest * cfg.n
  {
    var c, s' := s.cursors[i], Moved(cfg, s, i);
    assert CursorOk(cfg, s, c);
    MoveTotals(s.cursors, i, s'.cursors[i], cfg.step);
    MoveKeepsShape(cfg, s, i);
    if !s.fetched { SizesBelowWeights(cfg, s'); }
  }

  /** With one coarse cursor, the others can add less than a bucket each to the count. */
  lemma WeightsNearSizes(cfg: Config, s: State, i: nat)
    requires cfg.Valid() && Shape(cfg, s) && !s.fetched && i < |s.cursors| && s.cursors[i].window.Coarse?
    ensures Total(Weights(s.cursors, cfg.step)) + cfg.step <= SizeOf(s.cursors) + cfg.Width()
  {
    hide Total;
    var cs, step := s.cursors, cfg.step;
    var slack := seq(|cs|, j requires 0 <= j < |cs| => Weight(cs[j], step) - (cs[j].End() - cs[j].begin));
    forall j | 0 <= j < |slack| && j != i ensures slack[j] <= step - 1 {
      assert CursorOk(cfg, s, cs[j]);
      RoundUpBounds(cs[j].begin, step);
    }
    TotalAtMostBut(slack, step - 1, i, 0);
    TotalAdd(slack, Sizes(cs), Weights(cs, step));
    SlackBelowWidth(cfg.Len(), step);
  }

  /** Short of the request for detailed histograms, the quota stays out of reach. */
  lemma MoveKeepsQuota(cfg: Config, s: State, i: nat)
    requires Inv(cfg, s) && InSync(cfg, s) && s.count < cfg.n
    requires i < |s.cursors| && !s.cursors[i].complete && CanMove(cfg, s, i)
    requires !NearQuota(cfg, Moved(cfg, s, i), i)
    ensures Quota(cfg, Moved(cfg, s, i))
  {
    var c, s' := s.cursors[i], Moved(cfg, s, i);
    MoveCounts(cfg, s, i);
    MoveKeepsShape(cfg, s, i);
    assert CursorOk(cfg, s, c);
    if !s.fetched {
      if c.window.Coarse? {
        WeightsNearSizes(cfg, s', i);
      } else {
        MoveTotals(s.cursors, i, s'.cursors[i], cfg.step);
      }
    }
  }

  lemma SlackBelowWidth(len: nat, step: nat)
    requires len > 0 && step > 0
    ensures (len - 1) * (step - 1) + step <= len * step
  {
    MulNext(len - 1, step - 1);
    assert len * (step - 1) == len * step - len;
  }

  /** A cursor that does not move is still not behind, for the least value was picked. */
  lemma OthersKeepOrder(cfg: Config, s: State, i: nat, j: nat)
    requires InRange(cfg, s.cursors) && i < |s.cursors| && j < |s.cursors| && j != i
    requires OrderAt(cfg, s, j)
    requires !s.cursors[j].complete ==> Value(cfg, s.cursors, i) <= Value(cfg, s.cursors, j)
    requires LastPick(s.picks) <= Value(cfg, s.cursors, i)
    requires InRange(cfg, Moved(cfg, s, i).cursors)
    ensures OrderAt(cfg, Moved(cfg, s, i), j)
  {
  }

  lemma MovedKeepsOrder(cfg: Config, s: State, i: nat)
    requires InRange(cfg, s.cursors) && i < |s.cursors| && Sorted(cfg.sources[i]) && cfg.step > 0
    requires !s.cursors[i].complete
    requires match s.cursors[i].window case Coarse => !s.fetched case Detailed(_, hi) => hi <= cfg.n
    requires i in s.picked ==> s.fetched
    requires InRange(cfg, Moved(cfg, s, i).cursors)
    ensures OrderAt(cfg, Moved(cfg, s, i), i)
  {
  }

  lemma PickExtends(picks: seq<Item>, v: Item)
    requires Sorted(picks) && LastPick(picks) <= v
    ensures Sorted(picks + [v]) && LastPick(picks + [v]) == v
  {
  }

  lemma MoveKeepsOrder(cfg: Config, s: State, i: nat)
    requires cfg.Valid() && Shape(cfg, s) && Order(cfg, s) && i == Pick(cfg, s.cursors, |s.cursors|)
    requires Shape(cfg, Moved(cfg, s, i))
    ensures Order(cfg, Moved(cfg, s, i))
  {
    hide Total;
    var s' := Moved(cfg, s, i);
    assert CursorOk(cfg, s, s.cursors[i]);
    assert LastPick(s.picks) <= Value(cfg, s.cursors, i) by { assert OrderAt(cfg, s, i); }
    PickExtends(s.picks, Value(cfg, s.cursors, i));
    assert Sorted(cfg.sources[i]);
    hide OrderAt, CursorOk, Sorted, LastPick, Pick;
    MovedKeepsOrder(cfg, s, i);
    forall j | 0 <= j < |s'.cursors| && j != i ensures OrderAt(cfg, s', j) {
      OthersKeepOrder(cfg, s, i, j);
    }
  }

  // ----- requesting detailed histograms -----

  lemma FetchedCursors(cfg: Config, s: State)
    requires cfg.Valid() && Shape(cfg, s) && !s.fetched
    requires forall i :: 0 <= i < |s.cursors| ==> s.cursors[i].window.Coarse?
    requires s.dest + 1 == cfg.Len() ==> forall i :: 0 <= i < |s.cursors| ==> cfg.n <= s.cursors[i].pos + cfg.Width()
    ensures var s' := FetchedAll(cfg, s); SameButWindows(s.cursors, s'.cursors) && Shape(cfg, s')
  {
    var s' := FetchedAll(cfg, s);
    forall i | 0 <= i < |s.cursors| ensures CursorOk(cfg, s', s'.cursors[i]) {
      assert CursorOk(cfg, s, s.cursors[i]);
    }
  }

  /** The windows of the last request reach to the end of every source. */
  lemma LastWindowsSuffice(cfg: Config, s: State, i: nat)
    requires cfg.Valid() && Shape(cfg, s) && s.dest + 1 == cfg.Len() && i < |s.cursors|
    requires s.count == SizeOf(s.cursors) && Total(Begins(s.cursors)) == s.dest * cfg.n
    requires s.count + cfg.Width() >= cfg.n && !s.cursors[i].complete
    ensures cfg.n <= s.cursors[i].pos + cfg.Width()
  {
    forall j | 0 <= j < |s.cursors| ensures Ends(s.cursors)[j] <= cfg.n {
      assert CursorOk(cfg, s, s.cursors[j]);
    }
    EndsAreBeginsAndSizes(s.cursors);
    TotalAtMostBut(Ends(s.cursors), cfg.n, i, s.cursors[i].pos);
  }

  lemma FetchKeepsShape(cfg: Config, s: State)
    requires cfg.Valid() && Shape(cfg, s) && !s.fetched
    requires s.count == SizeOf(s.cursors) && Total(Begins(s.cursors)) == s.dest * cfg.n
    requires s.count + cfg.Width() >= cfg.n
    requires forall i :: 0 <= i < |s.cursors| ==> s.cursors[i].window.Coarse?
    ensures var s' := FetchedAll(cfg, s); SameButWindows(s.cursors, s'.cursors) && Shape(cfg, s')
  {
    forall i | 0 <= i < |s.cursors| && s.dest + 1 == cfg.Len() ensures cfg.n <= s.cursors[i].pos + cfg.Width() {
      assert CursorOk(cfg, s, s.cursors[i]);
      LastWindowsSuffice(cfg, s, i);
    }
    FetchedCursors(cfg, s);
  }

  lemma FetchKeepsInv(cfg: Config, s: State)
    requires cfg.Valid() && Shape(cfg, s) && Order(cfg, s) && History(cfg, s) && !s.fetched
    requires s.count == SizeOf(s.cursors) && Total(Begins(s.cursors)) == s.dest * cfg.n
    requires 0 <= s.count < cfg.n <= s.count + cfg.Width()
    requires forall i :: 0 <= i < |s.cursors| ==> s.cursors[i].window.Coarse?
    ensures Inv(cfg, FetchedAll(cfg, s))
  {
    hide Order, CursorOk, RowsAndCutsHold, Total;
    FetchKeepsShape(cfg, s);
    WindowsDoNotMatter(cfg, s, FetchedAll(cfg, s));
  }

  // ----- a whole pass -----

  /** Every pass keeps the invariant and brings the quota closer. */
  lemma PassKeepsInv(cfg: Config, s: State)
    requires Inv(cfg, s) && s.count < cfg.n
    ensures var p := Pass(cfg, s); p.Next? ==>
      && Inv(cfg, p.state) && p.state.count > s.count
      && p.state.dest == s.dest && p.state.rows == s.rows && (s.fetched ==> p.state.fetched)
  {
    SyncKeepsInv(cfg, s);
    PassFromKeepsInv(cfg, Synced(cfg, s));
    if s.dest > 0 && !s.fetched {
      SyncedCursors(cfg, s);
      WindowsDoNotMatter(cfg, s, Synced(cfg, s));
    }
  }

  lemma MoveKeepsHistory(cfg: Config, s: State, i: nat)
    requires cfg.Valid() && Shape(cfg, s) && History(cfg, s) && Order(cfg, s)
    requires i < |s.cursors| && !s.cursors[i].complete
    ensures History(cfg, Moved(cfg, s, i))
  {
    hide CursorOk, RowsAndCutsHold, Total;
    assert OrderAt(cfg, s, i);
    var s' := Moved(cfg, s, i);
    assert LastPick(s'.picks) >= LastPick(s.picks);
    forall j | 0 <= j < |s'.cursors| ensures s'.cursors[j].begin == s.cursors[j].begin {
    }
  }

  lemma PassFromKeepsInv(cfg: Config, s: State)
    requires Inv(cfg, s) && InSync(cfg, s) && s.count < cfg.n
    ensures Pick(cfg, s.cursors, |s.cursors|) >= 0
    ensures var p := PassFrom(cfg, s); p.Next? ==>
      && Inv(cfg, p.state) && p.state.count > s.count
      && p.state.dest == s.dest && p.state.rows == s.rows && (s.fetched ==> p.state.fetched)
  {
    hide Quota, Order, History, CursorOk, Total, Weights;
    SomeCursorIsActive(cfg, s);
    var i := Pick(cfg, s.cursors, |s.cursors|);
    if PassFrom(cfg, s).Next? {
      MoveKeepsShape(cfg, s, i);
      MoveCounts(cfg, s, i);
      MoveKeepsOrder(cfg, s, i);
      MoveKeepsHistory(cfg, s, i);
      if NearQuota(cfg, Moved(cfg, s, i), i) {
        NearQuotaIsUnfetched(cfg, Moved(cfg, s, i), i);
        FetchKeepsInv(cfg, Moved(cfg, s, i));
      } else {
        MoveKeepsQuota(cfg, s, i);
      }
    }
  }

  lemma NearQuotaIsUnfetched(cfg: Config, s: State, i: nat)
    requires cfg.Valid() && Shape(cfg, s) && i < |s.cursors| && NearQuota(cfg, s, i)
    ensures !s.fetched
  {
    assert CursorOk(cfg, s, s.cursors[i]);
  }

  // ----- closing a destination -----

  lemma {:induction false} CountAboveExactly(s: seq<Item>, v: Item)
    ensures CountAbove(s, v) == |set j | 0 <= j < |s| && s[j] > v|
  {
    if s != [] {
      var last := |s| - 1;
      CountAboveExactly(s[..last], v);
      var before := set j | 0 <= j < last && s[..last][j] > v;
      assert (set j | 0 <= j < |s| && s[j] > v) == if s[last] > v then before + {last} else before;
    }
  }

  lemma {:induction false} CountAboveTail(s: seq<Item>, v: Item, k: nat)
    requires k <= |s| && forall j :: 0 <= j < k ==> s[j] <= v
    ensures CountAbove(s, v) <= |s| - k
  {
    if |s| > k {
      CountAboveTail(s[..|s| - 1], v, k);
    } else if s != [] {
      CountAboveTail(s[..|s| - 1], v, k - 1);
    }
  }

  lemma QuotaMetAfterFetch(cfg: Config, s: State)
    requires Inv(cfg, s) && s.count >= cfg.n
    ensures s.fetched && s.picked != {} && s.count == cfg.n
  {
    if !s.fetched { SizesBelowWeights(cfg, s); }
  }

  lemma LeftoverAt(cfg: Config, s: State, i: nat, k: nat)
    requires Inv(cfg, s) && s.fetched && i < |s.cursors| && s.cursors[i].End() <= k < cfg.n
    ensures LastPick(s.picks) <= cfg.sources[i][k]
  {
    assert CursorOk(cfg, s, s.cursors[i]) && OrderAt(cfg, s, i);
  }

  lemma PickedAt(cfg: Config, s: State, i: nat, k: nat)
    requires Inv(cfg, s) && i in s.picked && i < |s.cursors| && k < s.cursors[i].End()
    ensures k < cfg.n && cfg.sources[i][k] <= LastPick(s.picks)
  {
    assert CursorOk(cfg, s, s.cursors[i]) && OrderAt(cfg, s, i);
  }

  lemma DisplacedAt(cfg: Config, s: State, i: nat)
    requires Inv(cfg, s) && i < |s.cursors| && s.cursors[i].End() <= cfg.n
    ensures var above := CountAbove(cfg.sources[i][..s.cursors[i].End()], LastPick(s.picks));
      above <= cfg.step - 1 && (i in s.picked ==> above == 0)
  {
    hide Quota, History, Total;
    var end, a := s.cursors[i].End(), cfg.sources[i];
    assert CursorOk(cfg, s, s.cursors[i]) && OrderAt(cfg, s, i);
    if i in s.picked {
      CountAboveTail(a[..end], LastPick(s.picks), end);
    } else if end > 0 {
      CountAboveTail(a[..end], LastPick(s.picks), Behind(end, cfg.step) + 1);
    }
  }

  lemma RowIsInRange(cfg: Config, s: State)
    requires cfg.Valid() && Shape(cfg, s)
    ensures RowInRange(cfg, RowOf(s.cursors))
    ensures RowSizes(RowOf(s.cursors)) == Sizes(s.cursors)
  {
    forall i | 0 <= i < |s.cursors| ensures s.cursors[i].begin <= s.cursors[i].End() <= cfg.n {
      assert CursorOk(cfg, s, s.cursors[i]);
    }
  }

  lemma DisplacedTotal(cfg: Config, s: State)
    requires Inv(cfg, s) && s.picked != {} && RowInRange(cfg, RowOf(s.cursors))
    ensures Total(Displaced(cfg, RowOf(s.cursors), LastPick(s.picks))) <= (cfg.Len() - 1) * (cfg.step - 1)
  {
    hide Shape, Quota, History, OrderAt, Total;
    var p :| p in s.picked;
    var displaced := Displaced(cfg, RowOf(s.cursors), LastPick(s.picks));
    assert p < |s.cursors| == |displaced| == cfg.Len();
    hide Inv, Displaced;
    forall i | 0 <= i < |displaced|
      ensures displaced[i] <= cfg.step - 1 && (i == p ==> displaced[i] <= 0)
    {
      DisplacedEntry(cfg, s, i);
    }
    TotalAtMostBut(displaced, cfg.step - 1, p, 0);
  }

  lemma DisplacedEntry(cfg: Config, s: State, i: nat)
    requires Inv(cfg, s) && RowInRange(cfg, RowOf(s.cursors)) && i < |s.cursors|
    ensures var above := Displaced(cfg, RowOf(s.cursors), LastPick(s.picks))[i];
      above <= cfg.step - 1 && (i in s.picked ==> above == 0)
  {
    assert RowOf(s.cursors)[i].last + 1 == s.cursors[i].End();
    DisplacedAt(cfg, s, i);
  }

  lemma CutHoldsAtClose(cfg: Config, s: State)
    requires Inv(cfg, s) && s.count >= cfg.n
    ensures RowInRange(cfg, RowOf(s.cursors))
    ensures CutHolds(cfg, RowOf(s.cursors), Cut(LastPick(s.picks), s.picked))
  {
    hide Quota, History, CursorOk, OrderAt, Total, Displaced, Sizes, RowSizes;
    var row := RowOf(s.cursors);
    QuotaMetAfterFetch(cfg, s);
    RowIsInRange(cfg, s);
    DisplacedTotal(cfg, s);
    forall i, k | 0 <= i < cfg.Len() && row[i].last < k < cfg.n
      ensures LastPick(s.picks) <= cfg.sources[i][k]
    {
      LeftoverAt(cfg, s, i, k);
    }
    forall i, k | i in s.picked && 0 <= k <= row[i].last
      ensures cfg.sources[i][k] <= LastPick(s.picks)
    {
      PickedAt(cfg, s, i, k);
    }
  }

  lemma ExtendRows(cfg: Config, rows: seq<seq<Range>>, cuts: seq<Cut>, row: seq<Range>, cut: Cut)
    requires cfg.Valid() && RowsAndCutsHold(cfg, rows, cuts)
    requires RowInRange(cfg, row) && Total(RowSizes(row)) == cfg.n && CutHolds(cfg, row, cut)
    requires forall i :: 0 <= i < cfg.Len() ==> row[i].first == NextFirst(rows, i)
    requires cuts != [] ==> cuts[|cuts| - 1].last <= cut.last
    ensures RowsAndCutsHold(cfg, rows + [row], cuts + [cut])
  {
    hide CutHolds, NextFirst, Total;
    assert (rows + [row])[..|rows|] == rows;
  }

  /** A met quota extends the list of rows that tile the sources. */
  lemma CloseHolds(cfg: Config, s: State)
    requires Inv(cfg, s) && s.count >= cfg.n
    ensures RowsAndCutsHold(cfg, Closed(s).rows, Closed(s).cuts)
  {
    CutHoldsAtClose(cfg, s);
    RowIsInRange(cfg, s);
    QuotaMetAfterFetch(cfg, s);
    ExtendRows(cfg, s.rows, s.cuts, RowOf(s.cursors), Cut(LastPick(s.picks), s.picked));
  }

  lemma ReopenedCursor(cfg: Config, s: State, c: Cursor)
    requires cfg.Valid() && CursorOk(cfg, s, c) && s.fetched && s.dest + 1 < cfg.Len()
    ensures !c.complete && Reopen(c).begin == c.End()
    ensures CursorOk(cfg, Reopened(Closed(s)), Reopen(c))
    ensures Weight(Reopen(c), cfg.step) <= cfg.step - 1
  {
    RoundUpBounds(c.pos, cfg.step);
  }

  lemma ReopenedCursors(cfg: Config, s: State)
    requires cfg.Valid() && Shape(cfg, s) && s.fetched && s.dest + 1 < cfg.Len()
    ensures var s' := Reopened(Closed(s));
      && Shape(cfg, s')
      && Begins(s'.cursors) == Ends(s.cursors)
      && SizeOf(s'.cursors) == 0
      && Total(Weights(s'.cursors, cfg.step)) + cfg.step < cfg.n
  {
    var s' := Reopened(Closed(s));
    forall i | 0 <= i < |s.cursors|
      ensures CursorOk(cfg, s', s'.cursors[i]) && s'.cursors[i].begin == s.cursors[i].End()
      ensures Weight(s'.cursors[i], cfg.step) <= cfg.step - 1 && !s'.cursors[i].complete
    {
      ReopenedCursor(cfg, s, s.cursors[i]);
    }
    TotalAtMost(Weights(s'.cursors, cfg.step), cfg.step - 1);
    TotalConstant(Sizes(s'.cursors), 0);
    MulNext(cfg.Len() - 1, cfg.step - 1);
    SlackBelowWidth(cfg.Len(), cfg.step);
  }

  lemma ReopenKeepsOrder(cfg: Config, s: State)
    requires Inv(cfg, s) && s.fetched && s.dest + 1 < cfg.Len()
    ensures Order(cfg, Reopened(Closed(s)))
  {
    forall i | 0 <= i < |s.cursors| ensures OrderAt(cfg, Reopened(Closed(s)), i) {
      assert OrderAt(cfg, s, i);
      ReopenedCursor(cfg, s, s.cursors[i]);
    }
  }

  lemma ReopenKeepsHistory(cfg: Config, s: State)
    requires Inv(cfg, s) && s.fetched && s.count >= cfg.n && s.dest + 1 < cfg.Len()
    ensures History(cfg, Reopened(Closed(s)))
  {
    var s' := Reopened(Closed(s));
    CloseHolds(cfg, s);
    forall i | 0 <= i < |s.cursors| ensures s'.cursors[i].begin == NextFirst(s'.rows, i) {
      ReopenedCursor(cfg, s, s.cursors[i]);
      assert RowOf(s.cursors)[i].last + 1 == s.cursors[i].End();
    }
  }

  lemma ReopenKeepsInv(cfg: Config, s: State)
    requires Inv(cfg, s) && s.count >= cfg.n && s.dest + 1 < cfg.Len()
    ensures Inv(cfg, Reopened(Closed(s)))
  {
    QuotaMetAfterFetch(cfg, s);
    ReopenedCursors(cfg, s);
    ReopenKeepsOrder(cfg, s);
    ReopenKeepsHistory(cfg, s);
    EndsAreBeginsAndSizes(s.cursors);
    MulNext(s.dest, cfg.n);
  }

  // ----- the theorem -----

  /** What a finished run delivers. */
  ghost predicate RunHolds(cfg: Config, o: Outcome)
    requires cfg.Valid() && o.Done?
  {
    && |o.rows| == cfg.Len()
    && RowsAndCutsHold(cfg, o.rows, o.cuts)
    && (forall i :: 0 <= i < cfg.Len() ==> NextFirst(o.rows, i) == cfg.n)
    && Sorted(o.picks)
  }

  /** The last destination takes all that is left. */
  lemma LastRowReachesTheEnd(cfg: Config, s: State, i: nat)
    requires Inv(cfg, s) && s.count >= cfg.n && s.dest + 1 == cfg.Len() && i < cfg.Len()
    ensures NextFirst(Closed(s).rows, i) == cfg.n
  {
    QuotaMetAfterFetch(cfg, s);
    EndsAreBeginsAndSizes(s.cursors);
    var full := seq(|s.cursors|, _ => cfg.n as int);
    TotalConstant(full, cfg.n);
    MulNext(s.dest, cfg.n);
    forall j | 0 <= j < |s.cursors| ensures Ends(s.cursors)[j] <= full[j] {
      assert CursorOk(cfg, s, s.cursors[j]);
    }
    TotalTight(Ends(s.cursors), full);
    assert Ends(s.cursors)[i] == full[i];
    assert RowOf(s.cursors)[i].last + 1 == cfg.n;
  }

  lemma LastCloseHolds(cfg: Config, s: State)
    requires Inv(cfg, s) && s.count >= cfg.n && s.dest + 1 == cfg.Len()
    ensures RunHolds(cfg, Done(Closed(s).rows, Closed(s).cuts, s.picks))
  {
    CloseHolds(cfg, s);
    forall i | 0 <= i < cfg.Len() ensures NextFirst(Closed(s).rows, i) == cfg.n {
      LastRowReachesTheEnd(cfg, s, i);
    }
  }

  lemma {:induction false} RunKeepsPromises(cfg: Config, s: State)
    requires Inv(cfg, s) && Run(cfg, s).Done?
    ensures RunHolds(cfg, Run(cfg, s))
    decreases cfg.Len() - s.dest, cfg.n - s.count
  {
    if s.count < cfg.n {
      PassKeepsInv(cfg, s);
      RunKeepsPromises(cfg, Pass(cfg, s).state);
    } else if s.dest + 1 == cfg.Len() {
      LastCloseHolds(cfg, s);
    } else {
      ReopenKeepsInv(cfg, s);
      RunKeepsPromises(cfg, Reopened(Closed(s)));
    }
  }
}
