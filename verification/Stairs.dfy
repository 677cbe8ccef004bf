/** Runs on three sources of any size whose items are 0, then 1, then 2. */
module Stairs {
  import opened Sorting
  import opened Sums
  import opened RangeCuts
  import opened Stretches

  /** The items before place p are 0, those from p to q are 1, the others are 2. */
  datatype Stair = Stair(p: nat, q: nat) {
    function At(k: nat): Item {
      if k < p then 0 else if k < q then 1 else 2
    }
  }

  /** Three sources of u items and three buckets each. */
  datatype Data = Data(step: nat, u: nat, stairs: seq<Stair>) {
    function N(): nat {
      u + 3 * step
    }

    ghost predicate Valid() {
      && |stairs| == 3 && WholeBuckets(step, u)
      && forall i :: 0 <= i < 3 ==> stairs[i].p <= stairs[i].q
    }

    ghost function Items(i: nat): seq<Item>
      requires i < |stairs|
    {
      seq(N(), k requires 0 <= k < N() => stairs[i].At(k))
    }

    ghost function Cfg(): Config
      requires |stairs| == 3
    {
      Config([Items(0), Items(1), Items(2)], N(), step)
    }
  }

  ghost predicate WholeBuckets(step: nat, u: nat) {
    step > 0 && u >= step && u % step == 0
  }

  /** Data of these sizes, on which the first destination opens with coarse moves of source 2. */
  ghost predicate IsData(x: Data, step: nat, u: nat) {
    x.Valid() && |x.stairs| == 3 && x.step == step && x.u == u && 0 <= u - step && x.stairs[2].p > u - step
  }

  lemma DataIsValid(x: Data)
    requires x.Valid()
    ensures var cfg := x.Cfg();
      && cfg.Valid() && cfg.Len() == 3 && cfg.n == x.N() && cfg.step == x.step && cfg.Width() == 3 * x.step
      && (forall i :: 0 <= i < 3 ==> |cfg.sources[i]| == x.N())
      && (forall i, k :: 0 <= i < 3 && 0 <= k < x.N() ==> cfg.sources[i][k] == x.stairs[i].At(k))
  {
    forall i | 0 <= i < 3 ensures x.Cfg().sources[i] == x.Items(i) {
      assert i == 0 || i == 1 || i == 2;
    }
  }

  // ----- states -----

  /** The detailed histograms of destination dest have arrived. */
  ghost predicate Fetched(x: Data, s: State, dest: nat, count: int, cs: seq<Cursor>, rows: seq<seq<Range>>) {
    && x.Valid() && Inv(x.Cfg(), s) && s.dest == dest && s.fetched && s.count == count && s.rows == rows
    && s.cursors == cs && |cs| == 3
  }

  /** They have not been requested yet, and after resynchronising the cursors are cs. */
  ghost predicate Open(x: Data, s: State, dest: nat, count: int, cs: seq<Cursor>, rows: seq<seq<Range>>) {
    && x.Valid() && Inv(x.Cfg(), s) && s.dest == dest && !s.fetched && s.count == count && s.rows == rows
    && Synced(x.Cfg(), s).cursors == cs && |cs| == 3
  }

  /** How the run ends from here. */
  ghost function Result(x: Data, s: State): Outcome {
    if x.Valid() && Inv(x.Cfg(), s) then Run(x.Cfg(), s) else Stuck(PastLastBucket)
  }

  /** The cursors stand inside their sources, and none is complete. */
  ghost predicate Active(x: Data, cs: seq<Cursor>) {
    |cs| == 3 && forall j :: 0 <= j < 3 ==> !cs[j].complete && cs[j].pos < x.N()
  }

  function CoarseAt(begin: nat, pos: nat): Cursor {
    Cursor(begin, pos, Coarse, false)
  }

  function InWindow(x: Data, begin: nat, pos: nat, lo: nat): Cursor {
    Cursor(begin, pos, Detailed(lo, Min(lo + 3 * x.step, x.N())), false)
  }

  /** The items of source i before place q are at most v, and the other cursors show at least v, the
      later ones more. */
  ghost predicate Ahead(x: Data, cs: seq<Cursor>, i: nat, q: nat, v: Item)
    requires x.Valid() && |cs| == 3
  {
    && i < 3 && 0 < q && x.stairs[i].At(q - 1) <= v
    && forall j :: 0 <= j < 3 && j != i ==>
         v <= x.stairs[j].At(cs[j].pos) && (j > i ==> v < x.stairs[j].At(cs[j].pos))
  }

  lemma AheadLeads(x: Data, cs: seq<Cursor>, i: nat, q: nat, v: Item)
    requires x.Valid() && Active(x, cs) && Ahead(x, cs, i, q, v) && q <= x.N()
    ensures InRange(x.Cfg(), cs) && Leads(x.Cfg(), cs, i, q)
  {
    DataIsValid(x);
    var cfg := x.Cfg();
    hide Data.Cfg;
    assert InRange(cfg, cs);
    forall k, j | cs[i].pos <= k < q && 0 <= j < 3 && j != i
      ensures cfg.sources[i][k] <= v <= Value(cfg, cs, j) && (j > i ==> v < Value(cfg, cs, j))
    {
      assert Value(cfg, cs, j) == x.stairs[j].At(cs[j].pos);
      assert cfg.sources[i][k] == x.stairs[i].At(k) <= x.stairs[i].At(q - 1);
    }
  }

  lemma ActiveIsInRange(x: Data, cs: seq<Cursor>)
    requires x.Valid() && Active(x, cs)
    ensures InRange(x.Cfg(), cs)
  {
    DataIsValid(x);
  }

  lemma AheadIsPicked(x: Data, cs: seq<Cursor>, i: nat, v: Item)
    requires x.Valid() && Active(x, cs) && i < 3 && Ahead(x, cs, i, cs[i].pos + 1, v) && InRange(x.Cfg(), cs)
    ensures Pick(x.Cfg(), cs, |cs|) == i
  {
    hide Data.Cfg, Ahead;
    DataIsValid(x);
    AheadLeads(x, cs, i, cs[i].pos + 1, v);
    hide *;
    LeaderIsPicked(x.Cfg(), cs, i, cs[i].pos + 1);
  }

  // ----- moves -----

  /** The cursors after source i has moved on to place q. */
  function After(cs: seq<Cursor>, i: nat, q: nat): (cs': seq<Cursor>)
    requires i < |cs|
    ensures |cs'| == |cs|
  {
    cs[i := cs[i].(pos := q)]
  }

  ghost predicate CanDetail(x: Data, count: int, cs: seq<Cursor>, i: nat, q: nat, v: Item) {
    && x.Valid() && Active(x, cs) && Ahead(x, cs, i, q, v)
    && cs[i].window.Detailed? && cs[i].pos <= q < cs[i].window.hi <= x.N() && count + (q - cs[i].pos) <= x.N()
  }

  lemma Detail(x: Data, s: State, dest: nat, count: int, cs: seq<Cursor>, rows: seq<seq<Range>>,
      i: nat, q: nat, v: Item)
      returns (t: State)
    requires Fetched(x, s, dest, count, cs, rows) && i < |cs| && CanDetail(x, count, cs, i, q, v)
    ensures Fetched(x, t, dest, count + (q - cs[i].pos), After(cs, i, q), rows) && Result(x, s) == Result(x, t)
  {
    DataIsValid(x);
    AheadLeads(x, cs, i, q, v);
    hide Inv, Run, Data.Cfg, Leads;
    t := MovesTo(x.Cfg(), s, i, q);
  }

  ghost predicate CanSkip(x: Data, count: int, cs: seq<Cursor>, i: nat, q: nat, v: Item) {
    && x.Valid() && Active(x, cs) && i < 3
    && cs[i].window.Coarse? && cs[i].pos <= q < x.N() && (q - cs[i].pos) % x.step == 0
    && (cs[i].pos < q ==> x.step <= q && Ahead(x, cs, i, q - x.step + 1, v))
    && count + (q - cs[i].pos) < x.u
  }

  lemma Skip(x: Data, s: State, dest: nat, count: int, cs: seq<Cursor>, rows: seq<seq<Range>>, i: nat, q: nat, v: Item)
      returns (t: State)
    requires Open(x, s, dest, count, cs, rows) && i < |cs| && CanSkip(x, count, cs, i, q, v)
    ensures Open(x, t, dest, count + (q - cs[i].pos), After(cs, i, q), rows) && Result(x, s) == Result(x, t)
  {
    SkipIsPossible(x, s, dest, count, cs, rows, i, q, v);
    hide Inv, Run, Data.Cfg, Synced, CanSkipTo, CanSkip;
    t := SkipsTo(x.Cfg(), s, cs, i, q);
  }

  lemma SkipIsPossible(x: Data, s: State, dest: nat, count: int, cs: seq<Cursor>, rows: seq<seq<Range>>,
      i: nat, q: nat, v: Item)
    requires Open(x, s, dest, count, cs, rows) && i < |cs| && CanSkip(x, count, cs, i, q, v)
    ensures CanSkipTo(x.Cfg(), s, cs, i, q)
  {
    DataIsValid(x);
    assert InRange(x.Cfg(), cs);
    if cs[i].pos < q { AheadLeads(x, cs, i, q - x.step + 1, v); }
    hide Inv, Run, Data.Cfg, Leads, Synced;
  }

  ghost predicate CanRequest(x: Data, count: int, cs: seq<Cursor>, i: nat, v: Item) {
    && x.Valid() && Active(x, cs) && i < 3 && Ahead(x, cs, i, cs[i].pos + 1, v)
    && (forall j :: 0 <= j < 3 ==> cs[j].window.Coarse?)
    && cs[i].pos + x.step < x.N() && x.u - x.step <= count < x.N()
  }

  /** The coarse move that is followed by the request. */
  lemma Request(x: Data, s: State, dest: nat, count: int, cs: seq<Cursor>, rows: seq<seq<Range>>, i: nat, v: Item)
      returns (t: State)
    requires Open(x, s, dest, count, cs, rows) && i < |cs| && CanRequest(x, count, cs, i, v)
    ensures Fetched(x, t, dest, count + x.step, WindowsOf(x, After(cs, i, cs[i].pos + x.step)), rows)
    ensures Result(x, s) == Result(x, t)
  {
    hide Inv, Run, Data.Cfg, Leads, Synced, Pick, FetchAll, WindowsOf, Ahead, Stair.At;
    DataIsValid(x);
    ActiveIsInRange(x, cs);
    AheadIsPicked(x, cs, i, v);
    FetchOpensWindows(x, After(cs, i, cs[i].pos + x.step));
    t := RequestPass(x.Cfg(), s, cs, i);
  }

  lemma FetchOpensWindows(x: Data, cs: seq<Cursor>)
    requires Active(x, cs)
    ensures FetchAll(cs, 3 * x.step, x.N()) == WindowsOf(x, cs)
  {
  }

  /** The detailed histograms that are requested at these cursors. */
  function WindowsOf(x: Data, cs: seq<Cursor>): (windows: seq<Cursor>)
    requires |cs| == 3
    ensures |windows| == 3
  {
    [InWindow(x, cs[0].begin, cs[0].pos, cs[0].pos), InWindow(x, cs[1].begin, cs[1].pos, cs[1].pos),
     InWindow(x, cs[2].begin, cs[2].pos, cs[2].pos)]
  }

  /** The place of a cursor, on the coarse histogram if a bucket starts there. */
  function SyncedAt(x: Data, c: Cursor): Cursor
    requires x.step > 0
  {
    Cursor(c.pos, c.pos, if c.pos % x.step == 0 then Coarse else c.window, false)
  }

  function SyncedCursorsAt(x: Data, cs: seq<Cursor>): (cs': seq<Cursor>)
    requires x.step > 0 && |cs| == 3
    ensures |cs'| == 3
  {
    [SyncedAt(x, cs[0]), SyncedAt(x, cs[1]), SyncedAt(x, cs[2])]
  }

  function RangesOf(cs: seq<Cursor>): seq<Range>
    requires |cs| == 3
  {
    [Range(cs[0].begin, cs[0].pos - 1), Range(cs[1].begin, cs[1].pos - 1), Range(cs[2].begin, cs[2].pos - 1)]
  }

  ghost predicate CanReopen(x: Data, cs: seq<Cursor>) {
    x.Valid() && Active(x, cs) && x.step > 0 && forall j :: 0 <= j < 3 ==> cs[j].window.Detailed?
  }

  /** The quota is met, and the next destination begins. */
  lemma NextDestination(x: Data, s: State, dest: nat, cs: seq<Cursor>, rows: seq<seq<Range>>) returns (t: State)
    requires |cs| == 3 && Fetched(x, s, dest, x.N(), cs, rows) && x.step > 0 && CanReopen(x, cs) && dest < 2
    ensures Open(x, t, dest + 1, 0, SyncedCursorsAt(x, cs), rows + [RangesOf(cs)]) && Result(x, s) == Result(x, t)
  {
    DataIsValid(x);
    RowOfThree(x, cs);
    hide Inv, Run, Data.Cfg, RowOf, ResyncAll, ReopenAll, SyncedCursorsAt, RangesOf;
    GoesOnReopened(x.Cfg(), s);
    t := Reopened(Closed(s));
  }

  lemma RowOfThree(x: Data, cs: seq<Cursor>)
    requires CanReopen(x, cs)
    ensures RowOf(cs) == RangesOf(cs) && ResyncAll(ReopenAll(cs), x.step) == SyncedCursorsAt(x, cs)
  {
  }

  // ----- the first destination opens -----

  function AtStart(): (cs: seq<Cursor>)
    ensures |cs| == 3
  {
    [CoarseAt(0, 0), CoarseAt(0, 0), CoarseAt(0, 0)]
  }

  lemma StartIsOpen(x: Data)
    requires x.Valid()
    ensures Inv(x.Cfg(), Start(x.Cfg())) && Open(x, Start(x.Cfg()), 0, 0, AtStart(), [])
  {
    DataIsValid(x);
    StartHasInv(x.Cfg());
    hide Inv, Data.Cfg;
    assert Start(x.Cfg()).cursors == AtStart();
  }

  lemma BucketBeforeLast(u: nat, step: nat)
    requires WholeBuckets(step, u)
    ensures (u - step) % step == 0 && (u > step ==> u - step >= step)
  {
    BucketsAhead(u, step);
    if u > step { BucketsAhead(u - step, step); }
  }

  /** The cursors once source 2 has handed out u items. */
  function Opened(x: Data): (cs: seq<Cursor>)
    ensures |cs| == 3
  {
    [InWindow(x, 0, 0, 0), InWindow(x, 0, 0, 0), InWindow(x, 0, x.u, x.u)]
  }

  lemma OpeningIsPossible(x: Data)
    requires IsData(x, x.step, x.u)
    ensures |x.stairs| == 3 && x.Valid() && 0 <= x.u - x.step
    ensures var cs, q, v := AtStart(), x.u - x.step, x.stairs[2].At(0);
      && cs[2].pos == 0 && CanSkip(x, 0, cs, 2, q, v) && CanRequest(x, q, After(cs, 2, q), 2, v)
      && After(cs, 2, q)[2].pos + x.step == x.u && WindowsOf(x, After(After(cs, 2, q), 2, x.u)) == Opened(x)
  {
    BucketBeforeLast(x.u, x.step);
  }

  /** Source 2 opens the first destination with all coarse moves, if its items at the first buckets
      are 0. */
  lemma Opening(x: Data) returns (t: State)
    requires IsData(x, x.step, x.u)
    ensures |x.stairs| == 3 && x.Valid()
    ensures Inv(x.Cfg(), Start(x.Cfg())) && Fetched(x, t, 0, x.u, Opened(x), [])
    ensures Result(x, Start(x.Cfg())) == Result(x, t)
  {
    hide *;
    OpeningIsPossible(x);
    StartIsOpen(x);
    var cs, q, v := AtStart(), x.u - x.step, x.stairs[2].At(0);
    var s := Skip(x, Start(x.Cfg()), 0, 0, cs, [], 2, q, v);
    t := Request(x, s, 0, q, After(cs, 2, q), [], 2, v);
  }

  /** The second destination begins, and source 2 has handed out u items more than the others. */
  function AheadByABucket(step: nat, u: nat): (cs: seq<Cursor>)
    ensures |cs| == 3
  {
    [CoarseAt(step, step), CoarseAt(step, step), CoarseAt(u + step, u + step)]
  }

  // ----- the three ways to get stuck -----

  ghost predicate CanPick(x: Data, cs: seq<Cursor>, i: nat, v: Item) {
    x.Valid() && Active(x, cs) && i < 3 && Ahead(x, cs, i, cs[i].pos + 1, v)
  }

  lemma GetsUsedUp(x: Data, s: State, dest: nat, count: int, cs: seq<Cursor>, rows: seq<seq<Range>>, i: nat, v: Item)
    requires Fetched(x, s, dest, count, cs, rows) && dest < 2 && count < x.N() && CanPick(x, cs, i, v)
    requires i < |cs| && cs[i].window.Detailed? && cs[i].pos + 1 == cs[i].window.hi
    ensures Result(x, s) == Stuck(CompletedTooEarly)
  {
    DataIsValid(x);
    ActiveIsInRange(x, cs);
    AheadIsPicked(x, cs, i, v);
    hide Inv, Run, Data.Cfg, Pick;
    UsedUpTooEarly(x.Cfg(), s, cs, i);
  }

  lemma GetsPastTheEnd(x: Data, s: State, dest: nat, count: int, cs: seq<Cursor>, rows: seq<seq<Range>>,
      i: nat, v: Item)
    requires Open(x, s, dest, count, cs, rows) && count < x.N() && CanPick(x, cs, i, v)
    requires i < |cs| && cs[i].window.Coarse? && cs[i].pos + x.step >= x.N()
    ensures Result(x, s) == Stuck(PastLastBucket)
  {
    DataIsValid(x);
    ActiveIsInRange(x, cs);
    AheadIsPicked(x, cs, i, v);
    hide Inv, Run, Data.Cfg, Pick;
    PastTheLastBucket(x.Cfg(), s, cs, i);
  }

  lemma IsStillHeld(x: Data, s: State, dest: nat, count: int, cs: seq<Cursor>, rows: seq<seq<Range>>,
      i: nat, j: nat, v: Item)
    requires Open(x, s, dest, count, cs, rows) && x.u - x.step <= count < x.N() && CanPick(x, cs, i, v)
    requires i < |cs| && cs[i].window.Coarse? && cs[i].pos + x.step < x.N()
    requires j < |cs| && j != i && cs[j].window.Detailed?
    ensures Result(x, s) == Stuck(DetailedStillHeld)
  {
    DataIsValid(x);
    ActiveIsInRange(x, cs);
    AheadIsPicked(x, cs, i, v);
    hide Inv, Run, Data.Cfg, Pick;
    HeldAtTheRequest(x.Cfg(), s, cs, i, j);
  }
}
