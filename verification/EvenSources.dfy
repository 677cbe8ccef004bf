/** Sources whose items are evenly spread never get the analyser stuck, and all its cuts are exact. */
module EvenSources {
  import opened Sorting
  import opened Sums
  import opened RangeCuts

  /** No item of any source is as great as an item d or more places further on in any source. */
  ghost predicate RankSkewBelow(cfg: Config, d: nat) {
    forall i, j, k, l ::
      (0 <= i < |cfg.sources| && 0 <= j < |cfg.sources| &&
       0 <= k < |cfg.sources[i]| && k + d <= l < |cfg.sources[j]|) ==> cfg.sources[i][k] < cfg.sources[j][l]
  }

  /** How far the sources may be apart: in stretches of up to two buckets, and as a whole. */
  datatype Skew = Skew(near: nat, far: nat)

  /** A stretch of source i, from its item k on, that lies between item l of source j and an item at
      most two buckets further on, is less than d longer than what it lies between. */
  ghost predicate StretchesMatch(cfg: Config, d: nat, i: nat, k: nat, j: nat, l: nat)
    requires cfg.Valid() && i < cfg.Len() && j < cfg.Len()
  {
    forall k', l' ::
      (k <= k' < cfg.n && l <= l' <= l + 2 * cfg.step && l' < cfg.n && cfg.sources[i][k'] <= cfg.sources[j][l']) ==>
        k' - k < l' - l + d
  }

  /** Stretches that start at buckets match, and so do the last buckets of all sources. */
  ghost predicate LocalSkewBelow(cfg: Config, d: nat)
    requires cfg.Valid()
  {
    forall i, j, k, l ::
      (0 <= i < cfg.Len() && 0 <= j < cfg.Len() && 0 <= k < cfg.n && 0 <= l < cfg.n &&
       k % cfg.step == 0 && l % cfg.step == 0 && cfg.sources[j][l] <= cfg.sources[i][k]) ==>
        StretchesMatch(cfg, d, i, k, j, l) && (l + cfg.step >= cfg.n ==> l < k + d)
  }

  /** What k quotas leave of a last bucket. */
  ghost function Rest(cfg: Config, k: nat): (r: nat)
    requires cfg.step > 0
  {
    MulOrder(0, k, cfg.n);
    k * cfg.n % cfg.step
  }

  /** The quotas fill whole buckets, or the part of a bucket that they need besides is not too small. */
  ghost predicate RestsAreWide(cfg: Config, d: nat)
    requires cfg.step > 0 && d > 0
  {
    forall k :: 0 < k < cfg.Len() && Rest(cfg, k) > 0 ==> (cfg.Len() - 1) * (d - 1) < Rest(cfg, k)
  }

  /** How many items a destination still misses when its detailed histograms are requested. */
  ghost function Gap(cfg: Config, dest: nat): int
    requires cfg.step > 0
  {
    var rest := Rest(cfg, dest + 1);
    if rest == 0 then cfg.Width() else cfg.Width() - cfg.step + rest
  }

  /** At least three sources, as README asks for; a rank skew that is well below a bucket in the
      small, and well below a destination's part of a source as a whole. */
  ghost predicate Even(cfg: Config, d: Skew) {
    && cfg.Valid() && cfg.Len() >= 3 && 5 * (cfg.Len() * (cfg.step + d.far)) <= cfg.n
    && d.near > 0 && (cfg.Len() - 1) * (d.near - 1) < cfg.step && RestsAreWide(cfg, d.near)
    && LocalSkewBelow(cfg, d.near) && RankSkewBelow(cfg, d.far)
  }

  /** A rank skew of at most a bucket as a whole is one in the small. */
  lemma FarSkewIsNear(cfg: Config, d: nat)
    requires cfg.Valid() && d <= cfg.step && RankSkewBelow(cfg, d)
    ensures LocalSkewBelow(cfg, d)
  {
    forall i, j, k, l | 0 <= i < cfg.Len() && 0 <= j < cfg.Len() && 0 <= k < cfg.n && 0 <= l < cfg.n &&
      k % cfg.step == 0 && l % cfg.step == 0 && cfg.sources[j][l] <= cfg.sources[i][k]
      ensures StretchesMatch(cfg, d, i, k, j, l) && (l + cfg.step >= cfg.n ==> l < k + d)
    {
      assert l < k + d;
      MultiplesWithinStep(l, k, cfg.step);
    }
  }

  /** The items 0, 1, 2, ... dealt out to len sources in turn. */
  ghost function DealtOut(len: nat, step: nat, n: nat): Config
    requires len * n <= TWO_TO_32
  {
    Config(seq(len, i requires 0 <= i < len => Dealt(len, n, i)), n, step)
  }

  ghost function Dealt(len: nat, n: nat, i: nat): seq<Item>
    requires i < len && len * n <= TWO_TO_32
  {
    seq(n, k requires 0 <= k < n => DealtItem(len, n, i, k))
  }

  ghost function DealtItem(len: nat, n: nat, i: nat, k: nat): Item
    requires i < len && k < n && len * n <= TWO_TO_32
  {
    MulOrder(k + 1, n, len);
    k * len + i
  }

  lemma DealtInOrder(len: nat, n: nat, i: nat, k: nat, j: nat, l: nat)
    requires i < len && j < len && k < l < n && len * n <= TWO_TO_32
    ensures DealtItem(len, n, i, k) < DealtItem(len, n, j, l)
  {
    MulOrder(k + 1, l, len);
  }

  lemma DealtIsSorted(len: nat, n: nat, i: nat)
    requires i < len && len * n <= TWO_TO_32
    ensures Sorted(Dealt(len, n, i))
  {
    hide DealtItem;
    forall k, l | 0 <= k < l < n ensures DealtItem(len, n, i, k) <= DealtItem(len, n, i, l) {
      DealtInOrder(len, n, i, k, i, l);
    }
  }

  /** Items dealt out in turn are even, for any number of sources from three on. */
  lemma DealtOutIsEven(len: nat, step: nat, n: nat)
    requires len >= 3 && step > 0 && 5 * (len * (step + 1)) <= n && len * n <= TWO_TO_32
    ensures Even(DealtOut(len, step, n), Skew(1, 1))
  {
    hide DealtItem, Sorted, LocalSkewBelow;
    var cfg := DealtOut(len, step, n);
    forall i | 0 <= i < len ensures Sorted(cfg.sources[i]) {
      DealtIsSorted(len, n, i);
    }
    assert cfg.Valid() by { MulOrder(1, len, step); }
    assert (len - 1) * (1 - 1) == 0;
    forall i, j, k, l | 0 <= i < len && 0 <= j < len && 0 <= k < l < n
      ensures cfg.sources[i][k] < cfg.sources[j][l]
    {
      DealtInOrder(len, n, i, k, j, l);
    }
    FarSkewIsNear(cfg, 1);
  }

  /** Nothing that was handed out is above the last pick. */
  ghost predicate Exact(cfg: Config, row: seq<Range>, v: Item)
    requires cfg.Valid() && RowInRange(cfg, row)
  {
    forall i, k :: 0 <= i < cfg.Len() && 0 <= k <= row[i].last ==> cfg.sources[i][k] <= v
  }

  ghost predicate CutsExact(cfg: Config, rows: seq<seq<Range>>, cuts: seq<Cut>)
    requires cfg.Valid()
  {
    |rows| == |cuts| &&
    forall d :: 0 <= d < |rows| && d + 1 < cfg.Len() ==>
      RowInRange(cfg, rows[d]) && Exact(cfg, rows[d], cuts[d].last)
  }

  lemma SkewIsSmall(cfg: Config, d: Skew)
    requires Even(cfg, d)
    ensures 2 * d.near <= cfg.step + 1 && d.near <= cfg.step && 3 * cfg.step <= cfg.Width()
    ensures 5 * cfg.Width() + 5 * (cfg.Len() * d.far) <= cfg.n
  {
    hide LocalSkewBelow, RankSkewBelow;
    MulOrder(2, cfg.Len() - 1, d.near - 1);
    MulOrder(3, cfg.Len(), cfg.step);
    assert cfg.Len() * (cfg.step + d.far) == cfg.Width() + cfg.Len() * d.far;
  }

  // ----- how far apart cursors can be -----

  /** The order of two items bounds the distance of their places. */
  lemma OrderBoundsPlaces(cfg: Config, d: Skew, i: nat, p: nat, j: nat, q: nat)
    requires Even(cfg, d) && i < cfg.Len() && j < cfg.Len() && p < cfg.n && q < cfg.n
    requires cfg.sources[i][p] <= cfg.sources[j][q]
    ensures p < q + d.far
  {
  }

  lemma PickSpread(cfg: Config, d: Skew, s: State, i: nat, j: nat)
    requires Even(cfg, d) && InRange(cfg, s.cursors) && i < |s.cursors| && j < |s.cursors|
    requires i == Pick(cfg, s.cursors, |s.cursors|) && !s.cursors[j].complete
    ensures s.cursors[i].pos + 1 <= s.cursors[j].pos + d.far
  {
    OrderBoundsPlaces(cfg, d, i, s.cursors[i].pos, j, s.cursors[j].pos);
  }

  lemma Spread(cfg: Config, d: Skew, s: State, i: nat, j: nat)
    requires Even(cfg, d) && Shape(cfg, s) && Order(cfg, s) && i < |s.cursors| && j < |s.cursors|
    requires !s.cursors[j].complete
    ensures s.cursors[i].End() <= s.cursors[j].pos + d.far + cfg.step - 1
    ensures s.cursors[i].End() > 0 && cfg.sources[i][s.cursors[i].End() - 1] <= LastPick(s.picks) ==>
      s.cursors[i].End() <= s.cursors[j].pos + d.far
  {
    var end, q := s.cursors[i].End(), s.cursors[j].pos;
    assert CursorOk(cfg, s, s.cursors[i]) && OrderAt(cfg, s, i) && OrderAt(cfg, s, j);
    if end > 0 {
      OrderBoundsPlaces(cfg, d, i, Behind(end, cfg.step), j, q);
      if cfg.sources[i][end - 1] <= LastPick(s.picks) {
        OrderBoundsPlaces(cfg, d, i, end - 1, j, q);
      }
    }
  }

  lemma MatchAt(cfg: Config, d: Skew, i: nat, k: nat, k': nat, j: nat, l: nat, l': nat)
    requires Even(cfg, d) && i < cfg.Len() && j < cfg.Len() && k <= k' < cfg.n && l <= l' < cfg.n
    requires k % cfg.step == 0 && l % cfg.step == 0 && l' <= l + 2 * cfg.step
    requires cfg.sources[j][l] <= cfg.sources[i][k] && cfg.sources[i][k'] <= cfg.sources[j][l']
    ensures k' - k < l' - l + d.near
  {
    hide RankSkewBelow;
    assert StretchesMatch(cfg, d.near, i, k, j, l);
  }

  lemma MatchAtEnd(cfg: Config, d: Skew, i: nat, k: nat, j: nat, l: nat)
    requires Even(cfg, d) && i < cfg.Len() && j < cfg.Len() && k < cfg.n && l < cfg.n <= l + cfg.step
    requires k % cfg.step == 0 && l % cfg.step == 0 && cfg.sources[j][l] <= cfg.sources[i][k]
    ensures l <= k
  {
    SkewIsSmall(cfg, d);
    hide RankSkewBelow, StretchesMatch;
    MultiplesWithinStep(l, k, cfg.step);
  }

  /** Two sources that have handed out items up to p and q of their windows, up to the same value:
      none has gained more than a bucket and the skew beyond the other one. */
  lemma WindowStretch(cfg: Config, d: Skew, cs: seq<Cursor>, i: nat, j: nat, p: nat, q: nat)
    requires Even(cfg, d) && |cs| == cfg.Len() && WindowsAgree(cfg, cs) && i < |cs| && j < |cs|
    requires cs[i].window.lo < p <= cfg.n && cs[j].window.lo <= q < cfg.n && q <= cs[j].window.lo + cfg.step
    requires cfg.sources[i][p - 1] <= cfg.sources[j][q]
    ensures p - cs[i].window.lo <= q - cs[j].window.lo + cfg.step + d.near
  {
    hide LocalSkewBelow, RankSkewBelow;
    var lo := cs[j].window.lo - cfg.step;
    StepKeepsRemainder(lo, cfg.step);
    MatchAt(cfg, d, i, cs[i].window.lo, p - 1, j, lo, q);
  }

  // ----- the invariant of even runs -----

  ghost function Gains(cs: seq<Cursor>): seq<int> {
    seq(|cs|, i requires 0 <= i < |cs| => if cs[i].window.Detailed? then cs[i].End() - cs[i].window.lo else 0)
  }

  ghost predicate CloseBegins(cs: seq<Cursor>, d: nat) {
    forall i, j :: 0 <= i < |cs| && 0 <= j < |cs| ==> cs[i].begin <= cs[j].begin + d
  }

  /** The cut before this destination separates, in every two sources, what was handed out from
      what was left. */
  ghost predicate BeginsAgree(cfg: Config, cs: seq<Cursor>)
    requires cfg.Valid() && |cs| == cfg.Len()
  {
    && (forall i :: 0 <= i < |cs| ==> 0 < cs[i].begin < cfg.n)
    && (forall i, j :: 0 <= i < |cs| && 0 <= j < |cs| ==>
          cfg.sources[i][cs[i].begin - 1] <= cfg.sources[j][cs[j].begin])
  }

  /** When the windows were opened, no source was more than a bucket ahead of another one. */
  ghost predicate WindowsAgree(cfg: Config, cs: seq<Cursor>)
    requires cfg.Valid() && |cs| == cfg.Len()
  {
    && (forall i :: 0 <= i < |cs| ==>
          cs[i].window.Detailed? && cfg.step <= cs[i].window.lo < cfg.n && cs[i].window.lo % cfg.step == 0)
    && (forall i, j :: 0 <= i < |cs| && 0 <= j < |cs| ==>
          cfg.sources[i][cs[i].window.lo - cfg.step] <= cfg.sources[j][cs[j].window.lo])
  }

  /** Until the request: the last cut was a cut in every two sources, leftover windows reach the next
      bucket, and the last move did not call for detailed histograms. */
  ghost predicate EvenBefore(cfg: Config, d: Skew, s: State)
    requires cfg.Valid() && |s.cursors| == cfg.Len()
  {
    && (s.dest > 0 ==> BeginsAgree(cfg, s.cursors))
    && CloseBegins(s.cursors, d.far)
    && (forall i :: 0 <= i < |s.cursors| && s.cursors[i].window.Detailed? ==>
          RoundUp(s.cursors[i].begin, cfg.step) < s.cursors[i].window.hi)
    && s.count + cfg.Width() < cfg.n
  }

  /** After the request: all the missing items come from windows that agree. */
  ghost predicate EvenAfter(cfg: Config, s: State)
    requires cfg.Valid() && |s.cursors| == cfg.Len()
  {
    && WindowsAgree(cfg, s.cursors)
    && (forall i :: 0 <= i < |s.cursors| && i !in s.picked ==> s.cursors[i].End() == s.cursors[i].window.lo)
    && Total(Gains(s.cursors)) == s.count - (cfg.n - Gap(cfg, s.dest))
  }

  ghost predicate EvenInv(cfg: Config, d: Skew, s: State) {
    && Even(cfg, d) && Inv(cfg, s)
    && CutsExact(cfg, s.rows, s.cuts)
    && if s.fetched then EvenAfter(cfg, s) else EvenBefore(cfg, d, s)
  }

  lemma StartIsEven(cfg: Config, d: Skew)
    requires Even(cfg, d)
    ensures EvenInv(cfg, d, Start(cfg))
  {
    StartHasInv(cfg);
    MulOrder(0, cfg.Len(), cfg.step);
  }

  lemma SyncKeepsEven(cfg: Config, d: Skew, s: State)
    requires EvenInv(cfg, d, s)
    ensures EvenInv(cfg, d, Synced(cfg, s))
  {
    hide Order, Quota, History, CursorOk;
    SyncKeepsInv(cfg, s);
  }

  // ----- no move gets stuck -----

  lemma AllActive(cfg: Config, s: State)
    requires Inv(cfg, s) && !LastRequested(cfg, s)
    ensures forall i :: 0 <= i < |s.cursors| ==> !s.cursors[i].complete
  {
    forall i | 0 <= i < |s.cursors| ensures !s.cursors[i].complete {
      assert CursorOk(cfg, s, s.cursors[i]);
    }
  }

  lemma FarFromEnd(len: nat, step: nat, n: nat, begin: int)
    requires len > 0 && begin * len <= len * n - n && 4 * (len * step) <= n
    ensures begin + 4 * step <= n
  {
    assert (n - 4 * step + 1) * len == len * n - 4 * (len * step) + len;
    if begin + 4 * step > n {
      MulOrder(n - 4 * step + 1, begin, len);
    }
  }

  lemma FarFromAverage(len: nat, step: nat, n: nat, dest: nat, begin: int)
    requires len > 0 && len * begin <= dest * n && dest < len && 4 * (len * step) <= n
    ensures begin + 4 * step <= n
  {
    MulOrder(dest + 1, len, n);
    MulNext(dest, n);
    FarFromEnd(len, step, n, begin);
  }

  /** Every range begins at least two buckets and the skew before the end of its source. */
  lemma BeginIsFarFromEnd(cfg: Config, d: Skew, s: State, i: nat)
    requires EvenInv(cfg, d, s) && !s.fetched && i < |s.cursors|
    ensures s.cursors[i].begin + 2 * cfg.step + d.far <= cfg.n
  {
    hide CursorOk, Order, History, CutsExact, Weights, Sizes, Total, EvenAfter, RankSkewBelow, LocalSkewBelow;
    hide BeginsAgree;
    var begin := s.cursors[i].begin;
    forall j | 0 <= j < |s.cursors| ensures Begins(s.cursors)[j] >= begin - d.far {
      assert s.cursors[i].begin <= s.cursors[j].begin + d.far;
    }
    TotalAtLeast(Begins(s.cursors), begin - d.far);
    FarFromAverage(cfg.Len(), cfg.step + d.far, cfg.n, s.dest, begin - d.far);
  }

  lemma CoarseMoveBesideLeftover(cfg: Config, d: Skew, s: State, i: nat, j: nat)
    requires EvenInv(cfg, d, s) && InSync(cfg, s) && !s.fetched && i < |s.cursors| && j < |s.cursors|
    requires i == Pick(cfg, s.cursors, |s.cursors|) && s.cursors[j].window.Detailed?
    ensures s.cursors[i].pos + cfg.step < cfg.n
  {
    hide CursorOk, Order, History, CutsExact, Quota;
    AllActive(cfg, s);
    PickSpread(cfg, d, s, i, j);
    RoundUpBounds(s.cursors[j].begin, cfg.step);
    BeginIsFarFromEnd(cfg, d, s, j);
  }

  lemma CoarseMoveAmongCoarse(cfg: Config, d: Skew, s: State, i: nat)
    requires EvenInv(cfg, d, s) && !s.fetched && i < |s.cursors| && i == Pick(cfg, s.cursors, |s.cursors|)
    requires forall j :: 0 <= j < |s.cursors| ==> s.cursors[j].window.Coarse?
    ensures s.cursors[i].pos + cfg.step < cfg.n
  {
    hide Order, History, CutsExact, Weights, Even, Total, BeginsAgree, Gap, Rest;
    var cs := s.cursors;
    AllActive(cfg, s);
    if cs[i].pos + cfg.step >= cfg.n {
      assert CursorOk(cfg, s, cs[i]);
      forall j | 0 <= j < |cs| ensures Ends(cs)[j] >= cs[i].pos {
        assert CursorOk(cfg, s, cs[j]);
        MatchAtEnd(cfg, d, j, cs[j].pos, i, cs[i].pos);
      }
      hide CursorOk;
      TotalAtLeast(Ends(cs), cs[i].pos);
      EndsAreBeginsAndSizes(cs);
      MulOrder(s.dest + 1, cfg.Len(), cfg.n);
      MulNext(s.dest, cfg.n);
      RoomForAStep(cfg.Len(), cfg.step, cfg.n, cs[i].pos);
    }
  }

  lemma RoomForAStep(len: nat, step: nat, n: nat, pos: nat)
    requires len > 0 && pos * len < len * n - len * step
    ensures pos + step < n
  {
    assert (n - step) * len == len * n - len * step;
    if pos + step >= n {
      MulOrder(n - step, pos, len);
    }
  }

  /** A source cannot hand out a whole window alone: the others gain something, too. */
  lemma WindowIsNotUsedUpAlone(cfg: Config, d: Skew, s: State, i: nat)
    requires EvenInv(cfg, d, s) && s.fetched && !LastRequested(cfg, s) && s.count < cfg.n
    requires i < |s.cursors| && i == Pick(cfg, s.cursors, |s.cursors|)
    ensures s.cursors[i].pos + 1 < s.cursors[i].window.lo + cfg.Width()
  {
    hide Order, History, CutsExact, Quota, LocalSkewBelow, RankSkewBelow, Total, Gap;
    GapIsAtMostWidth(cfg, s.dest);
    var cs, c := s.cursors, s.cursors[i];
    SkewIsSmall(cfg, d);
    AllActive(cfg, s);
    if c.pos + 1 >= c.window.lo + cfg.Width() {
      forall j | 0 <= j < |cs| ensures Gains(cs)[j] >= 1 {
        assert CursorOk(cfg, s, cs[j]);
        if cs[j].pos == cs[j].window.lo {
          WindowStretch(cfg, d, cs, i, j, c.pos + 1, cs[j].pos);
        }
      }
      TotalAtLeastBut(Gains(cs), 1, i, cfg.Width() - 1);
    }
  }

  lemma SourceIsNotUsedUpEarly(cfg: Config, d: Skew, s: State, i: nat)
    requires EvenInv(cfg, d, s) && !LastRequested(cfg, s) && s.fetched
    requires i < |s.cursors| && i == Pick(cfg, s.cursors, |s.cursors|)
    ensures s.cursors[i].pos + 1 < cfg.n
  {
    hide Order, History, CutsExact, CursorOk, Weights, EvenAfter, Total, OrderAt, Pick;
    var cs := s.cursors;
    AllActive(cfg, s);
    if cs[i].pos + 1 >= cfg.n {
      forall j | 0 <= j < |cs| ensures Ends(cs)[j] >= cfg.n - d.far {
        PickSpread(cfg, d, s, i, j);
      }
      TotalAtLeast(Ends(cs), cfg.n - d.far);
      EndsAreBeginsAndSizes(cs);
      MulNext(s.dest, cfg.n);
      TooFarForTotal(cfg, d, s.dest);
    }
  }

  /** Before the last destination, a detailed histogram is never used up. */
  lemma DetailedMoveStaysInside(cfg: Config, d: Skew, s: State, i: nat)
    requires EvenInv(cfg, d, s) && s.fetched && !LastRequested(cfg, s) && s.count < cfg.n
    requires i < |s.cursors| && i == Pick(cfg, s.cursors, |s.cursors|)
    ensures s.cursors[i].pos + 1 < s.cursors[i].window.hi
  {
    hide Order, History, CutsExact, Quota, EvenAfter;
    assert CursorOk(cfg, s, s.cursors[i]);
    WindowIsNotUsedUpAlone(cfg, d, s, i);
    SourceIsNotUsedUpEarly(cfg, d, s, i);
  }

  lemma TooFarForTotal(cfg: Config, d: Skew, dest: nat)
    requires Even(cfg, d) && dest + 1 < cfg.Len()
    ensures cfg.Len() * (cfg.n - d.far) > (dest + 1) * cfg.n
  {
    SkewIsSmall(cfg, d);
    hide Even;
    MulOrder(dest + 2, cfg.Len(), cfg.n);
    MulNext(dest + 1, cfg.n);
    MulOrder(0, cfg.Len(), cfg.step);
    TimesDifference(cfg.Len(), cfg.n, d.far);
  }

  lemma EvenCanMove(cfg: Config, d: Skew, s: State, i: nat)
    requires EvenInv(cfg, d, s) && InSync(cfg, s) && s.count < cfg.n
    requires i < |s.cursors| && i == Pick(cfg, s.cursors, |s.cursors|)
    ensures CanMove(cfg, s, i)
  {
    hide Order, History, CutsExact, Quota, EvenAfter;
    assert CursorOk(cfg, s, s.cursors[i]);
    if s.cursors[i].window.Coarse? {
      if j :| 0 <= j < |s.cursors| && s.cursors[j].window.Detailed? {
        CoarseMoveBesideLeftover(cfg, d, s, i, j);
      } else {
        CoarseMoveAmongCoarse(cfg, d, s, i);
      }
    } else if s.fetched && !LastRequested(cfg, s) {
      DetailedMoveStaysInside(cfg, d, s, i);
    }
  }

  /** Beside a cursor that stands short of its first bucket, no range is longer than four buckets. */
  lemma LeftoverBoundsRange(cfg: Config, d: Skew, s: State, j: nat, i: nat)
    requires Even(cfg, d) && Shape(cfg, s) && Order(cfg, s) && !s.fetched && i < |s.cursors|
    requires j < |s.cursors| && s.cursors[j].window.Detailed? && BeginsAgree(cfg, s.cursors)
    ensures s.cursors[i].End() - s.cursors[i].begin <= 4 * cfg.step - 1
  {
    hide LocalSkewBelow, RankSkewBelow, Even;
    var e, pos := s.cursors[i].End(), s.cursors[j].pos;
    assert CursorOk(cfg, s, s.cursors[i]) && CursorOk(cfg, s, s.cursors[j]);
    assert OrderAt(cfg, s, i) && OrderAt(cfg, s, j);
    if e > cfg.step {
      assert cfg.sources[i][e - cfg.step] <= cfg.sources[j][pos];
      BetweenBucketsOfBegins(cfg, d, i, s.cursors[i].begin, e - cfg.step, j, s.cursors[j].begin, pos);
    }
  }

  /** Two ranges that began at the same cut, one of them within its first bucket: the other one has
      not got further than two buckets and the skew. */
  lemma BetweenBucketsOfBegins(cfg: Config, d: Skew, i: nat, b: nat, p: nat, j: nat, c: nat, q: nat)
    requires Even(cfg, d) && i < cfg.Len() && j < cfg.Len() && 0 < b < cfg.n && 0 < c <= q < cfg.n && p < cfg.n
    requires cfg.sources[j][c - 1] <= cfg.sources[i][b] && cfg.sources[i][p] <= cfg.sources[j][q]
    requires q <= RoundUp(c, cfg.step)
    ensures p <= b + 3 * cfg.step - 1
  {
    hide LocalSkewBelow, RankSkewBelow, RoundUp;
    SkewIsSmall(cfg, d);
    var k, l := RoundUp(b, cfg.step), RoundUp(c, cfg.step) - cfg.step;
    RoundUpBounds(b, cfg.step);
    BucketBefore(c, cfg.step);
    if p > k {
      assert 0 <= l <= c - 1 && b <= k < cfg.n;
      assert Sorted(cfg.sources[j]) && Sorted(cfg.sources[i]);
      assert cfg.sources[j][l] <= cfg.sources[j][c - 1];
      assert cfg.sources[i][b] <= cfg.sources[i][k];
      MatchAt(cfg, d, i, k, p, j, l, q);
    }
  }

  /** A cursor that still has to be resynchronised keeps every other range short. */
  lemma LeftoverMeansEarly(cfg: Config, d: Skew, s: State, j: nat)
    requires Even(cfg, d) && Shape(cfg, s) && Order(cfg, s) && !s.fetched
    requires s.dest > 0 ==> BeginsAgree(cfg, s.cursors)
    requires j < |s.cursors| && s.cursors[j].window.Detailed?
    ensures SizeOf(s.cursors) + cfg.Width() < cfg.n
  {
    assert CursorOk(cfg, s, s.cursors[j]);
    hide Order, CursorOk, RankSkewBelow, LocalSkewBelow, BeginsAgree, Total;
    var cs, step := s.cursors, cfg.step;
    forall i | 0 <= i < |cs| ensures Sizes(cs)[i] <= 4 * step - 1 {
      LeftoverBoundsRange(cfg, d, s, j, i);
    }
    TotalAtMost(Sizes(cs), 4 * step - 1);
    FourBucketsEach(cfg, d);
  }

  lemma FourOfFive(len: nat, step: nat)
    ensures len * (4 * step - 1) + len * step == 5 * (len * step) - len
  {
  }

  lemma FourBucketsEach(cfg: Config, d: Skew)
    requires Even(cfg, d)
    ensures cfg.Len() * (4 * cfg.step - 1) + cfg.Width() < cfg.n
  {
    SkewIsSmall(cfg, d);
    hide Even;
    MulOrder(0, cfg.Len(), d.far);
    FourOfFive(cfg.Len(), cfg.step);
  }

  // ----- a pass keeps the invariant -----

  /** When detailed histograms are requested, every cursor is coarse, so the assertion holds. */
  lemma RequestFindsAllCoarse(cfg: Config, d: Skew, s: State, i: nat)
    requires Even(cfg, d) && Shape(cfg, s) && Order(cfg, s) && !s.fetched
    requires s.dest > 0 ==> BeginsAgree(cfg, s.cursors)
    requires i < |s.cursors| && NearQuota(cfg, s, i) && s.count == SizeOf(s.cursors)
    ensures forall j :: 0 <= j < |s.cursors| ==> s.cursors[j].window.Coarse?
  {
    hide Order, Shape, CursorOk;
    forall j | 0 <= j < |s.cursors| ensures s.cursors[j].window.Coarse? {
      if s.cursors[j].window.Detailed? { LeftoverMeansEarly(cfg, d, s, j); }
    }
  }

  /** Coarse cursors only ever hand out whole buckets, so it is known what the request leaves
      missing. */
  lemma RequestLeavesGap(cfg: Config, d: Skew, s: State)
    requires Even(cfg, d) && Shape(cfg, s)
    requires forall j :: 0 <= j < |s.cursors| ==> s.cursors[j].window.Coarse?
    requires s.count == SizeOf(s.cursors) && Total(Begins(s.cursors)) == s.dest * cfg.n
    requires cfg.n - cfg.Width() <= s.count < cfg.n - cfg.Width() + cfg.step
    ensures s.count == cfg.n - Gap(cfg, s.dest)
  {
    forall j | 0 <= j < |s.cursors| ensures Ends(s.cursors)[j] >= 0 && Ends(s.cursors)[j] % cfg.step == 0 {
      assert CursorOk(cfg, s, s.cursors[j]);
    }
    hide CursorOk, Shape, Even, Total;
    TotalOfMultiples(Ends(s.cursors), cfg.step);
    EndsAreBeginsAndSizes(s.cursors);
    MulNext(s.dest, cfg.n);
    GapIsUnique(cfg.Len(), cfg.step, Total(Ends(s.cursors)), cfg.n - s.count);
  }

  lemma GapIsUnique(len: nat, step: nat, total: nat, gap: nat)
    requires len > 0 && step > 0 && total % step == 0 && len * step - step < gap <= len * step
    ensures gap == var rest := (total + gap) % step; if rest == 0 then len * step else len * step - step + rest
  {
    MulNext(len - 1, step);
    MulOrder(0, len - 1, step);
    MultipleHasNoRemainder(len - 1, step);
    var whole, part := total + (len - 1) * step, gap - (len - 1) * step;
    MultiplesAdd(total, (len - 1) * step, step);
    DivMod(whole, step);
    if part == step {
      StepKeepsRemainder(whole, step);
    } else {
      RemainderIsUnique(total + gap, step, whole / step, part);
    }
  }

  /** By the time of the request, every source has handed out a bucket. */
  lemma EverySourceHasMoved(cfg: Config, d: Skew, s: State, i: nat)
    requires Even(cfg, d) && Shape(cfg, s) && Order(cfg, s) && i < |s.cursors|
    requires forall j :: 0 <= j < |s.cursors| ==> s.cursors[j].window.Coarse?
    requires s.count == SizeOf(s.cursors) >= cfg.n - cfg.Width() && Total(Begins(s.cursors)) == s.dest * cfg.n
    ensures cfg.step <= s.cursors[i].pos
  {
    hide Order, LocalSkewBelow, RankSkewBelow, Total, Sizes, Begins;
    var cs := s.cursors;
    SkewIsSmall(cfg, d);
    assert CursorOk(cfg, s, cs[i]);
    TimesDifference(cfg.Len(), cfg.step, d.far);
    MulOrder(0, cfg.Len(), d.far);
    if cs[i].pos < cfg.step {
      MultiplesWithinStep(cs[i].pos, 0, cfg.step);
      forall j | 0 <= j < |cs| ensures Ends(cs)[j] <= cfg.step + d.far {
        Spread(cfg, d, s, j, i);
      }
      TotalAtMost(Ends(cs), cfg.step + d.far);
      MulOrder(0, s.dest, cfg.n);
      EndsAreBeginsAndSizes(cs);
    }
  }

  lemma FetchIsEven(cfg: Config, d: Skew, s: State)
    requires Even(cfg, d) && Shape(cfg, s) && Order(cfg, s) && !s.fetched
    requires forall j :: 0 <= j < |s.cursors| ==> s.cursors[j].window.Coarse?
    requires s.count == SizeOf(s.cursors) == cfg.n - Gap(cfg, s.dest) >= cfg.n - cfg.Width()
    requires Total(Begins(s.cursors)) == s.dest * cfg.n
    ensures EvenAfter(cfg, FetchedAll(cfg, s))
  {
    hide Order, RankSkewBelow, LocalSkewBelow, Total;
    var cs, cs' := s.cursors, FetchedAll(cfg, s).cursors;
    forall i | 0 <= i < |cs|
      ensures cs'[i].window.Detailed? && cs'[i].End() == cs'[i].window.lo == cs[i].pos >= cfg.step
    {
      assert CursorOk(cfg, s, cs[i]);
      EverySourceHasMoved(cfg, d, s, i);
    }
    forall i, j | 0 <= i < |cs| && 0 <= j < |cs|
      ensures cs[j].pos % cfg.step == 0 && cs[j].pos < cfg.n
      ensures cfg.sources[i][cs[i].pos - cfg.step] <= cfg.sources[j][cs[j].pos]
    {
      CoarseCursorsAgree(cfg, s, i, j);
    }
    TotalConstant(Gains(cs'), 0);
  }

  lemma CoarseCursorsAgree(cfg: Config, s: State, i: nat, j: nat)
    requires cfg.Valid() && Shape(cfg, s) && Order(cfg, s) && i < |s.cursors| && j < |s.cursors|
    requires s.cursors[i].window.Coarse? && s.cursors[j].window.Coarse? && cfg.step <= s.cursors[i].pos
    ensures s.cursors[j].pos % cfg.step == 0 && s.cursors[i].pos < cfg.n && s.cursors[j].pos < cfg.n
    ensures cfg.sources[i][s.cursors[i].pos - cfg.step] <= cfg.sources[j][s.cursors[j].pos]
  {
    assert CursorOk(cfg, s, s.cursors[i]) && CursorOk(cfg, s, s.cursors[j]);
    assert OrderAt(cfg, s, i) && OrderAt(cfg, s, j);
  }

  lemma SameWindowsAgree(cfg: Config, cs: seq<Cursor>, cs': seq<Cursor>)
    requires cfg.Valid() && |cs| == |cs'| == cfg.Len()
    requires forall j :: 0 <= j < |cs| ==> cs'[j].begin == cs[j].begin && cs'[j].window == cs[j].window
    ensures WindowsAgree(cfg, cs) ==> WindowsAgree(cfg, cs')
    ensures BeginsAgree(cfg, cs) ==> BeginsAgree(cfg, cs')
  {
  }

  lemma GainsAfterMove(cs: seq<Cursor>, i: nat, c: Cursor)
    requires i < |cs| && cs[i].window.Detailed? && c.window == cs[i].window && c.End() == cs[i].End() + 1
    ensures Total(Gains(cs[i := c])) == Total(Gains(cs)) + 1
  {
    var gain := c.End() - c.window.lo;
    TotalUpdate(Gains(cs), i, gain);
    assert Gains(cs[i := c]) == Gains(cs)[i := gain];
  }

  lemma MoveKeepsEvenAfter(cfg: Config, d: Skew, s: State, i: nat)
    requires EvenInv(cfg, d, s) && s.fetched && i < |s.cursors| && !s.cursors[i].complete
    requires Moved(cfg, s, i).count == s.count + 1
    ensures EvenAfter(cfg, Moved(cfg, s, i))
  {
    hide Order, Quota, History, CutsExact, Even, CursorOk, Total, Gains;
    var c := Advance(s.cursors[i], cfg.step);
    assert s.cursors[i].window.Detailed?;
    SameWindowsAgree(cfg, s.cursors, s.cursors[i := c]);
    GainsAfterMove(s.cursors, i, c);
    hide WindowsAgree;
  }

  lemma MoveKeepsEvenBefore(cfg: Config, d: Skew, s: State, i: nat)
    requires EvenInv(cfg, d, s) && !s.fetched && i < |s.cursors| && i == Pick(cfg, s.cursors, |s.cursors|)
    requires var s' := Moved(cfg, s, i); Shape(cfg, s') && Order(cfg, s') && !NearQuota(cfg, s', i)
    ensures EvenBefore(cfg, d, Moved(cfg, s, i))
  {
    hide Order, Quota, History, CutsExact, RankSkewBelow, LocalSkewBelow, CursorOk, Total, BeginsAgree;
    var s' := Moved(cfg, s, i);
    forall j | 0 <= j < |s'.cursors|
      ensures s'.cursors[j].begin == s.cursors[j].begin && s'.cursors[j].window == s.cursors[j].window
    {
    }
    SameWindowsAgree(cfg, s.cursors, s'.cursors);
    assert CloseBegins(s'.cursors, d.far);
    if s'.cursors[i].window.Detailed? {
      LeftoverMeansEarly(cfg, d, s', i);
    }
  }

  /** An even run never gets stuck in a pass. */
  lemma PassIsEven(cfg: Config, d: Skew, s: State)
    requires EvenInv(cfg, d, s) && s.count < cfg.n
    ensures Pass(cfg, s).Next? && EvenInv(cfg, d, Pass(cfg, s).state)
  {
    hide Order, Quota, History, CutsExact, RankSkewBelow, LocalSkewBelow, CursorOk, EvenAfter, EvenBefore, PassFrom;
    SyncKeepsInv(cfg, s);
    SyncKeepsEven(cfg, d, s);
    PassFromIsEven(cfg, d, Synced(cfg, s));
  }

  lemma RequestIsEven(cfg: Config, d: Skew, s: State, i: nat)
    requires EvenInv(cfg, d, s) && !s.fetched && i < |s.cursors| && s.cursors[i].window.Coarse?
    requires var s' := Moved(cfg, s, i);
      && Shape(cfg, s') && Order(cfg, s') && NearQuota(cfg, s', i)
      && s'.count == s.count + cfg.step && Total(Begins(s'.cursors)) == s.dest * cfg.n
    ensures var s' := Moved(cfg, s, i);
      && (forall j :: 0 <= j < |s'.cursors| ==> s'.cursors[j].window.Coarse?)
      && EvenAfter(cfg, FetchedAll(cfg, s'))
  {
    hide Order, Quota, History, CutsExact, RankSkewBelow, LocalSkewBelow, CursorOk, EvenAfter;
    var s' := Moved(cfg, s, i);
    forall j | 0 <= j < |s'.cursors| ensures s'.cursors[j].begin == s.cursors[j].begin {
    }
    assert CloseBegins(s'.cursors, d.far);
    RequestFindsAllCoarse(cfg, d, s', i);
    RequestLeavesGap(cfg, d, s');
    FetchIsEven(cfg, d, s');
  }

  lemma PassFromIsEven(cfg: Config, d: Skew, s: State)
    requires EvenInv(cfg, d, s) && InSync(cfg, s) && s.count < cfg.n
    ensures Pick(cfg, s.cursors, |s.cursors|) >= 0
    ensures PassFrom(cfg, s).Next? && EvenInv(cfg, d, PassFrom(cfg, s).state)
  {
    hide Order, Quota, History, CutsExact, RankSkewBelow, LocalSkewBelow, CursorOk, EvenAfter, EvenBefore, Even;
    SomeCursorIsActive(cfg, s);
    var i := Pick(cfg, s.cursors, |s.cursors|);
    EvenCanMove(cfg, d, s, i);
    MoveKeepsShape(cfg, s, i);
    MoveCounts(cfg, s, i);
    MoveKeepsOrder(cfg, s, i);
    PassFromKeepsInv(cfg, s);
    if NearQuota(cfg, Moved(cfg, s, i), i) {
      NearQuotaIsUnfetched(cfg, Moved(cfg, s, i), i);
      RequestIsEven(cfg, d, s, i);
    } else if s.fetched {
      FetchedMovesByOne(cfg, s, i);
      MoveKeepsEvenAfter(cfg, d, s, i);
    } else {
      MoveKeepsEvenBefore(cfg, d, s, i);
    }
  }

  lemma FetchedMovesByOne(cfg: Config, s: State, i: nat)
    requires Inv(cfg, s) && s.fetched && i < |s.cursors|
    ensures s.cursors[i].window.Detailed?
  {
    assert CursorOk(cfg, s, s.cursors[i]);
  }

  // ----- every cut is exact -----

  /** Compared with a source that was not picked and holds a greater item, no other source can
      have gained more than a bucket and the skew. */
  lemma GainBesideUnpicked(cfg: Config, d: Skew, s: State, i: nat, j: nat)
    requires EvenInv(cfg, d, s) && s.fetched && i < |s.cursors| && j < |s.cursors|
    requires i !in s.picked && s.cursors[i].End() <= cfg.n
    requires LastPick(s.picks) < cfg.sources[i][s.cursors[i].End() - 1]
    ensures Gains(s.cursors)[j] <= cfg.step + d.near - 1
  {
    hide Quota, History, CutsExact, RankSkewBelow, LocalSkewBelow, CursorOk, Total;
    var lo, lo', end := s.cursors[i].window.lo, s.cursors[j].window.lo, s.cursors[j].End();
    if j in s.picked && end > lo' {
      EndsInside(cfg, s, j);
      assert OrderAt(cfg, s, j);
      StepKeepsRemainder(lo - cfg.step, cfg.step);
      MatchAt(cfg, d, j, lo', end - 1, i, lo - cfg.step, lo - 1);
    }
  }

  lemma EndsInside(cfg: Config, s: State, i: nat)
    requires cfg.Valid() && Shape(cfg, s) && i < |s.cursors|
    ensures s.cursors[i].End() <= cfg.n
  {
    assert CursorOk(cfg, s, s.cursors[i]);
  }

  /** Before the last cut, the last item each source handed out is not above the last pick. */
  lemma ExactAtSource(cfg: Config, d: Skew, s: State, i: nat)
    requires EvenInv(cfg, d, s) && s.count == cfg.n && s.fetched && s.dest + 1 < cfg.Len()
    requires i < |s.cursors| && s.cursors[i].End() > 0
    ensures s.cursors[i].End() <= cfg.n && cfg.sources[i][s.cursors[i].End() - 1] <= LastPick(s.picks)
  {
    hide Quota, History, CutsExact, RankSkewBelow, LocalSkewBelow, CursorOk, Total, WindowsAgree;
    EndsInside(cfg, s, i);
    assert OrderAt(cfg, s, i);
    if i !in s.picked && LastPick(s.picks) < cfg.sources[i][s.cursors[i].End() - 1] {
      forall j | 0 <= j < |s.cursors| ensures Gains(s.cursors)[j] <= cfg.step + d.near - 1 {
        GainBesideUnpicked(cfg, d, s, i, j);
      }
      TotalAtMostBut(Gains(s.cursors), cfg.step + d.near - 1, i, 0);
      TooLittleGained(cfg, d, s.dest);
    }
  }

  lemma TooLittleGained(cfg: Config, d: Skew, dest: nat)
    requires Even(cfg, d) && dest + 1 < cfg.Len()
    ensures (cfg.Len() - 1) * (cfg.step + d.near - 1) < Gap(cfg, dest)
  {
    hide RankSkewBelow, LocalSkewBelow, Rest;
    TimesDifference(cfg.Len() - 1, cfg.step, d.near - 1);
    MulNext(cfg.Len() - 1, cfg.step);
    assert Rest(cfg, dest + 1) > 0 ==> (cfg.Len() - 1) * (d.near - 1) < Rest(cfg, dest + 1);
  }

  lemma GapIsAtMostWidth(cfg: Config, dest: nat)
    requires cfg.step > 0
    ensures Gap(cfg, dest) <= cfg.Width()
  {
  }

  lemma RowsSoFar(cfg: Config, s: State)
    requires Inv(cfg, s)
    ensures |s.rows| == |s.cuts| == s.dest
  {
  }

  lemma CloseIsExact(cfg: Config, d: Skew, s: State)
    requires EvenInv(cfg, d, s) && s.count >= cfg.n
    ensures CutsExact(cfg, Closed(s).rows, Closed(s).cuts)
  {
    hide Quota, History, CursorOk, Order, EvenAfter, EvenBefore, Even, Shape;
    QuotaMetAfterFetch(cfg, s);
    RowsSoFar(cfg, s);
    CursorsPerSource(cfg, s);
    RowIsInRange(cfg, s);
    var row := RowOf(s.cursors);
    if s.dest + 1 < cfg.Len() {
      forall i, k | 0 <= i < cfg.Len() && 0 <= k <= row[i].last ensures cfg.sources[i][k] <= LastPick(s.picks) {
        ExactAtSource(cfg, d, s, i);
        assert Sorted(cfg.sources[i]);
      }
    }
  }

  // ----- the next destination -----

  lemma EndsStayClose(cfg: Config, d: Skew, s: State, i: nat, j: nat)
    requires EvenInv(cfg, d, s) && s.count == cfg.n && s.fetched && s.dest + 1 < cfg.Len()
    requires i < |s.cursors| && j < |s.cursors|
    ensures s.cursors[i].pos <= s.cursors[j].pos + d.far
  {
    hide Quota, History, CursorOk, Order, EvenAfter, EvenBefore, RankSkewBelow, LocalSkewBelow;
    AllActive(cfg, s);
    if s.cursors[i].pos > 0 {
      ExactAtSource(cfg, d, s, i);
      Spread(cfg, d, s, i, j);
    }
  }

  /** At a cut, what a source has handed out is not above what another one has left. */
  lemma CutAgrees(cfg: Config, d: Skew, s: State, i: nat, j: nat)
    requires EvenInv(cfg, d, s) && s.count == cfg.n && s.fetched && s.dest + 1 < cfg.Len()
    requires i < |s.cursors| && j < |s.cursors| && s.cursors[i].pos > 0
    ensures s.cursors[i].pos < cfg.n && s.cursors[j].pos < cfg.n
    ensures cfg.sources[i][s.cursors[i].pos - 1] <= cfg.sources[j][s.cursors[j].pos]
  {
    hide Quota, History, CursorOk, CutsExact, EvenAfter, Even;
    AllActive(cfg, s);
    ExactAtSource(cfg, d, s, i);
    assert OrderAt(cfg, s, j);
  }

  /** No source gains so much that its window misses the next bucket. */
  lemma GainLeavesABucket(cfg: Config, d: Skew, s: State, i: nat)
    requires EvenInv(cfg, d, s) && s.count == cfg.n && s.fetched && s.dest + 1 < cfg.Len() && i < |s.cursors|
    ensures s.cursors[i].pos <= s.cursors[i].window.lo + cfg.Width() - cfg.step
  {
    hide Quota, History, Order, CutsExact, RankSkewBelow, LocalSkewBelow, Total, Gap;
    GapIsAtMostWidth(cfg, s.dest);
    var cs, c := s.cursors, s.cursors[i];
    AllActive(cfg, s);
    SkewIsSmall(cfg, d);
    if c.pos > c.window.lo + cfg.Width() - cfg.step {
      var least := Min(cfg.step, cfg.Width() - 2 * cfg.step + 1 - d.near);
      forall j | 0 <= j < |cs| ensures Gains(cs)[j] >= least {
        assert CursorOk(cfg, s, cs[j]);
        CutAgrees(cfg, d, s, i, j);
        if cs[j].pos < cs[j].window.lo + cfg.step {
          WindowStretch(cfg, d, cs, i, j, c.pos, cs[j].pos);
        }
      }
      TotalAtLeastBut(Gains(cs), least, i, cfg.Width() - cfg.step + 1);
      TooMuchGained(cfg, d);
    }
  }

  lemma TooMuchGained(cfg: Config, d: Skew)
    requires Even(cfg, d)
    ensures var least := Min(cfg.step, cfg.Width() - 2 * cfg.step + 1 - d.near);
      (cfg.Len() - 1) * least + cfg.Width() - cfg.step + 1 > cfg.Width()
  {
    hide RankSkewBelow, LocalSkewBelow;
    SkewIsSmall(cfg, d);
    LeastGains(cfg.Len() - 1, cfg.step, d.near);
  }

  lemma LeastGains(others: nat, step: nat, d: nat)
    requires others >= 2 && step > 0 && d > 0 && others * (d - 1) < step
    ensures others * step >= step
    ensures others * ((others + 1) * step - 2 * step + 1 - d) >= step
  {
    var rest := (others + 1) * step - 2 * step;
    MulNext(others, step);
    MulOrder(2, others, step);
    MulOrder(step, rest, others);
    assert others * (rest + 1 - d) == others * rest - others * (d - 1);
  }

  lemma EndsAddUp(cfg: Config, s: State)
    requires Inv(cfg, s) && s.count == cfg.n
    ensures Total(Ends(s.cursors)) == (s.dest + 1) * cfg.n
  {
    hide Shape, Order, History, Total, Sizes, Begins, Ends;
    EndsAreBeginsAndSizes(s.cursors);
    MulNext(s.dest, cfg.n);
  }

  lemma PlaceIsFarFromEnd(cfg: Config, d: Skew, s: State, i: nat)
    requires EvenInv(cfg, d, s) && s.count == cfg.n && s.fetched && s.dest + 1 < cfg.Len() && i < |s.cursors|
    ensures s.cursors[i].pos + cfg.step <= cfg.n
  {
    hide Shape, Quota, History, Order, CutsExact, EvenAfter, RankSkewBelow, LocalSkewBelow, Total, Pick;
    var pos := s.cursors[i].pos;
    AllActive(cfg, s);
    forall j | 0 <= j < |s.cursors| ensures Ends(s.cursors)[j] >= pos - d.far {
      EndsStayClose(cfg, d, s, i, j);
    }
    TotalAtLeast(Ends(s.cursors), pos - d.far);
    EndsAddUp(cfg, s);
    CursorsPerSource(cfg, s);
    FarFromAverage(cfg.Len(), cfg.step + d.far, cfg.n, s.dest + 1, pos - d.far);
  }

  /** Every source has handed out something by the first cut. */
  lemma PlaceIsPositive(cfg: Config, d: Skew, s: State, i: nat)
    requires EvenInv(cfg, d, s) && s.count == cfg.n && s.fetched && s.dest + 1 < cfg.Len() && i < |s.cursors|
    ensures s.cursors[i].pos > 0
  {
    hide Shape, Quota, History, Order, CutsExact, EvenAfter, RankSkewBelow, LocalSkewBelow, Total, Pick;
    AllActive(cfg, s);
    if s.cursors[i].pos == 0 {
      forall j | 0 <= j < |s.cursors| ensures Ends(s.cursors)[j] <= d.far {
        EndsStayClose(cfg, d, s, j, i);
      }
      TotalAtMost(Ends(s.cursors), d.far);
      EndsAddUp(cfg, s);
      CursorsPerSource(cfg, s);
      SkewIsSmall(cfg, d);
      MulOrder(1, s.dest + 1, cfg.n);
    }
  }

  lemma CursorsPerSource(cfg: Config, s: State)
    requires Inv(cfg, s)
    ensures |s.cursors| == cfg.Len()
  {
  }

  /** The leftover windows reach the next bucket, where they can be given up. */
  lemma LeftoverReachesBucket(cfg: Config, d: Skew, s: State, i: nat)
    requires EvenInv(cfg, d, s) && s.count == cfg.n && s.fetched && s.dest + 1 < cfg.Len() && i < |s.cursors|
    ensures s.cursors[i].window.Detailed? && RoundUp(s.cursors[i].pos, cfg.step) < s.cursors[i].window.hi
  {
    hide Quota, History, Order, CutsExact, RankSkewBelow, LocalSkewBelow, EvenAfter;
    var c, step := s.cursors[i], cfg.step;
    assert CursorOk(cfg, s, c);
    GainLeavesABucket(cfg, d, s, i);
    PlaceIsFarFromEnd(cfg, d, s, i);
    RoundUpBounds(c.pos, step);
    MultipleHasNoRemainder(cfg.Len() - 1, step);
    MulNext(cfg.Len() - 1, step);
    MultiplesAdd(c.window.lo, cfg.Width() - step, step);
    MultiplesWithinStep(RoundUp(c.pos, step), c.window.lo + (cfg.Width() - step), step);
  }

  lemma ReopenIsEven(cfg: Config, d: Skew, s: State)
    requires EvenInv(cfg, d, s) && s.count >= cfg.n && s.dest + 1 < cfg.Len()
    ensures EvenInv(cfg, d, Reopened(Closed(s)))
  {
    hide Quota, History, CursorOk, Order, EvenAfter, CutsExact, RankSkewBelow, LocalSkewBelow;
    QuotaMetAfterFetch(cfg, s);
    ReopenKeepsInv(cfg, s);
    CloseIsExact(cfg, d, s);
    SkewIsSmall(cfg, d);
    forall i, j | 0 <= i < |s.cursors| && 0 <= j < |s.cursors|
      ensures s.cursors[i].pos <= s.cursors[j].pos + d.far
      ensures s.cursors[i].window.Detailed? && RoundUp(s.cursors[i].pos, cfg.step) < s.cursors[i].window.hi
      ensures 0 < s.cursors[i].pos < cfg.n && s.cursors[j].pos < cfg.n
      ensures cfg.sources[i][s.cursors[i].pos - 1] <= cfg.sources[j][s.cursors[j].pos]
    {
      EndsStayClose(cfg, d, s, i, j);
      LeftoverReachesBucket(cfg, d, s, i);
      PlaceIsPositive(cfg, d, s, i);
      CutAgrees(cfg, d, s, i, j);
    }
  }

  // ----- the theorem -----

  /** With evenly spread sources the analyser always finishes, and its cuts are exact. */
  lemma {:induction false} EvenRunFinishes(cfg: Config, d: Skew, s: State)
    requires EvenInv(cfg, d, s)
    ensures Run(cfg, s).Done? && CutsExact(cfg, Run(cfg, s).rows, Run(cfg, s).cuts)
    decreases cfg.Len() - s.dest, cfg.n - s.count
  {
    hide Quota, History, CursorOk, Order, EvenAfter, EvenBefore, CutsExact, RankSkewBelow, LocalSkewBelow, Pass;
    if s.count < cfg.n {
      PassKeepsInv(cfg, s);
      PassIsEven(cfg, d, s);
      EvenRunFinishes(cfg, d, Pass(cfg, s).state);
    } else if s.dest + 1 == cfg.Len() {
      CloseIsExact(cfg, d, s);
    } else {
      ReopenIsEven(cfg, d, s);
      EvenRunFinishes(cfg, d, Reopened(Closed(s)));
    }
  }
}
