/** The manager's analyser (client/manager/histanlz.c) on real histograms, shown to make
    exactly the moves of the run in RangeCuts. */
module HistogramAnalyser {
  import opened Sorting
  import opened Sums
  import opened Histograms
  import opened RangeCuts

  const FIRST_SOURCE_NODEID := 2
  const FIRST_DEST_NODEID := 52

  datatype Histogram = Histogram(srcNodeid: int, entries: seq<HistogramItem>)

  /** struct histogram_worker with its helper; no detailed histogram is an empty one. */
  class HistogramWorker {
    const histogram: Histogram
    var detailed: seq<HistogramItem>
    var beginOffset: int
    var beginIndex: int
    var endIndex: int
    var beginDetailedIndex: int
    var endDetailedIndex: int
    var complete: bool

    /** Where the current range begins, as long as it began in the coarse histogram. */
    ghost function CoarseBegin(step: nat): int
      reads this
    {
      if beginOffset > 0 then Min(beginOffset, beginIndex * step) else beginIndex * step
    }

    /** This worker stands for cursor c of source i. */
    ghost predicate Represents(cfg: Config, i: nat, c: Cursor, fetched: bool)
      requires cfg.Valid() && i < cfg.Len()
      reads this
    {
      && histogram.entries == HistogramOf(cfg.sources[i], 0, cfg.n, cfg.step)
      && complete == c.complete
      && 0 <= endIndex < |histogram.entries|
      && match c.window
         case Coarse =>
           && detailed == [] && !complete && c.pos == endIndex * cfg.step
           && 0 <= beginIndex <= endIndex && c.begin == CoarseBegin(cfg.step)
         case Detailed(lo, hi) =>
           && lo < hi <= cfg.n && lo == endIndex * cfg.step
           && detailed == HistogramOf(cfg.sources[i], lo, hi - lo, 1)
           && 0 <= beginDetailedIndex <= endDetailedIndex < hi - lo && c.pos == lo + endDetailedIndex
           && if beginIndex == -1 then beginOffset == 0 && c.begin == lo + beginDetailedIndex
              else fetched && 0 <= beginIndex <= endIndex && beginDetailedIndex == 0 && c.begin == CoarseBegin(cfg.step)
    }

    constructor (h: Histogram, ghost cfg: Config, ghost i: nat)
      requires cfg.Valid() && i < cfg.Len()
      requires h.entries == HistogramOf(cfg.sources[i], 0, cfg.n, cfg.step)
      ensures histogram == h
      ensures Represents(cfg, i, Cursor(0, 0, Coarse, false), false)
    {
      histogram := h;
      detailed := [];
      beginIndex, endIndex := 0, 0;
      beginDetailedIndex, endDetailedIndex := 0, 0;
      beginOffset := 0;
      complete := false;
    }

    method CheckRemoveDetailedHistogram(ghost cfg: Config, ghost i: nat, ghost c: Cursor)
      requires cfg.Valid() && i < cfg.Len() && Represents(cfg, i, c, false)
      requires !c.complete && (c.begin == 0 && c.window.Detailed? ==> c.pos == 0)
      modifies this
      ensures Represents(cfg, i, Resync(c, cfg.step), false)
    {
      hide RowsAndCutsHold;
      if detailed != [] {
        var currentItem := detailed[endDetailedIndex];
        assert currentItem.itemIndex == c.pos;
        var index, k := 0, endIndex;
        while k < |histogram.entries|
          invariant endIndex <= k <= |histogram.entries| && index == 0
          invariant forall j :: endIndex <= j < k ==> histogram.entries[j].itemIndex < c.pos
        {
          if histogram.entries[k].itemIndex >= currentItem.itemIndex {
            index := k;
            break;
          }
          k := k + 1;
        }
        SyncPoint(cfg, i, c.pos, endIndex, k, index);
        if histogram.entries[index].itemIndex == currentItem.itemIndex {
          beginOffset := detailed[beginDetailedIndex].itemIndex;
          beginIndex, endIndex := index, index;
          detailed := [];
        }
      }
    }

    method InitHistogram(ghost cfg: Config, ghost i: nat, ghost c: Cursor)
      requires cfg.Valid() && i < cfg.Len() && Represents(cfg, i, c, true)
      modifies this
      ensures Represents(cfg, i, Reopen(c), false)
    {
      beginOffset := 0;
      if detailed != [] {
        beginIndex := -1;
        beginDetailedIndex := endDetailedIndex;
      } else {
        beginIndex := endIndex;
      }
    }

    /** The two assertions of the C code: a detailed histogram must not be held already, and
        the new one starts at the coarse cursor. */
    method SetDetailedHistogram(reply: seq<HistogramItem>, ghost cfg: Config, ghost i: nat, ghost c: Cursor)
      requires cfg.Valid() && i < cfg.Len() && Represents(cfg, i, c, false)
      requires c.window.Coarse? && c.pos < cfg.n
      requires var f := Fetch(c, cfg.Width(), cfg.n).window;
        f.lo < f.hi && reply == HistogramOf(cfg.sources[i], f.lo, f.hi - f.lo, 1)
      modifies this
      ensures Represents(cfg, i, Fetch(c, cfg.Width(), cfg.n), true)
    {
      assert detailed == [];
      DetailedAgreesWithCoarse(cfg.sources[i], c.pos, Fetch(c, cfg.Width(), cfg.n).window.hi, cfg.step, endIndex, 0);
      if reply != [] {
        assert reply[0].itemIndex == histogram.entries[endIndex].itemIndex;
        detailed := reply;
        beginDetailedIndex, endDetailedIndex := 0, 0;
      }
    }

    method SetNextHistogram(ghost cfg: Config, ghost i: nat, ghost c: Cursor, ghost fetched: bool)
      requires cfg.Valid() && i < cfg.Len() && Represents(cfg, i, c, fetched) && !c.complete
      modifies this
      ensures detailed == old(detailed)
      ensures c.window.Coarse? ==> (endIndex >= |histogram.entries| <==> Advance(c, cfg.step).pos >= cfg.n)
      ensures Advance(c, cfg.step).pos < cfg.n ==> Represents(cfg, i, Advance(c, cfg.step), fetched)
      ensures c.window.Detailed? ==> Represents(cfg, i, Advance(c, cfg.step), fetched)
    {
      if detailed != [] {
        BucketBounds(c.window.hi - c.window.lo, 1);
        if endDetailedIndex + 1 == |detailed| {
          complete := true;
        }
        if !complete {
          endDetailedIndex := endDetailedIndex + 1;
        }
      } else {
        BucketBound(cfg.n, cfg.step, (endIndex + 1) as nat);
        MulNext(endIndex, cfg.step);
        endIndex := endIndex + 1;
      }
    }

    method ValueAtCursor(ghost cfg: Config, ghost i: nat, ghost c: Cursor, ghost fetched: bool)
        returns (value: HistogramItem, found: bool)
      requires cfg.Valid() && i < cfg.Len() && Represents(cfg, i, c, fetched) && c.pos < cfg.n
      ensures found <==> !c.complete
      ensures found ==> value.item == cfg.sources[i][c.pos]
    {
      var entries, end := histogram.entries, endIndex;
      if detailed != [] {
        entries, end := detailed, endDetailedIndex;
        BucketBounds(c.window.hi - c.window.lo, 1);
      }
      found := !complete && end < |entries|;
      value := entries[end];
    }

    method LengthCurrentHistogram(ghost cfg: Config, ghost i: nat, ghost c: Cursor, ghost fetched: bool)
        returns (len: int)
      requires cfg.Valid() && i < cfg.Len() && Represents(cfg, i, c, fetched)
      ensures len == if c.window.Coarse? then cfg.step else 1
    {
      var entries, end := histogram.entries, endIndex;
      if detailed != [] {
        entries, end := detailed, endDetailedIndex;
        BucketBounds(c.window.hi - c.window.lo, 1);
      }
      len := entries[end].lastItemIndex - entries[end].itemIndex + 1;
    }

    method GetBeginEndItemIndexes(ghost cfg: Config, ghost i: nat, ghost c: Cursor, ghost fetched: bool)
        returns (first: int, end: int)
      requires cfg.Valid() && i < cfg.Len() && Represents(cfg, i, c, fetched)
      ensures first == c.begin && end == c.End()
    {
      if detailed != [] {
        BucketBounds(c.window.hi - c.window.lo, 1);
        assert detailed[beginDetailedIndex].itemIndex == c.window.lo + beginDetailedIndex;
        var min1 := detailed[beginDetailedIndex].itemIndex;
        if beginOffset > 0 {
          min1 := Min(beginOffset, detailed[beginDetailedIndex].itemIndex);
        }
        if beginIndex != -1 {
          MulOrder(beginIndex, endIndex, cfg.step);
          assert histogram.entries[beginIndex].itemIndex == beginIndex * cfg.step <= c.window.lo;
          min1 := Min(min1, histogram.entries[beginIndex].itemIndex);
        }
        first := min1;
        end := detailed[endDetailedIndex].itemIndex;
        assert end == c.window.lo + endDetailedIndex == c.pos;
        if complete {
          end := end + 1;
        }
      } else {
        if beginOffset > 0 {
          first := Min(beginOffset, histogram.entries[beginIndex].itemIndex);
        } else {
          first := histogram.entries[beginIndex].itemIndex;
        }
        end := histogram.entries[endIndex].itemIndex;
      }
    }
  }

  /** The search from a detailed cursor at pos for a coarse entry finds one exactly when pos is
      the first item of a bucket; falling back to entry 0 never looks like a find. */
  lemma SyncPoint(cfg: Config, i: nat, pos: nat, from: nat, k: nat, index: nat)
    requires cfg.Valid() && i < cfg.Len() && pos < cfg.n
    requires var h := HistogramOf(cfg.sources[i], 0, cfg.n, cfg.step);
      && from < |h| && from * cfg.step <= pos && from <= k <= |h|
      && (forall j :: from <= j < k ==> h[j].itemIndex < pos)
      && (k < |h| ==> h[k].itemIndex >= pos)
      && index == if k < |h| then k else 0
    ensures var h := HistogramOf(cfg.sources[i], 0, cfg.n, cfg.step);
      index < |h| &&
      (h[index].itemIndex == pos <==> pos % cfg.step == 0) &&
      (pos % cfg.step == 0 ==> from <= index)
  {
    var h := HistogramOf(cfg.sources[i], 0, cfg.n, cfg.step);
    var q := pos / cfg.step;
    DivMod(pos, cfg.step);
    MultipleHasNoRemainder(index, cfg.step);
    if pos % cfg.step == 0 {
      BucketBound(cfg.n, cfg.step, q);
      assert h[q].itemIndex == pos;
      if q < from {
        MulOrder(q + 1, from, cfg.step);
        MulNext(q, cfg.step);
      }
      assert k <= q;
      MulOrder(k, q, cfg.step);
    } else if k == |h| {
      assert from * cfg.step < pos;
    }
  }

  lemma HoldsDetailed(worker: HistogramWorker, cfg: Config, i: nat, c: Cursor, fetched: bool)
    requires cfg.Valid() && i < cfg.Len() && worker.Represents(cfg, i, c, fetched)
    ensures worker.detailed == [] <==> c.window.Coarse?
  {
    if c.window.Detailed? { BucketBounds(c.window.hi - c.window.lo, 1); }
  }

  // ----- all workers -----

  type Workers = seq<HistogramWorker>

  ghost predicate Distinct(workers: Workers) {
    forall i, j :: 0 <= i < j < |workers| ==> workers[i] != workers[j]
  }

  /** The workers stand for the cursors cs. */
  ghost predicate AllRepresent(cfg: Config, workers: Workers, cs: seq<Cursor>, fetched: bool)
    requires cfg.Valid()
    reads workers
  {
    && |workers| == |cs| == cfg.Len() && Distinct(workers)
    && forall i :: 0 <= i < |workers| ==> workers[i].Represents(cfg, i, cs[i], fetched)
  }

  /** begin_offset 0 can mean "unset": a range that begins in a detailed histogram at item 0
      has its cursor at item 0 still. */
  ghost predicate Resyncable(cs: seq<Cursor>) {
    forall i :: 0 <= i < |cs| ==>
      !cs[i].complete && (cs[i].begin == 0 && cs[i].window.Detailed? ==> cs[i].pos == 0)
  }

  lemma LeftoversAreResyncable(cfg: Config, s: State)
    requires Inv(cfg, s) && !s.fetched
    ensures Resyncable(s.cursors)
  {
    hide Quota, Order, History;
    assert 0 % cfg.step == 0 by { MultipleHasNoRemainder(0, cfg.step); }
    forall i | 0 <= i < |s.cursors|
      ensures !s.cursors[i].complete
      ensures s.cursors[i].begin == 0 && s.cursors[i].window.Detailed? ==> s.cursors[i].pos == 0
    {
      assert CursorOk(cfg, s, s.cursors[i]);
    }
  }

  method CheckRemoveAll(workers: Workers, ghost cfg: Config, ghost cs: seq<Cursor>)
    requires cfg.Valid() && AllRepresent(cfg, workers, cs, false) && Resyncable(cs)
    modifies workers
    ensures AllRepresent(cfg, workers, ResyncAll(cs, cfg.step), false)
  {
    hide HistogramWorker.Represents;
    for i := 0 to |workers|
      invariant forall j :: 0 <= j < i ==> workers[j].Represents(cfg, j, Resync(cs[j], cfg.step), false)
      invariant forall j :: i <= j < |workers| ==> workers[j].Represents(cfg, j, cs[j], false)
    {
      workers[i].CheckRemoveDetailedHistogram(cfg, i, cs[i]);
    }
  }

  method SelectWorker(workers: Workers, ghost cfg: Config, ghost cs: seq<Cursor>, ghost fetched: bool)
      returns (source: int)
    requires cfg.Valid() && InRange(cfg, cs) && AllRepresent(cfg, workers, cs, fetched)
    ensures source == Pick(cfg, cs, |cs|)
  {
    hide HistogramWorker.Represents;
    source := -1;
    var minValue: HistogramItem := *;
    for i := 0 to |workers|
      invariant source == Pick(cfg, cs, i)
      invariant source >= 0 ==> minValue.item == Value(cfg, cs, source)
    {
      var current, found := workers[i].ValueAtCursor(cfg, i, cs[i], fetched);
      if !found { continue; }
      if source == -1 {
        minValue := current;
      }
      if current.item <= minValue.item {
        minValue := current;
        source := i;
      }
    }
  }

  lemma SizeOfPrefix(cs: seq<Cursor>, i: nat)
    requires i < |cs|
    ensures Total(Sizes(cs)[..i + 1]) == Total(Sizes(cs)[..i]) + cs[i].End() - cs[i].begin
  {
    assert Sizes(cs)[..i + 1][..i] == Sizes(cs)[..i];
  }

  method SizeAllProcessedHistograms(workers: Workers, ghost cfg: Config, ghost cs: seq<Cursor>, ghost fetched: bool)
      returns (count: int)
    requires cfg.Valid() && AllRepresent(cfg, workers, cs, fetched)
    ensures count == SizeOf(cs)
  {
    hide HistogramWorker.Represents;
    count := 0;
    for i := 0 to |workers|
      invariant count == Total(Sizes(cs)[..i])
    {
      var begin, end := workers[i].GetBeginEndItemIndexes(cfg, i, cs[i], fetched);
      count := count + (end - begin);
      SizeOfPrefix(cs, i);
    }
    assert Sizes(cs)[..|cs|] == Sizes(cs);
  }

  method InitAll(workers: Workers, ghost cfg: Config, ghost cs: seq<Cursor>)
    requires cfg.Valid() && AllRepresent(cfg, workers, cs, true)
    modifies workers
    ensures AllRepresent(cfg, workers, ReopenAll(cs), false)
  {
    hide HistogramWorker.Represents;
    for i := 0 to |workers|
      invariant forall j :: 0 <= j < i ==> workers[j].Represents(cfg, j, Reopen(cs[j]), false)
      invariant forall j :: i <= j < |workers| ==> workers[j].Represents(cfg, j, cs[j], true)
    {
      workers[i].InitHistogram(cfg, i, cs[i]);
    }
  }

  // ----- detailed histograms -----

  /** struct request_data_t. */
  datatype RequestData = RequestData(firstItemIndex: int, lastItemIndex: int, srcNodeid: int, dstNodeid: int)

  /** A source's answer to one request (client/source/comm_src.c:103-109). */
  method DetailedReply(source: array<Item>, request: RequestData) returns (reply: array<HistogramItem>)
    requires 0 <= request.firstItemIndex <= request.lastItemIndex && 0 < source.Length
    ensures fresh(reply)
    ensures request.firstItemIndex < source.Length ==>
      reply[..] == HistogramOf(source[..], request.firstItemIndex,
        Min(request.lastItemIndex, source.Length) - request.firstItemIndex, 1)
  {
    var offset := Min(request.firstItemIndex, source.Length - 1);
    var requestedLength := request.lastItemIndex - request.firstItemIndex;
    requestedLength := Min(requestedLength, source.Length - offset);
    reply := AllocHistogramArray(source, offset, requestedLength, 1);
  }

  /** The sources' arrays hold what the configuration says. */
  ghost predicate HoldsSources(cfg: Config, sources: seq<array<Item>>)
    reads sources
  {
    |sources| == cfg.Len() && forall i :: 0 <= i < |sources| ==> sources[i][..] == cfg.sources[i]
  }

  /** A request for the detailed histogram at a coarse cursor. */
  ghost predicate RequestsWindow(cfg: Config, c: Cursor, request: RequestData) {
    c.window.Coarse? && c.pos < cfg.n ==>
      request.firstItemIndex == c.pos && request.lastItemIndex == Min(c.pos + cfg.Width(), cfg.n)
  }

  method PrepareRequests(currentHistogramLen: int, n: int, nodeid: int, workers: Workers,
      ghost cfg: Config, ghost cs: seq<Cursor>) returns (requests: seq<RequestData>)
    requires cfg.Valid() && AllRepresent(cfg, workers, cs, false)
    requires currentHistogramLen == cfg.step && n == cfg.n
    ensures |requests| == |cs| && forall i :: 0 <= i < |cs| ==> RequestsWindow(cfg, cs[i], requests[i])
    ensures forall i :: 0 <= i < |cs| ==>
      requests[i].srcNodeid == nodeid && requests[i].dstNodeid == workers[i].histogram.srcNodeid
  {
    hide HistogramWorker.Represents, RequestsWindow;
    requests := [];
    for i := 0 to |workers|
      invariant |requests| == i
      invariant forall j :: 0 <= j < i ==> RequestsWindow(cfg, cs[j], requests[j])
      invariant forall j :: 0 <= j < i ==>
        requests[j].srcNodeid == nodeid && requests[j].dstNodeid == workers[j].histogram.srcNodeid
    {
      var request := PrepareRequest(currentHistogramLen, n, nodeid, |workers|, workers[i], cfg, i, cs[i]);
      requests := requests + [request];
    }
  }

  method PrepareRequest(currentHistogramLen: int, n: int, nodeid: int, len: nat, worker: HistogramWorker,
      ghost cfg: Config, ghost i: nat, ghost c: Cursor) returns (request: RequestData)
    requires cfg.Valid() && len == cfg.Len() && i < len && worker.Represents(cfg, i, c, false)
    requires currentHistogramLen == cfg.step && n == cfg.n
    ensures RequestsWindow(cfg, c, request)
    ensures request.srcNodeid == nodeid && request.dstNodeid == worker.histogram.srcNodeid
  {
    var start := worker.histogram.entries[worker.endIndex].itemIndex;
    request := RequestData(start, Min(start + currentHistogramLen * len, n), nodeid, worker.histogram.srcNodeid);
  }

  /** One source is asked, and the worker takes over its answer. */
  method AssignReply(worker: HistogramWorker, request: RequestData, source: array<Item>,
      ghost cfg: Config, ghost i: nat, ghost c: Cursor)
    requires cfg.Valid() && i < cfg.Len() && worker.Represents(cfg, i, c, false)
    requires c.window.Coarse? && c.pos < cfg.n && RequestsWindow(cfg, c, request)
    requires source[..] == cfg.sources[i]
    modifies worker
    ensures worker.Represents(cfg, i, Fetch(c, cfg.Width(), cfg.n), true)
  {
    var reply := DetailedReply(source, request);
    assert Fetch(c, cfg.Width(), cfg.n).window == Detailed(request.firstItemIndex, request.lastItemIndex);
    worker.SetDetailedHistogram(reply[..], cfg, i, c);
  }

  /** Fails, as the assertion in set_detailed_histogram does, if any worker holds one already. */
  method RequestAssignDetailedHistogram(currentHistogramLen: int, n: int, nodeid: int, workers: Workers,
      sources: seq<array<Item>>, ghost cfg: Config, ghost cs: seq<Cursor>) returns (ok: bool)
    requires cfg.Valid() && InRange(cfg, cs) && AllRepresent(cfg, workers, cs, false)
    requires currentHistogramLen == cfg.step && n == cfg.n && HoldsSources(cfg, sources)
    modifies workers
    ensures ok <==> forall i :: 0 <= i < |cs| ==> cs[i].window.Coarse?
    ensures ok ==> AllRepresent(cfg, workers, FetchAll(cs, cfg.Width(), cfg.n), true)
  {
    hide HistogramWorker.Represents;
    var requests := PrepareRequests(currentHistogramLen, n, nodeid, workers, cfg, cs);
    for i := 0 to |workers|
      invariant forall j :: 0 <= j < i ==> cs[j].window.Coarse?
      invariant forall j :: 0 <= j < i ==> workers[j].Represents(cfg, j, Fetch(cs[j], cfg.Width(), cfg.n), true)
      invariant forall j :: i <= j < |workers| ==> workers[j].Represents(cfg, j, cs[j], false)
    {
      HoldsDetailed(workers[i], cfg, i, cs[i], false);
      if workers[i].detailed != [] {
        return false;
      }
      AssignReply(workers[i], requests[i], sources[i], cfg, i, cs[i]);
    }
    ok := true;
  }

  // ----- the analyser -----

  datatype AnalysisResult = Ranges(range: seq<seq<RequestData>>) | Failed(reason: StuckReason)

  /** What is recorded for source h; the destination is only known for one of the first len source ids. */
  ghost predicate RecordsRange(r: Range, h: Histogram, len: nat, recorded: RequestData) {
    && recorded.firstItemIndex == r.first && recorded.lastItemIndex == r.last
    && recorded.srcNodeid == h.srcNodeid
    && (FIRST_SOURCE_NODEID <= h.srcNodeid < FIRST_SOURCE_NODEID + len ==>
          recorded.dstNodeid == h.srcNodeid - FIRST_SOURCE_NODEID + FIRST_DEST_NODEID)
  }

  /** A row of the result: source j sends these items to the row's destination. */
  ghost predicate RecordsRow(row: seq<Range>, histograms: seq<Histogram>, recorded: seq<RequestData>) {
    |recorded| == |row| == |histograms| &&
    forall j :: 0 <= j < |row| ==> RecordsRange(row[j], histograms[j], |row|, recorded[j])
  }

  ghost predicate RecordsRows(rows: seq<seq<Range>>, histograms: seq<Histogram>, recorded: seq<seq<RequestData>>) {
    |rows| == |recorded| && forall d :: 0 <= d < |rows| ==> RecordsRow(rows[d], histograms, recorded[d])
  }

  /** The result tells exactly how the run ended. */
  ghost predicate Reports(o: Outcome, histograms: seq<Histogram>, r: AnalysisResult) {
    match o
    case Stuck(reason) => r == Failed(reason)
    case Done(rows, _, _) => r.Ranges? && RecordsRows(rows, histograms, r.range)
  }

  ghost predicate AllFrom(workers: Workers, histograms: seq<Histogram>) {
    |workers| == |histograms| && forall i :: 0 <= i < |workers| ==> workers[i].histogram == histograms[i]
  }

  method SaveRow(workers: Workers, histograms: seq<Histogram>, ghost cfg: Config, ghost cs: seq<Cursor>)
      returns (row: seq<RequestData>)
    requires cfg.Valid() && AllRepresent(cfg, workers, cs, true) && AllFrom(workers, histograms)
    ensures RecordsRow(RowOf(cs), histograms, row)
  {
    hide HistogramWorker.Represents;
    row := [];
    for j := 0 to |workers|
      invariant |row| == j
      invariant forall i :: 0 <= i < j ==> RecordsRange(RowOf(cs)[i], histograms[i], |workers|, row[i])
    {
      var first, end := workers[j].GetBeginEndItemIndexes(cfg, j, cs[j], true);
      var dstNodeid: int := *;
      for k := 0 to |workers|
        invariant FIRST_SOURCE_NODEID <= histograms[j].srcNodeid < FIRST_SOURCE_NODEID + k ==>
          dstNodeid == histograms[j].srcNodeid - FIRST_SOURCE_NODEID + FIRST_DEST_NODEID
      {
        if histograms[j].srcNodeid == FIRST_SOURCE_NODEID + k {
          dstNodeid := FIRST_DEST_NODEID + k;
        }
      }
      row := row + [RequestData(first, end - 1, workers[j].histogram.srcNodeid, dstNodeid)];
    }
  }

  method MakeWorkers(histograms: seq<Histogram>, ghost cfg: Config) returns (workers: Workers)
    requires cfg.Valid() && |histograms| == cfg.Len()
    requires forall i :: 0 <= i < |histograms| ==>
      histograms[i].entries == HistogramOf(cfg.sources[i], 0, cfg.n, cfg.step)
    ensures fresh(workers) && AllFrom(workers, histograms)
    ensures AllRepresent(cfg, workers, Start(cfg).cursors, false)
  {
    hide HistogramWorker.Represents;
    workers := [];
    for i := 0 to |histograms|
      invariant |workers| == i && Distinct(workers) && fresh(workers)
      invariant forall j :: 0 <= j < i ==> workers[j].histogram == histograms[j]
      invariant forall j :: 0 <= j < i ==> workers[j].Represents(cfg, j, Cursor(0, 0, Coarse, false), false)
    {
      var worker := new HistogramWorker(histograms[i], cfg, i);
      workers := workers + [worker];
    }
  }

  datatype Progress = Moving | StuckAt(reason: StuckReason)

  /** Moves the selected worker. The C code does not notice the two failures: with the first it
      reads behind its histogram, with the second it will count an item twice. */
  method MoveWorker(workers: Workers, source: nat, lastRequested: bool,
      ghost cfg: Config, ghost cs: seq<Cursor>, ghost fetched: bool) returns (progress: Progress)
    requires cfg.Valid() && InRange(cfg, cs) && AllRepresent(cfg, workers, cs, fetched)
    requires source < |cs| && !cs[source].complete
    modifies workers
    ensures var c := Advance(cs[source], cfg.step);
      progress == if c.pos >= cfg.n then StuckAt(PastLastBucket)
                  else if c.complete && !lastRequested then StuckAt(CompletedTooEarly) else Moving
    ensures progress.Moving? ==> AllRepresent(cfg, workers, cs[source := Advance(cs[source], cfg.step)], fetched)
  {
    var worker := workers[source];
    HoldsDetailed(worker, cfg, source, cs[source], fetched);
    assert InRange(cfg, cs);
    worker.SetNextHistogram(cfg, source, cs[source], fetched);
    progress := Moving;
    if worker.detailed == [] && worker.endIndex >= |worker.histogram.entries| {
      progress := StuckAt(PastLastBucket);
    } else if worker.complete && !lastRequested {
      progress := StuckAt(CompletedTooEarly);
    }
  }

  method SyncWorkers(workers: Workers, lastRequested: bool, allowCheckRemove: bool, ghost cfg: Config, ghost s: State)
    requires Inv(cfg, s) && AllRepresent(cfg, workers, s.cursors, s.fetched)
    requires allowCheckRemove == (s.dest > 0 && !s.fetched)
    requires lastRequested == LastRequested(cfg, s)
    modifies workers
    ensures AllRepresent(cfg, workers, Synced(cfg, s).cursors, s.fetched)
  {
    hide HistogramWorker.Represents;
    if !lastRequested && allowCheckRemove {
      LeftoversAreResyncable(cfg, s);
      CheckRemoveAll(workers, cfg, s.cursors);
    }
  }

  /** The rest of a pass, once the cursors are in sync. */
  method MoveAndRequest(n: int, nodeid: int, lastRequested: bool, workers: Workers, sources: seq<array<Item>>,
      ghost cfg: Config, ghost s: State) returns (progress: Progress, count: int, requested: bool)
    requires cfg.Valid() && n == cfg.n && InRange(cfg, s.cursors) && Pick(cfg, s.cursors, |s.cursors|) >= 0
    requires AllRepresent(cfg, workers, s.cursors, s.fetched) && HoldsSources(cfg, sources)
    requires lastRequested == LastRequested(cfg, s)
    requires s.fetched ==> forall i :: 0 <= i < |s.cursors| ==> s.cursors[i].window.Detailed?
    modifies workers
    ensures match PassFrom(cfg, s)
      case StepStuck(reason) => progress == StuckAt(reason)
      case Next(s') =>
        && progress == Moving && count == s'.count && requested == (s'.fetched && !s.fetched)
        && AllRepresent(cfg, workers, s'.cursors, s'.fetched)
  {
    hide HistogramWorker.Represents, Total, Pick, HistogramOf, SizeOf;
    count, requested := 0, false;
    var source := SelectWorker(workers, cfg, s.cursors, s.fetched);
    ghost var s' := Moved(cfg, s, source);
    progress := MoveWorker(workers, source, lastRequested, cfg, s.cursors, s.fetched);
    if progress.StuckAt? { return; }
    count := SizeAllProcessedHistograms(workers, cfg, s'.cursors, s.fetched);
    var histogramLen := workers[source].LengthCurrentHistogram(cfg, source, s'.cursors[source], s.fetched);
    HoldsDetailed(workers[source], cfg, source, s'.cursors[source], s.fetched);
    if workers[source].detailed == [] && count + |workers| * histogramLen >= n {
      assert NearQuota(cfg, s', source);
      var ok := RequestAssignDetailedHistogram(histogramLen, n, nodeid, workers, sources, cfg, s'.cursors);
      if !ok { progress := StuckAt(DetailedStillHeld); }
      requested := true;
    }
  }

  lemma FetchedMeansDetailed(cfg: Config, s: State)
    requires Inv(cfg, s) && s.fetched
    ensures forall i :: 0 <= i < |s.cursors| ==> s.cursors[i].window.Detailed?
  {
    forall i | 0 <= i < |s.cursors| ensures s.cursors[i].window.Detailed? {
      assert CursorOk(cfg, s, s.cursors[i]);
    }
  }

  /** The body of the inner loop. */
  method AnalyserPass(n: int, nodeid: int, lastRequested: bool, allowCheckRemove: bool,
      workers: Workers, sources: seq<array<Item>>, ghost cfg: Config, ghost s: State)
      returns (progress: Progress, count: int, requested: bool)
    requires Inv(cfg, s) && s.count < cfg.n == n
    requires AllRepresent(cfg, workers, s.cursors, s.fetched) && HoldsSources(cfg, sources)
    requires allowCheckRemove == (s.dest > 0 && !s.fetched)
    requires lastRequested == LastRequested(cfg, s)
    modifies workers
    ensures match Pass(cfg, s)
      case StepStuck(reason) => progress == StuckAt(reason)
      case Next(s') =>
        && progress == Moving && count == s'.count && requested == (s'.fetched && !s.fetched)
        && AllRepresent(cfg, workers, s'.cursors, s'.fetched)
  {
    hide Quota, Order, History, CursorOk, AllRepresent, PassFrom;
    SyncKeepsInv(cfg, s);
    SomeCursorIsActive(cfg, Synced(cfg, s));
    SyncWorkers(workers, lastRequested, allowCheckRemove, cfg, s);
    if s.fetched { FetchedMeansDetailed(cfg, s); }
    progress, count, requested := MoveAndRequest(n, nodeid, lastRequested, workers, sources, cfg, Synced(cfg, s));
  }

  /** The inner loop: passes until the quota of the destination is met. */
  method AnalyseDestination(n: int, nodeid: int, destination: nat, len: nat,
      workers: Workers, sources: seq<array<Item>>, ghost cfg: Config, ghost start: State)
      returns (progress: Progress, ghost s: State)
    requires Inv(cfg, start) && start.count == 0 && !start.fetched
    requires n == cfg.n && destination == start.dest && len == cfg.Len()
    requires AllRepresent(cfg, workers, start.cursors, false) && HoldsSources(cfg, sources)
    modifies workers
    ensures progress.StuckAt? ==> Run(cfg, start) == Stuck(progress.reason)
    ensures progress == Moving ==>
      && Inv(cfg, s) && s.count >= cfg.n && s.dest == start.dest && s.rows == start.rows && s.fetched
      && Run(cfg, start) == Run(cfg, s) && AllRepresent(cfg, workers, s.cursors, true)
  {
    hide CursorOk, Order, History, AllRepresent, Pass;
    s := start;
    progress := Moving;
    var lastRequested, allowCheckRemove, rangeCount := false, destination > 0, 0;
    while rangeCount < n
      invariant progress == Moving && rangeCount == s.count
      invariant Inv(cfg, s) && s.dest == start.dest && s.rows == start.rows
      invariant Run(cfg, start) == Run(cfg, s)
      invariant AllRepresent(cfg, workers, s.cursors, s.fetched)
      invariant allowCheckRemove == (s.dest > 0 && !s.fetched)
      invariant lastRequested == LastRequested(cfg, s)
      decreases n - rangeCount
    {
      PassKeepsInv(cfg, s);
      var requested;
      progress, rangeCount, requested :=
        AnalyserPass(n, nodeid, lastRequested, allowCheckRemove, workers, sources, cfg, s);
      if progress.StuckAt? { return; }
      s := Pass(cfg, s).state;
      if requested {
        lastRequested := destination + 1 >= len;
        allowCheckRemove := false;
      }
    }
    QuotaMetAfterFetch(cfg, s);
  }

  /** alloc_range_request_analize_histograms. */
  method AnalyseHistograms(n: int, nodeid: int, histograms: seq<Histogram>, sources: seq<array<Item>>,
      ghost cfg: Config) returns (result: AnalysisResult)
    requires cfg.Valid() && n == cfg.n && |histograms| == cfg.Len() && HoldsSources(cfg, sources)
    requires forall i :: 0 <= i < |histograms| ==>
      histograms[i].entries == HistogramOf(cfg.sources[i], 0, cfg.n, cfg.step)
    ensures Inv(cfg, Start(cfg)) && Reports(Run(cfg, Start(cfg)), histograms, result)
  {
    hide CursorOk, Order, History, Quota, AllRepresent, Pass;
    var workers := MakeWorkers(histograms, cfg);
    StartHasInv(cfg);
    var rows: seq<seq<RequestData>> := [];
    var destination := 0;
    ghost var s := Start(cfg);
    while true
      invariant fresh(workers) && AllFrom(workers, histograms)
      invariant Inv(cfg, s) && s.count == 0 && !s.fetched && s.dest == destination
      invariant AllRepresent(cfg, workers, s.cursors, false) && HoldsSources(cfg, sources)
      invariant RecordsRows(s.rows, histograms, rows)
      invariant Run(cfg, Start(cfg)) == Run(cfg, s)
      decreases |histograms| - destination
    {
      var progress;
      progress, s := AnalyseDestination(n, nodeid, destination, |histograms|, workers, sources, cfg, s);
      if progress.StuckAt? {
        return Failed(progress.reason);
      }
      var row := SaveRow(workers, histograms, cfg, s.cursors);
      rows := rows + [row];
      destination := destination + 1;
      if destination >= |histograms| {
        return Ranges(rows);
      }
      ReopenKeepsInv(cfg, s);
      InitAll(workers, cfg, s.cursors);
      s := Reopened(Closed(s));
    }
  }
}
