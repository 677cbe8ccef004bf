/** All nodes together: every source, the manager and every destination run their programs. */
module DistributedSort {
  import opened Sorting
  import opened Sums
  import opened Flattening
  import opened Histograms
  import opened HistogramAnalyser
  import opened RangeCuts
  import opened EvenSources
  import opened EndToEnd
  import opened Nodes
  import R = Receiving
  import S = Stream
  import B = Bytes

  // ----- the network -----

  ghost function Lengths(streams: seq<seq<R.Packet>>): seq<int> {
    seq(|streams|, i requires 0 <= i < |streams| => |streams[i]|)
  }

  /** Memory that nothing has been written to. */
  method Uninitialised(n: nat) returns (bytes: seq<B.Byte>)
    ensures |bytes| == n
  {
    bytes := [];
    for i := 0 to n
      invariant |bytes| == i
    {
      var b: B.Byte :| true;
      bytes := bytes + [b];
    }
  }

  ghost predicate InOrder<T>(s: seq<T>, key: T -> int) {
    forall i, j :: 0 <= i < j < |s| ==> key(s[i]) <= key(s[j])
  }

  function Insert<T>(s: seq<T>, place: nat, x: T): seq<T>
    requires place <= |s|
  {
    s[..place] + [x] + s[place..]
  }

  lemma InsertKeepsOrder<T>(s: seq<T>, place: nat, x: T, key: T -> int)
    requires InOrder(s, key) && place <= |s|
    requires place > 0 ==> key(s[place - 1]) <= key(x)
    requires forall k :: place <= k < |s| ==> key(x) < key(s[k])
    ensures InOrder(Insert(s, place, x), key)
  {
    var t := Insert(s, place, x);
    forall i, j | 0 <= i < j < |t| ensures key(t[i]) <= key(t[j]) {
      if j == place {
        assert key(s[i]) <= key(s[place - 1]);
      } else if i != place {
        assert t[i] == s[if i < place then i else i - 1] && t[j] == s[if j < place then j else j - 1];
      }
    }
  }

  lemma InsertAdds<T>(s: seq<T>, place: nat, x: T)
    requires place <= |s|
    ensures multiset(Insert(s, place, x)) == multiset(s) + multiset{x}
  {
    assert s == s[..place] + s[place..];
  }

  lemma NextOf<T>(s: seq<T>, i: nat)
    requires i < |s|
    ensures multiset(s[..i + 1]) == multiset(s[..i]) + multiset{s[i]}
  {
    assert s[..i + 1] == s[..i] + [s[i]];
  }

  /** What several nodes send to one file arrives in any order. */
  method Arrive<T>(sent: seq<T>) returns (received: seq<T>)
    ensures multiset(received) == multiset(sent)
  {
    received := [];
    for i := 0 to |sent|
      invariant multiset(received) == multiset(sent[..i])
    {
      var place :| 0 <= place <= |received|;
      NextOf(sent, i);
      InsertAdds(received, place, sent[i]);
      received := Insert(received, place, sent[i]);
    }
    assert sent[..|sent|] == sent;
  }

  /** The library's qsort, with a comparator that compares keys. */
  method Qsort<T>(a: seq<T>, key: T -> int) returns (b: seq<T>)
    ensures multiset(b) == multiset(a) && InOrder(b, key)
  {
    hide Insert;
    b := [];
    for i := 0 to |a|
      invariant multiset(b) == multiset(a[..i]) && InOrder(b, key)
    {
      var place := |b|;
      while place > 0 && key(b[place - 1]) > key(a[i])
        invariant 0 <= place <= |b|
        invariant forall k :: place <= k < |b| ==> key(a[i]) < key(b[k])
      {
        place := place - 1;
      }
      NextOf(a, i);
      InsertAdds(b, place, a[i]);
      InsertKeepsOrder(b, place, a[i], key);
      b := Insert(b, place, a[i]);
    }
    assert a[..|a|] == a;
  }

  /** The packets of several senders reach a receiver in any order that keeps each sender's own. */
  method Deliver(streams: seq<seq<R.Packet>>)
      returns (messages: seq<S.Message>, ghost merged: seq<R.Packet>)
    ensures R.Interleaves(streams, merged) && R.Carries(messages, merged)
    decreases Total(Lengths(streams))
  {
    TotalAtLeast(Lengths(streams), 0);
    if forall i :: 0 <= i < |streams| ==> streams[i] == [] {
      return [], [];
    }
    var i :| 0 <= i < |streams| && streams[i] != [];
    var before, last := streams[i][..|streams[i]| - 1], streams[i][|streams[i]| - 1];
    TotalUpdate(Lengths(streams), i, |before|);
    assert Lengths(streams)[i := |before|] == Lengths(streams[i := before]);
    messages, merged := Deliver(streams[i := before]);
    AppendInterleaves(streams, i, merged);
    var noise := Uninitialised(R.NOISE_SIZE);
    AppendCarries(messages, merged, last, noise);
    messages, merged := messages + [R.Encode(last, noise)], merged + [last];
  }

  lemma AppendInterleaves(streams: seq<seq<R.Packet>>, i: nat, merged: seq<R.Packet>)
    requires i < |streams| && streams[i] != []
    requires R.Interleaves(streams[i := streams[i][..|streams[i]| - 1]], merged)
    ensures R.Interleaves(streams, merged + [streams[i][|streams[i]| - 1]])
  {
    var merged' := merged + [streams[i][|streams[i]| - 1]];
    assert merged'[..|merged'| - 1] == merged;
    assert R.TakesLast(streams[i], merged');
  }

  lemma AppendCarries(messages: seq<S.Message>, packets: seq<R.Packet>, p: R.Packet, noise: seq<B.Byte>)
    requires R.Carries(messages, packets) && |noise| == R.NOISE_SIZE
    ensures R.Carries(messages + [R.Encode(p, noise)], packets + [p])
  {
    assert R.IsEncodingOf(R.Encode(p, noise), p);
    hide R.IsEncodingOf;
  }

  // ----- the nodes -----

  /** Every source sorts its data and describes it. */
  method StartSources(unsorted: seq<array<Item>>, n: nat, step: nat)
      returns (sorted: seq<array<Item>>, crcs: seq<Item>, histograms: seq<Histogram>)
    requires n > 0 && step > 0 && forall i :: 0 <= i < |unsorted| ==> unsorted[i].Length == n
    ensures |sorted| == |crcs| == |histograms| == |unsorted|
    ensures forall i :: 0 <= i < |unsorted| ==>
      Started(unsorted[i][..], n, step, i, sorted[i][..], crcs[i], histograms[i])
  {
    hide Started;
    sorted, crcs, histograms := [], [], [];
    for i := 0 to |unsorted|
      invariant |sorted| == |crcs| == |histograms| == i
      invariant forall k :: 0 <= k < i ==> Started(unsorted[k][..], n, step, k, sorted[k][..], crcs[k], histograms[k])
    {
      var part, crc, histogram := SourceStart(unsorted[i], FIRST_SOURCE_NODEID + i, step);
      ItStarted(unsorted[i][..], n, step, i, part[..], crc, histogram);
      sorted, crcs, histograms := sorted + [part], crcs + [crc], histograms + [histogram];
    }
  }

  ghost predicate Started(unsorted: seq<Item>, n: nat, step: nat, i: nat, sorted: seq<Item>, crc: Item, h: Histogram)
    requires step > 0
  {
    && |sorted| == n && Sorted(sorted) && multiset(sorted) == multiset(unsorted) && IsCrcOf(crc, sorted)
    && h == Histogram(FIRST_SOURCE_NODEID + i, HistogramOf(sorted, 0, |sorted|, step))
  }

  lemma ItStarted(unsorted: seq<Item>, n: nat, step: nat, i: nat, sorted: seq<Item>, crc: Item, h: Histogram)
    requires step > 0 && |sorted| == n && Sorted(sorted) && multiset(sorted) == multiset(unsorted)
    requires IsCrcOf(crc, unsorted) && h == Histogram(FIRST_SOURCE_NODEID + i, HistogramOf(sorted, 0, |sorted|, step))
    ensures Started(unsorted, n, step, i, sorted, crc, h)
  {
    SumOfPermutation(sorted, unsorted);
  }

  /** streams[i][j] is what source i sends to destination j. */
  ghost predicate Sent(cfg: Config, rows: seq<seq<Range>>, streams: seq<seq<seq<R.Packet>>>)
    requires cfg.Valid() && forall j :: 0 <= j < |rows| ==> RowInRange(cfg, rows[j])
  {
    |streams| == cfg.Len() && forall i :: 0 <= i < cfg.Len() ==>
      |streams[i]| == |rows| && forall j :: 0 <= j < |rows| ==> R.IsTransfer(streams[i][j], Slice(cfg, rows[j], i))
  }

  /** Every source sends its ranges. */
  method SendRanges(sorted: seq<array<Item>>, files: seq<Written>, ghost cfg: Config, ghost rows: seq<seq<Range>>)
      returns (streams: seq<seq<seq<R.Packet>>>)
    requires cfg.Valid() && R.ITEM_SIZE * cfg.n <= R.INT_MAX && HoldsSources(cfg, sorted) && |files| == cfg.Len()
    requires forall j :: 0 <= j < |rows| ==> RowInRange(cfg, rows[j])
    requires forall i :: 0 <= i < cfg.Len() ==> TellsSource(rows, i, files[i].told)
    ensures Sent(cfg, rows, streams)
  {
    hide TellsSource, R.IsTransfer, Slice;
    streams := [];
    for i := 0 to |sorted|
      invariant |streams| == i
      invariant forall k :: 0 <= k < i ==>
        |streams[k]| == |rows| && forall j :: 0 <= j < |rows| ==> R.IsTransfer(streams[k][j], Slice(cfg, rows[j], k))
    {
      var stream := SourceNode(sorted[i], files[i].told, cfg, rows, i);
      streams := streams + [stream];
    }
  }

  /** What the packets to destination d are, source by source. */
  function Column(streams: seq<seq<seq<R.Packet>>>, d: nat): seq<seq<R.Packet>>
    requires forall i :: 0 <= i < |streams| ==> d < |streams[i]|
  {
    seq(|streams|, i requires 0 <= i < |streams| => streams[i][d])
  }

  /** Every destination receives its packets, sorts them, and describes its output. */
  method RunDestinations(n: nat, streams: seq<seq<seq<R.Packet>>>, ghost cfg: Config, ghost rows: seq<seq<Range>>)
      returns (outputs: seq<seq<Item>>, results: seq<SortResult>)
    requires cfg.Valid() && cfg.n == n && R.ITEM_SIZE * n <= R.INT_MAX && cfg.Len() <= R.INT_MAX
    requires |rows| == cfg.Len()
    requires forall j :: 0 <= j < |rows| ==> RowInRange(cfg, rows[j]) && Total(RowSizes(rows[j])) == n
    requires Sent(cfg, rows, streams)
    ensures |outputs| == |results| == |rows| && Delivered(cfg, rows, outputs) && Describes(results, outputs)
    ensures forall d :: 0 <= d < |results| ==> results[d].nodeid == FIRST_DEST_NODEID + d
  {
    hide Total, RowSizes, R.IsTransfer, Slices, Slice, Flatten, Sorted, R.Interleaves, R.Carries, IsCrcOf, RowInRange;
    outputs, results := [], [];
    for d := 0 to |streams|
      invariant |outputs| == |results| == d
      invariant forall k :: 0 <= k < d ==>
        Sorted(outputs[k]) && multiset(outputs[k]) == multiset(Flatten(Slices(cfg, rows[k])))
      invariant Describes(results, outputs)
      invariant forall k :: 0 <= k < d ==> results[k].nodeid == FIRST_DEST_NODEID + k
    {
      var messages, merged := Deliver(Column(streams, d));
      var sock := new S.SockFile(messages);
      var sorted := DestinationNode(sock, n, |streams|, cfg, rows[d], Column(streams, d), merged);
      var result := WriteSortResult(FIRST_DEST_NODEID + d, sorted);
      outputs, results := outputs + [sorted[..]], results + [result];
    }
  }

  // ----- the whole system -----

  datatype SystemResult =
    | GaveUp(reason: StuckReason)
    | Finished(outputs: seq<seq<Item>>, sortOk: bool, crcTestUnsorted: Item, crcTestSorted: Item)

  /** What the system makes of a run of the analyser: a stuck run ends it; otherwise no item is lost,
      the checksums agree, and the outputs are sorted exactly if the boundaries agree. The verdict
      accepts them exactly if, besides, no value crosses a cut or fills an output but the first. */
  ghost predicate Achieves(cfg: Config, o: Outcome, result: SystemResult)
    requires cfg.Valid()
  {
    match o
    case Stuck(reason) => result == GaveUp(reason)
    case Done(rows, _, _) =>
      && result.Finished? && |result.outputs| == cfg.Len()
      && (forall d :: 0 <= d < cfg.Len() ==> |result.outputs[d]| == cfg.n > 0)
      && multiset(Flatten(result.outputs)) == multiset(Flatten(cfg.sources))
      && (Sorted(Flatten(result.outputs)) <==> BoundariesAgree(cfg, rows))
      && result.crcTestUnsorted == result.crcTestSorted
      && (result.sortOk <==> BoundariesAgree(cfg, rows) && NoValueCrosses(result.outputs))
  }

  ghost predicate NoValueCrosses(outputs: seq<seq<Item>>)
    requires forall d :: 0 <= d < |outputs| ==> outputs[d] != []
  {
    && (forall i :: 0 < i < |outputs| ==> outputs[i - 1][|outputs[i - 1]| - 1] != outputs[i][0])
    && (forall i :: 0 < i < |outputs| ==> outputs[i][0] != outputs[i][|outputs[i]| - 1])
  }

  ghost function Contents(arrays: seq<array<Item>>): seq<seq<Item>>
    reads arrays
  {
    seq(|arrays|, i requires 0 <= i < |arrays| reads arrays => arrays[i][..])
  }

  /** The configuration that sorted arrays make. */
  ghost function ConfigOf(sorted: seq<array<Item>>, n: nat, step: nat): Config
    reads sorted
  {
    Config(Contents(sorted), n, step)
  }

  lemma HistogramsAreInOrder(unsorted: seq<array<Item>>, sorted: seq<array<Item>>, crcs: seq<Item>, n: nat, step: nat,
      histograms: seq<Histogram>, inOrder: seq<Histogram>)
    requires step > 0 && |unsorted| == |sorted| == |crcs| == |histograms|
    requires forall i :: 0 <= i < |unsorted| ==>
      Started(unsorted[i][..], n, step, i, sorted[i][..], crcs[i], histograms[i])
    requires multiset(inOrder) == multiset(histograms)
    requires forall i, j :: 0 <= i < j < |inOrder| ==> inOrder[i].srcNodeid <= inOrder[j].srcNodeid
    ensures inOrder == histograms
  {
    ArrivalOrderIsIrrelevant(histograms, inOrder);
  }

  /** All programs, one after the other. Checksums, histograms and results arrive in any order;
      histograms and results are then put in node order. */
  method SortAll(unsorted: seq<array<Item>>, n: R.CInt, step: nat, nodeid: int)
      returns (result: SystemResult, ghost cfg: Config)
    requires |unsorted| > 0 && step > 0 && |unsorted| * step + step <= n && R.ITEM_SIZE * n <= R.INT_MAX
    requires forall i :: 0 <= i < |unsorted| ==> unsorted[i].Length == n
    ensures cfg.Valid() && cfg.n == n && cfg.step == step && cfg.Len() == |unsorted|
    ensures forall i :: 0 <= i < |unsorted| ==> multiset(cfg.sources[i]) == multiset(unsorted[i][..])
    ensures Inv(cfg, Start(cfg)) && Achieves(cfg, Run(cfg, Start(cfg)), result)
    ensures result.Finished? ==>
      && |result.outputs| == |unsorted|
      && multiset(Flatten(result.outputs)) == multiset(Flatten(Contents(unsorted)))
      && result.crcTestUnsorted == result.crcTestSorted
      && (result.sortOk ==> Sorted(Flatten(result.outputs)))
  {
    hide Inv, Run, Reports, Sent, Delivered, Describes, Achieves, Flatten, Start, RunHolds, TellsSource, Sorted;
    hide HistogramOf, Sum, StrictlyApart, Crcs, Total;
    var sorted, crcs, histograms := StartSources(unsorted, n, step);
    cfg := ConfigOf(sorted, n, step);
    assert cfg.Valid() && HoldsSources(cfg, sorted);
    var arrived := Arrive(histograms);
    var inOrder := Qsort(arrived, (h: Histogram) => h.srcNodeid);
    HistogramsAreInOrder(unsorted, sorted, crcs, n, step, histograms, inOrder);
    var ranges, files := ManagerNode(n, nodeid, inOrder, sorted, cfg);
    ghost var o := Run(cfg, Start(cfg));
    StuckIsReported(cfg, o, histograms, ranges);
    if ranges.Failed? {
      return GaveUp(ranges.reason), cfg;
    }
    RunKeepsPromises(cfg, Start(cfg));
    RowsOfRun(cfg, o);
    var streams := SendRanges(sorted, files, cfg, o.rows);
    var outputs, results := RunDestinations(n, streams, cfg, o.rows);
    var arrivedResults := Arrive(results);
    var resultsInOrder := Qsort(arrivedResults, (r: SortResult) => r.nodeid);
    ResultOrderIsIrrelevant(results, resultsInOrder);
    var arrivedCrcs := Arrive(crcs);
    SumOfPermutation(arrivedCrcs, crcs);
    SamePermutationLength(arrivedCrcs, crcs);
    var sortOk, crcTestUnsorted, crcTestSorted := Verdict(arrivedCrcs, resultsInOrder);
    result := Finished(outputs, sortOk, crcTestUnsorted, crcTestSorted);
    WhatIsAchieved(cfg, o, crcs, outputs, results, result);
    FlattenPermuted(cfg.sources, Contents(unsorted));
  }

  lemma WhatIsAchieved(cfg: Config, o: Outcome, crcs: seq<Item>, outputs: seq<seq<Item>>, results: seq<SortResult>,
      result: SystemResult)
    requires cfg.Valid() && o.Done? && RunHolds(cfg, o) && Delivered(cfg, o.rows, outputs)
    requires Describes(results, outputs) && |crcs| == cfg.Len()
    requires forall i :: 0 <= i < |crcs| ==> IsCrcOf(crcs[i], cfg.sources[i])
    requires result.Finished? && result.outputs == outputs
    requires result.sortOk <==> StrictlyApart(results, |results|)
    requires result.crcTestUnsorted == Sum(crcs) % CRC_ATOM && result.crcTestSorted == Sum(Crcs(results)) % CRC_ATOM
    ensures Achieves(cfg, o, result)
    ensures |result.outputs| == cfg.Len() && multiset(Flatten(result.outputs)) == multiset(Flatten(cfg.sources))
    ensures result.crcTestUnsorted == result.crcTestSorted && (result.sortOk ==> Sorted(Flatten(result.outputs)))
  {
    hide RunHolds, Delivered, Describes, BoundariesAgree, Flatten, Sorted, StrictlyApart, Crcs, Sum, NoValueCrosses;
    hide IsCrcOf;
    OutputsAreFull(cfg, o, outputs);
    SortIsCorrectExactly(cfg, o, outputs);
    ChecksumsAgree(cfg.sources, crcs, outputs, results);
    VerdictCovers(outputs, results);
  }

  lemma VerdictCovers(outputs: seq<seq<Item>>, results: seq<SortResult>)
    requires Describes(results, outputs)
    requires forall i :: 0 <= i < |outputs| ==> outputs[i] != [] && Sorted(outputs[i])
    ensures |results| == |outputs|
    ensures StrictlyApart(results, |results|) <==> Sorted(Flatten(outputs)) && NoValueCrosses(outputs)
  {
    hide Sorted, Flatten, StrictlyApart;
    VerdictMeaning(outputs, results);
  }

  lemma OutputsAreFull(cfg: Config, o: Outcome, outputs: seq<seq<Item>>)
    requires cfg.Valid() && o.Done? && RunHolds(cfg, o) && Delivered(cfg, o.rows, outputs)
    ensures |outputs| == cfg.Len() && forall d :: 0 <= d < |outputs| ==> |outputs[d]| == cfg.n && Sorted(outputs[d])
  {
    hide Tiles, CutHolds, Sorted, Flatten, Slices, Total, RowSizes;
    forall d | 0 <= d < |outputs| ensures |outputs[d]| == cfg.n && Sorted(outputs[d]) {
      SlicesFillQuota(cfg, o.rows[d]);
      SamePermutationLength(outputs[d], Flatten(Slices(cfg, o.rows[d])));
    }
  }

  lemma StuckIsReported(cfg: Config, o: Outcome, histograms: seq<Histogram>, ranges: AnalysisResult)
    requires cfg.Valid() && Reports(o, histograms, ranges)
    ensures ranges.Failed? <==> o.Stuck?
    ensures ranges.Failed? ==> Achieves(cfg, o, GaveUp(ranges.reason))
  {
  }

  lemma RowsOfRun(cfg: Config, o: Outcome)
    requires cfg.Valid() && o.Done? && RunHolds(cfg, o)
    ensures |o.rows| == cfg.Len()
    ensures forall j :: 0 <= j < |o.rows| ==> RowInRange(cfg, o.rows[j]) && Total(RowSizes(o.rows[j])) == cfg.n
  {
  }

  /** On even sources the system finishes, with the sorted permutation of all their items. */
  lemma EvenSourcesAreSorted(cfg: Config, d: Skew, result: SystemResult)
    requires Even(cfg, d) && Inv(cfg, Start(cfg)) && Achieves(cfg, Run(cfg, Start(cfg)), result)
    ensures result.Finished? && Sorted(Flatten(result.outputs))
    ensures multiset(Flatten(result.outputs)) == multiset(Flatten(cfg.sources))
  {
    StartIsEven(cfg, d);
    EvenRunFinishes(cfg, d, Start(cfg));
    RunKeepsPromises(cfg, Start(cfg));
    hide Run, Inv, EvenInv, CutsExact, Start, Even;
    var o := Run(cfg, Start(cfg));
    ExactCutsAgree(cfg, o.rows, o.cuts);
  }
}
