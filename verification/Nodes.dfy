/** The main programs of the nodes, the theorems about the whole system, and the verdict. */
module Nodes {
  import opened Sorting
  import opened Sums
  import opened Flattening
  import opened RangeCuts
  import opened EvenSources
  import opened EndToEnd
  import opened Histograms
  import opened HistogramAnalyser
  import R = Receiving
  import S = Stream
  import B = Bytes

  // ----- a destination -----

  /** The streams are the transfers of what the sources owe the destination of this row. */
  ghost predicate SendsRow(cfg: Config, row: seq<Range>, streams: seq<seq<R.Packet>>)
    requires cfg.Valid() && RowInRange(cfg, row)
  {
    |streams| == cfg.Len() && forall i :: 0 <= i < cfg.Len() ==> R.IsTransfer(streams[i], Slice(cfg, row, i))
  }

  lemma TransferCounts(packets: seq<R.Packet>, items: seq<Item>)
    requires R.IsTransfer(packets, items)
    ensures R.Arrived(packets) == items && R.Announced(packets) == R.ITEM_SIZE * |items|
    ensures R.RangeCount(packets) == 1 && R.PartsAreFilled(packets)
  {
    CountsOfTransfer(packets, |packets|);
    assert packets[..|packets|] == packets;
  }

  lemma {:induction false} CountsOfTransfer(packets: seq<R.Packet>, m: nat)
    requires 1 <= m <= |packets| && packets[0].Announce?
    requires forall k :: 1 <= k < |packets| ==> packets[k].Part?
    ensures R.Announced(packets[..m]) == packets[0].size && R.RangeCount(packets[..m]) == 1
  {
    R.PrefixStep(packets, m - 1);
    if m > 1 {
      CountsOfTransfer(packets, m - 1);
    } else {
      assert packets[..0] == [];
    }
  }

  /** However the packets of the sources interleave, the destination gets its quota. */
  lemma RowArrives(cfg: Config, row: seq<Range>, streams: seq<seq<R.Packet>>, merged: seq<R.Packet>)
    requires cfg.Valid() && RowInRange(cfg, row) && Total(RowSizes(row)) == cfg.n
    requires SendsRow(cfg, row, streams) && R.Interleaves(streams, merged)
    requires R.ITEM_SIZE * cfg.n <= R.INT_MAX
    ensures R.IsTraffic(merged, cfg.Len()) && |R.Arrived(merged)| == cfg.n
    ensures multiset(R.Arrived(merged)) == multiset(Flatten(Slices(cfg, row)))
  {
    var sizes := RowSizes(row);
    forall i | 0 <= i < cfg.Len()
      ensures R.PartsAreFilled(streams[i]) && R.ArrivedOf(streams)[i] == Slices(cfg, row)[i]
      ensures R.AnnouncedOf(streams)[i] == R.ITEM_SIZE * sizes[i] && R.RangeCountOf(streams)[i] == 1
    {
      TransferCounts(streams[i], Slice(cfg, row, i));
    }
    R.InterleavingDeliversAll(streams, merged);
    assert R.ArrivedOf(streams) == Slices(cfg, row);
    SlicesFillQuota(cfg, row);
    SamePermutationLength(R.Arrived(merged), Flatten(Slices(cfg, row)));
    TotalConstant(R.RangeCountOf(streams), 1);
    TotalScaled(sizes, R.AnnouncedOf(streams), R.ITEM_SIZE);
  }

  lemma {:induction false} TotalScaled(s: seq<int>, t: seq<int>, factor: int)
    requires |s| == |t| && forall i :: 0 <= i < |s| ==> t[i] == factor * s[i]
    ensures Total(t) == factor * Total(s)
  {
    if s != [] { TotalScaled(s[..|s| - 1], t[..|t| - 1], factor); }
  }

  /** The destination's main program: receive into a buffer for n items, and sort it. */
  method DestinationNode(sock: S.SockFile, n: nat, rangesCount: R.CInt,
      ghost cfg: Config, ghost row: seq<Range>, ghost streams: seq<seq<R.Packet>>, ghost merged: seq<R.Packet>)
      returns (sorted: array<Item>)
    requires cfg.Valid() && RowInRange(cfg, row) && Total(RowSizes(row)) == cfg.n == n && rangesCount == cfg.Len()
    requires SendsRow(cfg, row, streams) && R.Interleaves(streams, merged) && R.ITEM_SIZE * n <= R.INT_MAX
    requires sock.tempbuf == S.NoBuffer && R.Carries(sock.incoming, merged)
    modifies sock
    ensures sock.incoming == []
    ensures sorted.Length == n && Sorted(sorted[..])
    ensures multiset(sorted[..]) == multiset(Flatten(Slices(cfg, row)))
  {
    hide SendsRow, R.Interleaves, R.Carries, R.IsTraffic, Slices, Flatten, R.ItemBytes, R.BytesToItems;
    hide R.Arrived, Sorted, RowInRange, RowSizes, Total;
    RowArrives(cfg, row, streams, merged);
    var buffer := new B.Byte[R.ITEM_SIZE * n](_ => 0);
    var received, replies := R.ReadSortedRanges(sock, buffer, rangesCount, merged);
    assert buffer[..received] == buffer[..];
    R.ItemsRoundTrip(R.Arrived(merged));
    var items := R.BytesToItems(buffer[..]);
    var unsorted := new Item[n](i requires 0 <= i < n => items[i]);
    assert unsorted[0..n] == items;
    sorted := AllocMergeSort(unsorted, 0, n);
  }

  // ----- the whole system -----

  /** Output d is what destination d makes of some interleaving of the packets it is owed. */
  ghost predicate Produced(cfg: Config, rows: seq<seq<Range>>, streams: seq<seq<seq<R.Packet>>>,
      merged: seq<seq<R.Packet>>, outputs: seq<seq<Item>>)
    requires cfg.Valid()
  {
    |rows| == |streams| == |merged| == |outputs| &&
    forall d :: 0 <= d < |rows| ==>
      && RowInRange(cfg, rows[d]) && SendsRow(cfg, rows[d], streams[d]) && R.Interleaves(streams[d], merged[d])
      && Sorted(outputs[d]) && multiset(outputs[d]) == multiset(R.Arrived(merged[d]))
  }

  lemma ProducedIsDelivered(cfg: Config, o: Outcome, streams: seq<seq<seq<R.Packet>>>,
      merged: seq<seq<R.Packet>>, outputs: seq<seq<Item>>)
    requires cfg.Valid() && o.Done? && RunHolds(cfg, o) && R.ITEM_SIZE * cfg.n <= R.INT_MAX
    requires Produced(cfg, o.rows, streams, merged, outputs)
    ensures Delivered(cfg, o.rows, outputs)
  {
    hide Sorted, R.Interleaves, SendsRow, Slices, Tiles, CutHolds, RowInRange;
    forall d | 0 <= d < |o.rows|
      ensures multiset(outputs[d]) == multiset(Flatten(Slices(cfg, o.rows[d])))
    {
      RowArrives(cfg, o.rows[d], streams[d], merged[d]);
    }
  }

  /** The distributed sort: whatever the sources hold and in whatever order the packets arrive, a
      run that finishes loses nothing, and it sorts exactly if its boundaries agree. */
  lemma DistributedSortExactly(cfg: Config, streams: seq<seq<seq<R.Packet>>>,
      merged: seq<seq<R.Packet>>, outputs: seq<seq<Item>>)
    requires cfg.Valid() && R.ITEM_SIZE * cfg.n <= R.INT_MAX
    ensures Inv(cfg, Start(cfg))
    ensures var o := Run(cfg, Start(cfg));
      o.Done? && Produced(cfg, o.rows, streams, merged, outputs) ==>
        && multiset(Flatten(outputs)) == multiset(Flatten(cfg.sources))
        && (Sorted(Flatten(outputs)) <==> BoundariesAgree(cfg, o.rows))
  {
    StartHasInv(cfg);
    hide Run, Produced, Flatten, Sorted, BoundariesAgree, Start, Inv;
    var o := Run(cfg, Start(cfg));
    if o.Done? && Produced(cfg, o.rows, streams, merged, outputs) {
      RunKeepsPromises(cfg, Start(cfg));
      ProducedIsDelivered(cfg, o, streams, merged, outputs);
      SortIsCorrectExactly(cfg, o, outputs);
    }
  }

  /** For sources that are spread evenly no condition is left: the run finishes, and the outputs of
      the destinations, one after the other, are the sorted input. */
  lemma DistributedSortIsCorrect(cfg: Config, skew: Skew, streams: seq<seq<seq<R.Packet>>>,
      merged: seq<seq<R.Packet>>, outputs: seq<seq<Item>>)
    requires Even(cfg, skew) && R.ITEM_SIZE * cfg.n <= R.INT_MAX
    ensures Inv(cfg, Start(cfg)) && Run(cfg, Start(cfg)).Done?
    ensures Produced(cfg, Run(cfg, Start(cfg)).rows, streams, merged, outputs) ==>
      Sorted(Flatten(outputs)) && multiset(Flatten(outputs)) == multiset(Flatten(cfg.sources))
  {
    EvenSortIsCorrect(cfg, skew, outputs);
    RunKeepsPromises(cfg, Start(cfg));
    var o := Run(cfg, Start(cfg));
    if Produced(cfg, o.rows, streams, merged, outputs) {
      ProducedIsDelivered(cfg, o, streams, merged, outputs);
    }
  }

  // ----- the manager: order of the sources, and routing -----

  /** histogram_srcid_comparator. */
  function HistogramSrcidComparator(t1: Histogram, t2: Histogram): int {
    if t1.srcNodeid < t2.srcNodeid then -1 else if t1.srcNodeid > t2.srcNodeid then 1 else 0
  }

  /** What qsort makes of the histograms received is what the sources have sent, in node order. */
  lemma ArrivalOrderIsIrrelevant(sent: seq<Histogram>, histograms: seq<Histogram>)
    requires forall i :: 0 <= i < |sent| ==> sent[i].srcNodeid == FIRST_SOURCE_NODEID + i
    requires multiset(histograms) == multiset(sent)
    requires forall i, j :: 0 <= i < j < |histograms| ==> HistogramSrcidComparator(histograms[i], histograms[j]) <= 0
    ensures histograms == sent
  {
    SortedByKeyIsUnique(histograms, sent, (h: Histogram) => h.srcNodeid);
  }

  /** Among permutations with distinct keys there is only one in the order of the keys. */
  lemma {:induction false} SortedByKeyIsUnique<T>(s: seq<T>, t: seq<T>, key: T -> int)
    requires multiset(s) == multiset(t)
    requires forall i, j :: 0 <= i < j < |t| ==> key(t[i]) < key(t[j])
    requires forall i, j :: 0 <= i < j < |s| ==> key(s[i]) <= key(s[j])
    ensures s == t
  {
    assert |s| == |multiset(s)| == |multiset(t)| == |t|;
    if s != [] {
      SameHead(s, t, key);
      TailsArePermutations(s, t);
      SortedByKeyIsUnique(s[1..], t[1..], key);
      assert s == [s[0]] + s[1..] && t == [t[0]] + t[1..];
    }
  }

  lemma SameHead<T>(s: seq<T>, t: seq<T>, key: T -> int)
    requires s != [] && t != [] && multiset(s) == multiset(t)
    requires forall i :: 0 < i < |t| ==> key(t[0]) < key(t[i])
    requires forall i :: 0 < i < |s| ==> key(s[0]) <= key(s[i])
    ensures s[0] == t[0]
  {
    assert s[0] in multiset(t) && t[0] in multiset(s);
    var a :| 0 <= a < |t| && t[a] == s[0];
    var b :| 0 <= b < |s| && s[b] == t[0];
    assert a == 0;
  }

  const MANAGER_FD_WRITE_RANGE_REQUEST := 104

  /** What source node i is told: for every destination j the range it has to send there. */
  ghost predicate RoutesColumn(range: seq<seq<RequestData>>, i: nat, told: seq<RequestData>) {
    |told| == |range| &&
    forall j :: 0 <= j < |range| && i < |range[j]| ==> told[j] == range[j][i].(dstNodeid := FIRST_DEST_NODEID + j)
  }

  /** write_range_request. */
  method WriteRangeRequest(range: seq<seq<RequestData>>, len: nat, i: nat) returns (told: seq<RequestData>)
    requires len == |range| && forall j :: 0 <= j < len ==> i < |range[j]|
    ensures RoutesColumn(range, i, told)
  {
    told := [];
    for j := 0 to len
      invariant |told| == j
      invariant forall k :: 0 <= k < j ==> told[k] == range[k][i].(dstNodeid := FIRST_DEST_NODEID + k)
    {
      told := told + [range[j][i].(dstNodeid := j + FIRST_DEST_NODEID)];
    }
  }

  /** What is written to which file descriptor. */
  datatype Written = Written(fd: int, told: seq<RequestData>)

  /** The manager's loop over the sources; every request goes out by the file descriptor of the
      source that the analyser recorded. */
  method SendRangeRequests(range: seq<seq<RequestData>>, len: nat) returns (files: seq<Written>)
    requires len == |range| > 0 && forall j :: 0 <= j < len ==> |range[j]| == len
    ensures |files| == len
    ensures forall i :: 0 <= i < len ==>
      files[i].fd == range[0][i].srcNodeid - FIRST_SOURCE_NODEID + MANAGER_FD_WRITE_RANGE_REQUEST &&
      RoutesColumn(range, i, files[i].told)
  {
    files := [];
    for i := 0 to len
      invariant |files| == i
      invariant forall k :: 0 <= k < i ==>
        files[k].fd == range[0][k].srcNodeid - FIRST_SOURCE_NODEID + MANAGER_FD_WRITE_RANGE_REQUEST &&
        RoutesColumn(range, k, files[k].told)
    {
      var srcNodeid := range[0][i].srcNodeid;
      var told := WriteRangeRequest(range, len, i);
      files := files + [Written(srcNodeid - FIRST_SOURCE_NODEID + MANAGER_FD_WRITE_RANGE_REQUEST, told)];
    }
  }

  // ----- the programs that come before the destinations -----

  /** The first half of a source's main program: sort, check, and describe the data. The check
      never fails, so the program never gives up here. */
  method SourceStart(unsorted: array<Item>, nodeid: int, step: nat)
      returns (sorted: array<Item>, crc: Item, histogram: Histogram)
    requires step > 0 && unsorted.Length > 0
    ensures fresh(sorted) && Sorted(sorted[..]) && multiset(sorted[..]) == multiset(unsorted[..])
    ensures sorted.Length == unsorted.Length && IsCrcOf(crc, unsorted[..])
    ensures histogram == Histogram(nodeid, HistogramOf(sorted[..], 0, sorted.Length, step))
  {
    var ok;
    sorted, ok := RunSort(unsorted);
    SamePermutationLength(sorted[..], unsorted[..]);
    crc := ArrayCrc(sorted);
    SumOfPermutation(sorted[..], unsorted[..]);
    var entries := AllocHistogramArray(sorted, 0, sorted.Length, step);
    histogram := Histogram(nodeid, entries[..]);
  }

  /** The manager's main program up to the requests: what it tells source i about destination j is
      the range that the run has found, sent by the descriptor of source i. */
  method ManagerNode(n: int, nodeid: int, histograms: seq<Histogram>, sources: seq<array<Item>>,
      ghost cfg: Config) returns (result: AnalysisResult, files: seq<Written>)
    requires cfg.Valid() && n == cfg.n && |histograms| == cfg.Len() && HoldsSources(cfg, sources)
    requires forall i :: 0 <= i < |histograms| ==>
      histograms[i] == Histogram(FIRST_SOURCE_NODEID + i, HistogramOf(cfg.sources[i], 0, cfg.n, cfg.step))
    ensures Inv(cfg, Start(cfg)) && Reports(Run(cfg, Start(cfg)), histograms, result)
    ensures result.Ranges? ==> |files| == cfg.Len() && forall i :: 0 <= i < cfg.Len() ==>
      files[i].fd == MANAGER_FD_WRITE_RANGE_REQUEST + i && TellsSource(Run(cfg, Start(cfg)).rows, i, files[i].told)
  {
    hide Reports, RunHolds;
    result := AnalyseHistograms(n, nodeid, histograms, sources, cfg);
    files := [];
    if result.Ranges? {
      ReportedShape(cfg, histograms, result);
      files := SendRangeRequests(result.range, |histograms|);
    }
  }

  /** Source i is told its ranges, one for each destination. */
  ghost predicate TellsSource(rows: seq<seq<Range>>, i: nat, told: seq<RequestData>) {
    |told| == |rows| && forall j :: 0 <= j < |rows| ==>
      && i < |rows[j]| && told[j].dstNodeid == FIRST_DEST_NODEID + j
      && told[j].firstItemIndex == rows[j][i].first && told[j].lastItemIndex == rows[j][i].last
  }

  lemma ReportedShape(cfg: Config, histograms: seq<Histogram>, result: AnalysisResult)
    requires cfg.Valid() && Inv(cfg, Start(cfg)) && |histograms| == cfg.Len()
    requires Reports(Run(cfg, Start(cfg)), histograms, result) && result.Ranges?
    ensures Run(cfg, Start(cfg)).Done? && |result.range| == cfg.Len()
    ensures forall j :: 0 <= j < cfg.Len() ==> |result.range[j]| == cfg.Len()
    ensures forall i :: 0 <= i < cfg.Len() ==> result.range[0][i].srcNodeid == histograms[i].srcNodeid
    ensures forall i, told :: 0 <= i < cfg.Len() && RoutesColumn(result.range, i, told) ==>
      TellsSource(Run(cfg, Start(cfg)).rows, i, told)
  {
    hide Run, Inv;
    RunKeepsPromises(cfg, Start(cfg));
  }

  /** The second half of a source's main program: every destination is sent its range. */
  method SourceNode(sorted: array<Item>, told: seq<RequestData>,
      ghost cfg: Config, ghost rows: seq<seq<Range>>, ghost i: nat) returns (streams: seq<seq<R.Packet>>)
    requires cfg.Valid() && i < cfg.Len() && sorted[..] == cfg.sources[i] && R.ITEM_SIZE * cfg.n <= R.INT_MAX
    requires TellsSource(rows, i, told) && forall j :: 0 <= j < |rows| ==> RowInRange(cfg, rows[j])
    ensures |streams| == |rows|
    ensures forall j :: 0 <= j < |rows| ==> R.IsTransfer(streams[j], Slice(cfg, rows[j], i))
  {
    streams := [];
    for j := 0 to |told|
      invariant |streams| == j
      invariant forall k :: 0 <= k < j ==> R.IsTransfer(streams[k], Slice(cfg, rows[k], i))
    {
      var sent := R.WriteSortedRanges(sorted, told[j].firstItemIndex, told[j].lastItemIndex);
      assert sorted[told[j].firstItemIndex..told[j].lastItemIndex + 1] == Slice(cfg, rows[j], i);
      streams := streams + [sent];
    }
  }

  // ----- the verdict -----

  /** struct sort_result. */
  datatype SortResult = SortResult(nodeid: int, min: Item, max: Item, crc: Item)

  /** The bounds of the first n results lie strictly apart, and all but the first are spread. */
  ghost predicate StrictlyApart(results: seq<SortResult>, n: nat)
    requires n <= |results|
  {
    forall i :: 0 < i < n ==> results[i].max > results[i].min && results[i - 1].max < results[i].min
  }

  /** sortresult_comparator. */
  function SortresultComparator(t1: SortResult, t2: SortResult): int {
    if t1.nodeid < t2.nodeid then -1 else if t1.nodeid > t2.nodeid then 1 else 0
  }

  /** So it is with the results of the destinations. */
  lemma ResultOrderIsIrrelevant(sent: seq<SortResult>, results: seq<SortResult>)
    requires forall i :: 0 <= i < |sent| ==> sent[i].nodeid == FIRST_DEST_NODEID + i
    requires multiset(results) == multiset(sent)
    requires forall i, j :: 0 <= i < j < |results| ==> SortresultComparator(results[i], results[j]) <= 0
    ensures results == sent
  {
    SortedByKeyIsUnique(results, sent, (r: SortResult) => r.nodeid);
  }

  /** write_sort_result, for an array that is not empty. */
  method WriteSortResult(nodeid: int, sorted: array<Item>) returns (result: SortResult)
    requires sorted.Length > 0
    ensures result.nodeid == nodeid && IsCrcOf(result.crc, sorted[..])
    ensures result.min == sorted[0] && result.max == sorted[sorted.Length - 1]
  {
    var crc := ArrayCrc(sorted);
    result := SortResult(nodeid, sorted[0], sorted[sorted.Length - 1], crc);
  }

  /** The manager's final loop. */
  method Verdict(crcs: seq<Item>, results: seq<SortResult>)
      returns (sortOk: bool, crcTestUnsorted: Item, crcTestSorted: Item)
    requires |crcs| == |results|
    ensures sortOk <==> StrictlyApart(results, |results|)
    ensures crcTestUnsorted == Sum(crcs) % CRC_ATOM
    ensures crcTestSorted == Sum(Crcs(results)) % CRC_ATOM
  {
    ghost var sortedCrcs := Crcs(results);
    sortOk, crcTestUnsorted, crcTestSorted := true, 0, 0;
    for i := 0 to |results|
      invariant IsCrcOf(crcTestUnsorted, crcs[..i]) && IsCrcOf(crcTestSorted, sortedCrcs[..i])
      invariant sortOk <==> StrictlyApart(results, i)
    {
      CrcOfPrefix(crcTestUnsorted, crcs, i);
      CrcOfPrefix(crcTestSorted, sortedCrcs, i);
      crcTestUnsorted := CrcStep(crcTestUnsorted, crcs[i]);
      crcTestSorted := CrcStep(crcTestSorted, results[i].crc);
      if i > 0 {
        if !(results[i].max > results[i].min && results[i - 1].max < results[i].min) {
          sortOk := false;
        }
      }
    }
    assert crcs[..|crcs|] == crcs && sortedCrcs[..|results|] == sortedCrcs;
  }

  /** Result i describes output i, as write_sort_result reports it. */
  ghost predicate Describes(results: seq<SortResult>, outputs: seq<seq<Item>>) {
    |results| == |outputs| &&
    forall i :: 0 <= i < |outputs| ==>
      && outputs[i] != [] && results[i].min == outputs[i][0] && results[i].max == outputs[i][|outputs[i]| - 1]
      && IsCrcOf(results[i].crc, outputs[i])
  }

  function Crcs(results: seq<SortResult>): seq<Item> {
    seq(|results|, i requires 0 <= i < |results| => results[i].crc)
  }

  lemma {:induction false} SumsOfParts(outputs: seq<seq<Item>>, crcs: seq<Item>)
    requires |outputs| == |crcs| && forall i :: 0 <= i < |crcs| ==> IsCrcOf(crcs[i], outputs[i])
    ensures Sum(crcs) % CRC_ATOM == Sum(Flatten(outputs)) % CRC_ATOM
  {
    if crcs != [] {
      var last := |crcs| - 1;
      SumsOfParts(outputs[..last], crcs[..last]);
      assert Sum(crcs) == Sum(crcs[..last]) + crcs[last] && crcs[last] % CRC_ATOM == Sum(outputs[last]) % CRC_ATOM;
      assert Flatten(outputs) == Flatten(outputs[..last]) + outputs[last];
      hide Sum, Flatten, IsCrcOf;
      SumOfConcatenation(Flatten(outputs[..last]), outputs[last]);
      CrcOfSum(Sum(crcs[..last]), Sum(Flatten(outputs[..last])), crcs[last], Sum(outputs[last]));
    }
  }

  lemma CrcOfSum(a: nat, b: nat, c: nat, d: nat)
    requires a % CRC_ATOM == b % CRC_ATOM && c % CRC_ATOM == d % CRC_ATOM
    ensures (a + c) % CRC_ATOM == (b + d) % CRC_ATOM
  {
    RemainderOfSum(a, c, CRC_ATOM);
    RemainderOfSum(b, d, CRC_ATOM);
  }

  /** A run that loses nothing ends with equal checksums, sorted or not. */
  lemma ChecksumsAgree(sources: seq<seq<Item>>, crcs: seq<Item>, outputs: seq<seq<Item>>, results: seq<SortResult>)
    requires |crcs| == |sources| && forall i :: 0 <= i < |crcs| ==> IsCrcOf(crcs[i], sources[i])
    requires Describes(results, outputs)
    requires multiset(Flatten(outputs)) == multiset(Flatten(sources))
    ensures Sum(crcs) % CRC_ATOM == Sum(Crcs(results)) % CRC_ATOM
  {
    SumsOfParts(sources, crcs);
    SumsOfParts(outputs, Crcs(results));
    SumOfPermutation(Flatten(outputs), Flatten(sources));
  }

  /** The manager accepts a run exactly if the outputs concatenate to a sorted sequence in which no
      value crosses a cut, and no output but the first consists of a single value. */
  lemma VerdictMeaning(outputs: seq<seq<Item>>, results: seq<SortResult>)
    requires Describes(results, outputs) && forall i :: 0 <= i < |outputs| ==> Sorted(outputs[i])
    ensures StrictlyApart(results, |results|) <==>
      && Sorted(Flatten(outputs))
      && (forall i :: 0 < i < |outputs| ==> outputs[i - 1][|outputs[i - 1]| - 1] != outputs[i][0])
      && (forall i :: 0 < i < |outputs| ==> outputs[i][0] != outputs[i][|outputs[i]| - 1])
  {
    BoundaryOrder(outputs);
    forall i | 0 < i < |outputs|
      ensures results[i].max > results[i].min <==> outputs[i][0] != outputs[i][|outputs[i]| - 1]
    {
    }
  }

  /** Non-empty sorted parts make a sorted whole exactly if neighbours are in order. */
  lemma {:induction false} BoundaryOrder(outputs: seq<seq<Item>>)
    requires forall i :: 0 <= i < |outputs| ==> outputs[i] != [] && Sorted(outputs[i])
    ensures Sorted(Flatten(outputs)) <==>
      forall i :: 0 < i < |outputs| ==> outputs[i - 1][|outputs[i - 1]| - 1] <= outputs[i][0]
    ensures outputs != [] ==> Flatten(outputs) != []
    ensures outputs != [] ==>
      Flatten(outputs)[|Flatten(outputs)| - 1] == outputs[|outputs| - 1][|outputs[|outputs| - 1]| - 1]
  {
    if |outputs| == 1 {
      assert Flatten(outputs) == outputs[0];
    } else if |outputs| > 1 {
      var last := |outputs| - 1;
      BoundaryOrder(outputs[..last]);
      SortedAtSeam(Flatten(outputs[..last]), outputs[last]);
    }
  }

  lemma SortedAtSeam(s: seq<Item>, t: seq<Item>)
    requires s != [] && t != [] && Sorted(t)
    ensures Sorted(s + t) <==> Sorted(s) && s[|s| - 1] <= t[0]
  {
    if Sorted(s + t) {
      assert forall i :: 0 <= i < |s| ==> s[i] == (s + t)[i];
      assert (s + t)[|s| - 1] <= (s + t)[|s|];
    }
  }

  /** A correct sort can be rejected: a value that occurs on both sides of a cut is enough. */
  lemma CorrectSortCanBeRejected()
    ensures var outputs: seq<seq<Item>> := [[1, 2], [2, 3]];
      && Sorted(Flatten(outputs))
      && forall results: seq<SortResult> :: Describes(results, outputs) ==> !StrictlyApart(results, |results|)
  {
    var outputs: seq<seq<Item>> := [[1, 2], [2, 3]];
    BoundaryOrder(outputs);
    forall results: seq<SortResult> | Describes(results, outputs) ensures !StrictlyApart(results, |results|) {
      assert results[1].min == outputs[1][0] && results[0].max == outputs[0][1];
    }
  }
}
