# A verified model of the distributed sort and its server

The repository sorts data that is spread over several nodes. Source nodes sort their own part and
describe it by a coarse histogram; a manager merges the histograms, asks for detailed ones near the
quota of each destination, and tells every source which range goes where; the destinations collect
their ranges in any order of arrival and sort them. The nodes talk through files that a server maps to
network sockets. The server brings along the SQLite shell, which prints and reads CSV and C strings.

The project models these parts in Dafny, in the form the C code has: functions for what is computed from
values, classes and methods with loops over arrays for what is changed in place.

| file | what it holds |
|---|---|
| `Sorting.dfy` | merge sort, its test, the checksum (`client/sort.c`) |
| `Histograms.dfy` | histograms of sorted arrays (`client/dsort.c`) |
| `RangeCuts.dfy` | the analyser as a machine of cursors over the sources; its invariant; what every finished run keeps |
| `Passes.dfy` | what one pass of that machine does, and exactly when its runs get stuck |
| `HistogramAnalyser.dfy` | the analyser as it is written, with workers, indices and flags; it refines that machine |
| `EvenSources.dfy` | data on which the analyser cannot get stuck and cuts exactly |
| `Stretches.dfy` | several passes of a run at once |
| `UnevenSources.dfy` | data on which it gets stuck; what every finished run needs |
| `Stairs.dfy` | runs on three sources of any size that hold only three values |
| `StuckRuns.dfy` | each of the three ways to get stuck, at any size |
| `InexactCuts.dfy` | data of any size on which it finishes, and the outputs are not sorted |
| `EndToEnd.dfy` | from the ranges to the outputs: nothing is lost, and when the outputs are sorted |
| `Stream.dfy`, `Receiving.dfy` | the reader of a socket file; packets, the receive loop, the sender |
| `Packets.dfy` | packets byte by byte, and the packets of a range |
| `Nodes.dfy` | the programs of manager, source and destination; the theorems about what they produce; the verdict |
| `DistributedSort.dfy` | all nodes and the network between them, run together |
| `SocketPool.dfy` | the server's slots and shared sockets (`server/zmq_netw.c`) |
| `SocketSharing.dfy` | who shares a socket, and all that opening and closing do |
| `Csv.dfy`, `CsvMeaning.dfy`, `CsvImport.dfy`, `CStrings.dfy` | printers and in-place parsers of `sqlite/shell.c` |
| `Sums.dfy`, `Flattening.dfy`, `Bytes.dfy` | shared vocabulary |

## Main results

* `HistogramAnalyser.AnalyseHistograms` computes exactly the ranges of `RangeCuts.Run`, or fails exactly
  where that run is stuck.
* `Passes.RunGetsStuckExactly` and `Passes.RunFinishesExactly`: a run gets stuck if and only if it reaches a
  pass in which one of three conditions on the cursors holds, and otherwise it reaches its end.
* `RangeCuts.RunKeepsPromises`: in every run that finishes, whatever the data, the ranges of each source
  tile its items, every destination gets exactly n items, picked values never decrease, nothing left
  behind at a cut is below the last pick, and at most (len-1)*(step-1) items handed out are above it.
* `Nodes.DistributedSortExactly`: a run that finishes loses nothing, and the outputs of the destinations,
  one after the other, are sorted if and only if the items at the ends of the ranges are in order
  (`EndToEnd.BoundariesAgree`), which only compares len*len items for each destination.
* `DistributedSort.SortAll` runs the programs of all sources, the manager and all destinations, with
  checksums, histograms, packets and results in any order of arrival, and ends in that conclusion: it gives
  up exactly where the run is stuck; otherwise no item is lost, the checksums agree, and the outputs are sorted if and only if the boundaries
  agree.
* `EvenSources.EvenRunFinishes`: on evenly spread sources (`EvenSources.Even`) no condition is left. The run
  finishes and every cut is exact, so the outputs are the sorted permutation of all items
  (`Nodes.DistributedSortIsCorrect`, `DistributedSort.EvenSourcesAreSorted`). Two bounds make sources even. A
  local one: stretches of up to two buckets of one source, and the stretches of another one between the same
  values, differ by less than about a bucket divided by the number of the other sources. A loose global one:
  equal ranks of two sources may lie many buckets apart, as long as that is well below n / len. If the quotas
  do not fill whole buckets, what they fill of the last one must not be too small for the local bound.
* `Receiving.ReadSortedRanges`: the receive loop ends with the last message, for every interleaving, and
  its 32-bit counters do not overflow.
* `Stream.SafeReadsReassemble`: a series of reads gives back the stream if and only if every read was safe,
  which can be checked before it.
* `SocketPool.EverySocketClosedOnce`: over all runs of opens and closes, every socket is closed once.
  `SocketSharing.SecondDirectionShares`: the two directions of a file share one socket.
* `Csv.CsvRoundTrip` with `CsvImport.Import`, and `CStrings.PrintAndResolve`: what is printed is read back.
  `Csv.FieldTextExactly`, `CsvMeaning.ImportedExactly`, `CStrings.PrintsExactly` and `CStrings.OctalEscape` say
  what is printed, and what is made of any text.
* `Sorting.ChecksumSeesChange`: the checksum sees every change of one item but those modulo CRC_ATOM.

## Where the code does not do what it is for

* **The analyser can get stuck.** Three situations end a run: a coarse cursor passes its last bucket and
  the histogram is read out of bounds (`client/manager/histanlz.c:91`, then 119 and 151); detailed
  histograms are requested while one is still held, and the assertion at line 69 fails; a detailed histogram
  is used up before the last destination (lines 85-86), a flag that is never taken back, so that an item
  would be counted twice. The third is reported as soon as the flag is set; the C code goes on with wrong
  ranges. A pass gets stuck in these situations and in no other (`Passes.PassExactly`). Each happens, and not
  only on small data: `StuckRuns.PastTheEndAtAnySize`, `StillHeldAtAnySize` and `UsedUpAtAnySize` give three
  sources each, for every number of buckets from five or four on and every width (from two on, for the second).
  What every run that finishes needs is a check on the data (`UnevenSources.FinishedRunsAreSpread`): for every
  source, at least (len-1)*(n-(step-1)) items of all sources are at most its greatest item. So data that is
  partitioned, even roughly, gets stuck (`UnevenSources.RoughlyPartitionedDataGetsStuck`);
  `UnevenSources.PartitionedDataGetsStuck` and `UnevenSources.EqualItemsGetStuck` add the cases of one
  source that holds all the smallest items, and of equal items, from two sources on.
  `UnevenSources.TwoSourcesGetStuck` is about two perfectly interleaved sources; `README:69` of the repository
  asks for at least three nodes.
* **A run can finish without sorting.** `InexactCuts.FinishedButNotSorted` follows such runs to their end, on
  three sources, for every width of the buckets but one and every number of them from four on: a source that
  is not picked after its detailed histogram has arrived keeps the bucket it has handed out before.
  `EndToEnd.SortIsCorrectExactly` says exactly when this does no harm.
* **The verdict rejects correct sorts.** The manager asks for strictly increasing outputs
  (`client/manager/main_man.c:108`). `Nodes.VerdictMeaning` says what is accepted;
  `Nodes.CorrectSortCanBeRejected` gives a correct sort that is not.
* **The stream reader can lose messages.** `read_sockf` writes every message of one call to the same place.
  `Stream.ReadCanLoseMessage` is such a read. `Stream.SafeReadsKeepStream` says exactly which reads lose
  nothing, by a check before the call (`Stream.SafeRead`): at least half of the count is buffered, or the
  first message that is not empty covers the rest. The destination's reads of a header and then its payload
  are always safe (`Receiving.PacketReadsAreSafe`).
* **A string that ends in an odd number of backslashes** makes `resolve_backslashes` skip the terminator;
  `CStrings.ResolveBackslashes` says that this happens for such strings and no others, and
  `CStrings.LoneBackslashIsOpen` gives one. Printed strings never end that way.
* **A quote or a newline as separator** breaks the CSV round trip (`Csv.BadSeparators`).
* A comment in the analyser says that only the last item of a detailed histogram is synchronised
  (`client/manager/histanlz.c:43-44`); the code synchronises at every item that starts a bucket, and
  `HistogramAnalyser.SyncPoint` is about the code.

## What is assumed

`Config.Valid`: all sources hold n items, and n >= (len+1)*step, so that a destination's quota is longer
than the detailed histograms of one bucket width per source. File descriptors are unique in the server's
records. Strings are free of NUL characters. The n items of a destination, in bytes, fit the 32-bit `int` in which they
are counted. Receiving a message returns
the next one, whole; creating a socket gives a new identity or fails; memory is never short.

## Model

| member | source | states |
|---|---|---|
| `RangeCuts.Pick` | client/manager/histanlz.c:203-220 | the cursor that is moved shows a least value, is the last of those that do, and exists unless all sources are complete |
| `RangeCuts.StartHasInv` | client/manager/histanlz.c:176-186 | the invariant of the run holds at the start |
| `RangeCuts.ResyncIsInvisible` | client/manager/histanlz.c:32-53 | going back to the coarse histogram changes neither the interval nor the place of a cursor, and only cursors short of their next bucket keep a detailed one |
| `RangeCuts.SyncKeepsInv` | client/manager/histanlz.c:195-201 | synchronising all workers keeps the invariant |
| `RangeCuts.SomeCursorIsActive` | client/manager/histanlz.c:207-223 | while the quota is not met, a worker that is not complete is found |
| `RangeCuts.MoveCounts` | client/manager/histanlz.c:224-225 | a move adds a bucket or an item to the count, never passes the quota, and does not meet it before detailed histograms have been requested |
| `RangeCuts.MoveKeepsQuota` | client/manager/histanlz.c:224-231 | short of the request, coarse moves stay a bucket below the quota even after all resynchronisations |
| `RangeCuts.LastWindowsSuffice` | client/manager/histanlz.c:290-291 | the windows of the last request reach the end of every source |
| `RangeCuts.FetchKeepsInv` | client/manager/histanlz.c:229-241 | requesting detailed histograms keeps the invariant, if no worker holds one |
| `RangeCuts.PassKeepsInv` | client/manager/histanlz.c:192-242 | every pass that does not get stuck keeps the invariant and increases the count, so the inner loop ends |
| `RangeCuts.CutHoldsAtClose` | client/manager/histanlz.c:242-260 | at a met quota nothing left behind is below the last pick, at most (len-1)*(step-1) items handed out are above it, none of them from a source picked since the request |
| `RangeCuts.CloseHolds` | client/manager/histanlz.c:243-260 | the recorded row has exactly n items and continues the tiling of every source |
| `RangeCuts.ReopenKeepsInv` | client/manager/histanlz.c:56-65 | the next destination starts where the previous one ended, with the invariant |
| `RangeCuts.LastRowReachesTheEnd` | client/manager/histanlz.c:248-254 | the last destination's ranges end with the last item of every source |
| `RangeCuts.RunKeepsPromises` | client/manager/histanlz.c:172-271 | every run that finishes has len rows that tile all sources to their ends, quotas that are met exactly, bounded displacement at every cut, and picks that never decrease |
| `RangeCuts.CountAboveExactly` | client/manager/histanlz.c:242-260 | the items handed out above the last pick are counted: the bound on them is one on a set of places |
| `Passes.SyncedAndLeast` | client/manager/histanlz.c:193-220 | as long as the quota is not met, there are synchronised cursors and a cursor to move |
| `Passes.PassExactly` | client/manager/histanlz.c:192-242 | a pass gets stuck for each of the three reasons if and only if its condition on the cursors holds, and in no other way; if it goes on, the state after it is given field by field |
| `Passes.ReopensExactly` | client/manager/histanlz.c:185-191 | the state in which the next destination starts, field by field; no source is complete by then |
| `Passes.GetsStuckExactly` | client/manager/histanlz.c:192-242 | a state is stuck for a reason if and only if some choice of cursors meets its condition |
| `Passes.RunComesToAnEnd` | client/manager/histanlz.c:172-271 | every run reaches, pass by pass, a state that is stuck or that ends the last destination |
| `Passes.RunGetsStuckExactly` | client/manager/histanlz.c:172-271 | a run gets stuck for a reason if and only if it reaches a state in which the condition of that reason holds |
| `Passes.RunFinishesExactly` | client/manager/histanlz.c:172-271 | a run finishes if and only if it reaches the end of the last destination |
| `HistogramAnalyser.HistogramWorker.constructor` | client/manager/histanlz.c:20-29 | a new worker represents a cursor at item 0 of the coarse histogram |
| `HistogramAnalyser.HistogramWorker.CheckRemoveDetailedHistogram` | client/manager/histanlz.c:32-53 | the search and the index changes amount to resynchronising the cursor; begin_offset 0 as "unset" does no harm |
| `HistogramAnalyser.HistogramWorker.InitHistogram` | client/manager/histanlz.c:56-65 | the interval starts anew at the cursor, in either mode |
| `HistogramAnalyser.HistogramWorker.SetDetailedHistogram` | client/manager/histanlz.c:67-80 | both assertions hold, and the cursor goes on in the window that was requested |
| `HistogramAnalyser.HistogramWorker.SetNextHistogram` | client/manager/histanlz.c:82-92 | the cursor advances by a bucket or an item, or becomes complete; the index leaves the coarse histogram exactly when the cursor leaves the source |
| `HistogramAnalyser.HistogramWorker.ValueAtCursor` | client/manager/histanlz.c:95-108 | there is a value unless the worker is complete, and it is the source's item at the cursor |
| `HistogramAnalyser.HistogramWorker.LengthCurrentHistogram` | client/manager/histanlz.c:111-125 | the length is the step on the coarse histogram and 1 on a detailed one |
| `HistogramAnalyser.HistogramWorker.GetBeginEndItemIndexes` | client/manager/histanlz.c:127-153 | in all modes the indices give the interval of the cursor |
| `HistogramAnalyser.SyncPoint` | client/manager/histanlz.c:35-45 | the coarse entry that the search ends at, entry 0 if it fails, equals the current item exactly when that item starts a bucket |
| `HistogramAnalyser.LeftoversAreResyncable` | client/manager/histanlz.c:197-201 | a leftover detailed histogram whose interval begins at item 0 stands at item 0 |
| `HistogramAnalyser.SelectWorker` | client/manager/histanlz.c:203-220 | the search loop finds `Pick` |
| `HistogramAnalyser.SizeAllProcessedHistograms` | client/manager/histanlz.c:155-168 | the count is the sum of all intervals |
| `HistogramAnalyser.DetailedReply` | client/source/comm_src.c:103-109 | a source answers with the step-1 histogram of the requested range, cut at its last item |
| `HistogramAnalyser.PrepareRequests` | client/manager/histanlz.c:281-297 | each source is asked for the window that starts at its cursor |
| `HistogramAnalyser.RequestAssignDetailedHistogram` | client/manager/histanlz.c:275-312 | the assertion holds exactly when all cursors are coarse, and then every worker is in its window |
| `HistogramAnalyser.SaveRow` | client/manager/histanlz.c:247-260 | the intervals are recorded with both ends included, under the node id of their source |
| `HistogramAnalyser.MoveWorker` | client/manager/histanlz.c:224 | a move is the cursor's, or one of the two failures that the code does not notice |
| `HistogramAnalyser.AnalyserPass` | client/manager/histanlz.c:192-242 | the body of the inner loop does what `Pass` says, failures included |
| `HistogramAnalyser.AnalyseDestination` | client/manager/histanlz.c:186-242 | the inner loop ends with a met quota on the way of the same run, or where that run is stuck |
| `HistogramAnalyser.AnalyseHistograms` | client/manager/histanlz.c:172-271 | the matrix of ranges is the one of `Run`, and the analyser fails exactly where that run is stuck |
| `EvenSources.FarSkewIsNear` | client/manager/histanlz.c:172-271 | a rank skew of at most a bucket as a whole bounds the skew of all stretches that start at buckets |
| `EvenSources.WindowStretch` | client/manager/histanlz.c:203-225 | of two windows that were opened at the same value, none has gained more than a bucket and the local skew beyond the other one |
| `EvenSources.PickSpread` | client/manager/histanlz.c:203-220 | on even data the picked cursor is ahead of no other by more than the global skew |
| `EvenSources.RequestFindsAllCoarse` | client/manager/histanlz.c:229-241 | on even data no worker holds a detailed histogram when new ones are requested |
| `EvenSources.DetailedMoveStaysInside` | client/manager/histanlz.c:84-88 | on even data no detailed histogram is used up before the last destination |
| `EvenSources.LeftoverReachesBucket` | client/manager/histanlz.c:32-53 | on even data every leftover window reaches the next bucket, so it is given up |
| `EvenSources.PassIsEven` | client/manager/histanlz.c:192-242 | on even data no pass gets stuck, and the windows stay in agreement |
| `EvenSources.CloseIsExact` | client/manager/histanlz.c:242-260 | on even data every cut before the last is exact: nothing handed out is above the last pick |
| `EvenSources.RequestLeavesGap` | client/manager/histanlz.c:229-241 | on even data the items still missing at the request are known: a full width of buckets, short by what the quotas do not fill of a bucket |
| `EvenSources.EvenRunFinishes` | client/manager/histanlz.c:172-271 | on data with a small local and a loose global skew every run finishes all destinations, with exact cuts; n need not be a multiple of the bucket width |
| `EvenSources.DealtOutIsEven` | client/manager/histanlz.c:172-271 | there is even data for any number of sources from three on: items dealt out in turn |
| `UnevenSources.SmallestSourceGetsStuck` | client/manager/histanlz.c:172-271 | as long as only the source with the smallest items has moved, the run gets stuck; on ties the later source counts as the smaller |
| `UnevenSources.PartitionedDataGetsStuck` | client/manager/histanlz.c:172-271 | if one source holds the smallest items of all, the analyser gets stuck |
| `UnevenSources.EqualItemsGetStuck` | client/manager/histanlz.c:203-220 | if all items are equal, the analyser gets stuck, for any number of sources from two on |
| `UnevenSources.TwoSourcesGetStuck` | client/manager/histanlz.c:82-92 | two interleaved sources of six items, in buckets of two, spread as evenly as possible, use up a detailed histogram too early |
| `UnevenSources.RunLeavesItems` | client/manager/histanlz.c:248-254 | in a finished run no source is used up before the last destination |
| `UnevenSources.FinishedRunsAreSpread` | client/manager/histanlz.c:172-271 | in a finished run, for every source, at least (len-1)*(n-(step-1)) items of all sources are at most its greatest item |
| `UnevenSources.RoughlyPartitionedDataGetsStuck` | client/manager/histanlz.c:172-271 | if fewer are, for some source, the analyser gets stuck |
| `StuckRuns.PastTheEndAtAnySize` | client/manager/histanlz.c:82-92 | three sources, of any size, on which a coarse cursor leaves its histogram |
| `StuckRuns.StillHeldAtAnySize` | client/manager/histanlz.c:67-69 | three sources, of any size, on which detailed histograms are requested while one is held |
| `StuckRuns.UsedUpAtAnySize` | client/manager/histanlz.c:82-92 | three sources, of any size, on which a detailed histogram is used up too early |
| `Stretches.SkipsTo` | client/manager/histanlz.c:203-225 | as long as the buckets of one source begin with the least items, only its coarse cursor moves |
| `Stretches.LastDestinationFinishes` | client/manager/histanlz.c:227-241 | once the last detailed histograms have been requested, no run gets stuck |
| `Stretches.MovesTo` | client/manager/histanlz.c:203-225 | as long as one source holds the least items, only its cursor moves |
| `InexactCuts.FinishedButNotSorted` | client/manager/histanlz.c:172-271 | runs, of any size, that finish although their second boundary is out of order; their outputs are never sorted |
| `EndToEnd.OneDestinationPerItem` | client/manager/histanlz.c:248-254 | every item of every source is in the range of exactly one destination |
| `EndToEnd.NothingLost` | client/manager/histanlz.c:248-254 | what the first destinations put out is what the sources have handed out to them, as multisets |
| `EndToEnd.OutputsArePermutation` | client/manager/histanlz.c:172-271 | in every finished run the outputs are a permutation of all source items |
| `EndToEnd.ExactCutsAgree` | client/manager/histanlz.c:203-241 | exact cuts put all boundaries in order |
| `EndToEnd.PickingAllIsExact` | client/manager/histanlz.c:203-241 | if every source is picked after its detailed histogram has arrived, the cut is exact |
| `EndToEnd.SortIsCorrectExactly` | client/manager/histanlz.c:172-271 | in every finished run the outputs are a permutation of the input; they are sorted if and only if the boundaries agree |
| `EndToEnd.SortIsCorrect` | client/manager/histanlz.c:172-271 | with exact cuts the outputs are the sorted permutation of all items |
| `EndToEnd.EvenSortIsCorrect` | client/manager/histanlz.c:172-271 | on even data the run finishes and the outputs are the sorted permutation of all items |
| `Histograms.HistogramOf` | client/dsort.c:55-78 | ceil(len/step) entries; entry k shows the item at offset+k*step and spans step items |
| `Histograms.BucketBounds` | client/dsort.c:55-78 | the number of entries is the quotient, plus one exactly if a shorter bucket is left over |
| `Histograms.BucketsPartitionItems` | client/dsort.c:55-78 | every item is in the bucket its index divided by step names, and in no other |
| `Histograms.DetailedAgreesWithCoarse` | client/manager/histanlz.c:71-73 | a detailed and a coarse histogram agree at every index they share |
| `Histograms.AllocHistogramArray` | client/dsort.c:55-78 | the loop with its running indices builds `HistogramOf` |
| `Sorting.CopyArray` | client/sort.c:88-91 | copies the items and leaves the rest of the destination alone |
| `Sorting.MergedIsPermutation` | client/sort.c:55-85 | merging loses and adds nothing |
| `Sorting.MergedIsSorted` | client/sort.c:55-85 | merging sorted sequences gives a sorted one |
| `Sorting.Merge` | client/sort.c:55-85 | the loop over two pointers, with its copies of what is left, computes `Merged` |
| `Sorting.AllocMergeSort` | client/sort.c:39-52 | a new array, sorted, a permutation of the input, which is left alone; for every length |
| `Sorting.SortedPermutationIsUnique` | client/sort.c:39-52 | there is only one sorted permutation |
| `Sorting.SumOfPermutation` | client/sort.c:118-129 | the checksum does not depend on the order of the items |
| `Sorting.CrcStepAddsItem` | client/sort.c:118-129 | one step of the 32-bit accumulator adds the item modulo CRC_ATOM, without wrapping |
| `Sorting.ChecksumOfOne` | client/sort.c:118-129 | the checksum of one item is that item modulo CRC_ATOM |
| `Sorting.ChecksumSeesChange` | client/sort.c:118-129 | if one item is replaced, the checksum stays the same if and only if the old and the new one agree modulo CRC_ATOM |
| `Sorting.ArrayCrc` | client/sort.c:118-129 | the checksum is the sum modulo CRC_ATOM; that of an empty array is 1 |
| `Sorting.TestSortResult` | client/sort.c:131-162 | what the test accepts |
| `Sorting.SortPassesTest` | client/sort.c:131-162 | the test accepts every sorted permutation |
| `Sorting.TestAcceptsExactly` | client/sort.c:131-162 | the test accepts if and only if no item is less than the one before it and the checksums are equal |
| `Sorting.TestSeesWrongItem` | client/sort.c:131-162 | a sorted result with one wrong item passes if and only if that item agrees with the right one modulo CRC_ATOM |
| `Sorting.RunSort` | client/sort.c:164-174 | sorting, then testing, always succeeds |
| `Stream.EndsAt` | server/zmq_netw.c:372-406 | the message that ends the receive loop is the first that is large enough, as the code counts |
| `Stream.SockFile.ReadTempbuf` | server/zmq_netw.c:343-371 | bytes returned and bytes kept are the bytes that were buffered; an emptied buffer is given up |
| `Stream.SockFile.ReceiveLoop` | server/zmq_netw.c:372-406 | only the last message of the loop survives, part of it in the buffer for the next call |
| `Stream.SockFile.ReadSockf` | server/zmq_netw.c:343-409 | the whole effect of a read on the caller's bytes, the buffer and the queue of messages |
| `Stream.ReadKeepsStream` | server/zmq_netw.c:343-409 | a read loses no byte of the stream if and only if all but the last message it receives are empty |
| `Stream.FirstMessageSuffices` | server/zmq_netw.c:343-409 | if the buffer and the next message cover the count, a read receives at most one message and does not wait |
| `Stream.ReadWaitsExactly` | server/zmq_netw.c:372-406 | a read waits for ever if and only if neither the buffer nor any message is large enough |
| `Stream.SafeReadsKeepStream` | server/zmq_netw.c:343-409 | a read that comes back loses nothing if and only if half of the count was buffered or the first data that arrived covered the rest; no read adds anything |
| `Stream.ReadCanLoseMessage` | server/zmq_netw.c:372-406 | a read of four bytes that loses the first of two messages |
| `Stream.SafeReadsReassemble` | server/zmq_netw.c:343-409 | over a series of reads, bytes returned and bytes pending make up the stream if and only if every read was safe |
| `Receiving.PacketReadsAreSafe` | client/dest/comm_dst.c:51-67 | the header read and the payload read of a packet never lose anything |
| `Receiving.BytesRoundTrip` | client/distr_common.h:66-71 | numbers in header fields are read back |
| `Receiving.ItemsRoundTrip` | client/source/comm_src.c:204-223 | items laid out as bytes are read back |
| `Receiving.ReadHeader` | client/dest/comm_dst.c:52 | the header read takes one message and leaves its payload in the temporary buffer |
| `Receiving.ReadPayload` | client/dest/comm_dst.c:60-67 | the payload read finds all its bytes there and receives nothing |
| `Receiving.LoopEndsWithTraffic` | client/dest/comm_dst.c:75 | the loop's condition holds exactly as long as packets are missing |
| `Receiving.ReceivePacket` | client/dest/comm_dst.c:51-75 | one packet moves the counters and the filled part of the buffer on by what it carries |
| `Receiving.ReadSortedRanges` | client/dest/comm_dst.c:33-75 | for every order of packets the loop ends with the last one, never writes outside the buffer, leaves the parts in order of arrival, and its int counters never overflow |
| `Receiving.WriteSortedRanges` | client/source/comm_src.c:173-245 | the announcement and the parts carry exactly the requested items, in parts that are full but for the last one |
| `Packets.TransferExactly` | client/source/comm_src.c:204-223 | the packets of a range are determined by its items: the announcement of their size, then parts of 25600 items each, in order, only the last one shorter |
| `Packets.MessageExactly` | client/distr_common.h:66-71 | which messages carry a packet: the type at byte 0, the size at byte 8, the items from byte 24 on |
| `Packets.BytesAreDigits` | client/distr_common.h:66-71 | the least significant byte of a number comes first |
| `Packets.ItemIsAt` | client/source/comm_src.c:204-223 | item i lies in the four bytes from 4 * i on |
| `Packets.PacketsAddUp` | client/dest/comm_dst.c:51-75 | what arrives is what the packets bring, one after the other; so it is with what they announce |
| `Receiving.InterleavingDeliversAll` | client/dest/comm_dst.c:45-75 | every interleaving of the sources' packets delivers all their items, and what they announce adds up |
| `Nodes.RowArrives` | client/dest/comm_dst.c:45-75 | the packets a destination is owed are complete traffic of exactly n items, in any order |
| `Nodes.DestinationNode` | client/dest/main_dst.c:45-55 | a destination puts out the sorted permutation of the slices it is owed |
| `Nodes.ArrivalOrderIsIrrelevant` | client/dsort.c:32-44 | after sorting by node id the histograms are those sent, in node order, however they arrived |
| `Nodes.ResultOrderIsIrrelevant` | client/manager/main_man.c:98-100 | so are the results of the destinations |
| `Nodes.WriteSortResult` | client/dest/comm_dst.c:106-121 | a result carries the node id, the bounds and the checksum of the output |
| `Nodes.WriteRangeRequest` | client/manager/comm_man.c:121-142 | source i is told column i of the matrix, entry j addressed to destination j |
| `Nodes.SendRangeRequests` | client/manager/main_man.c:79-88 | every column goes out by the descriptor of its own source |
| `Nodes.ManagerNode` | client/manager/main_man.c:63-88 | the manager tells source i about destination j the range the run has found |
| `Nodes.SourceStart` | client/source/main_src.c:65-97 | a source sorts its data, always passes its own test, and sends the checksum and coarse histogram of it |
| `Nodes.SourceNode` | client/source/main_src.c:117-131 | a source sends every destination the slice it was told |
| `Nodes.DistributedSortExactly` | client/manager/histanlz.c:172-271 | whatever the data and the order of arrival: a finished run loses nothing, and sorts if and only if its boundaries agree |
| `Nodes.DistributedSortIsCorrect` | client/manager/histanlz.c:172-271 | on even data the run finishes, and the destinations' outputs are the sorted permutation of all items |
| `Nodes.Verdict` | client/manager/main_man.c:101-114 | the loop computes both checksums and accepts if the outputs are strictly apart |
| `Nodes.SumsOfParts` | client/manager/main_man.c:105-106 | adding the checksums of the parts gives the checksum of the whole |
| `Nodes.ChecksumsAgree` | client/manager/main_man.c:101-122 | a run that loses nothing ends with equal checksums, sorted or not |
| `Nodes.VerdictMeaning` | client/manager/main_man.c:107-110 | sorted outputs are accepted if and only if their concatenation is sorted, no value is on both sides of a cut, and no output but the first has a single value |
| `Nodes.CorrectSortCanBeRejected` | client/manager/main_man.c:107-110 | a correct sort that is rejected |
| `DistributedSort.Deliver` | client/dest/comm_dst.c:45-75 | the network: any interleaving of the sources' packets may arrive |
| `DistributedSort.StartSources` | client/source/main_src.c:65-97 | every source is sorted and described in node order |
| `DistributedSort.SendRanges` | client/source/main_src.c:117-131 | every source sends every destination its slice |
| `DistributedSort.RunDestinations` | client/dest/main_dst.c:45-73 | every destination puts out the sorted permutation of its slices, and a result that describes it |
| `DistributedSort.Arrive` | client/manager/main_man.c:61-62 | the network: what several nodes send to one file arrives in any order |
| `DistributedSort.Qsort` | client/manager/main_man.c:63 | a permutation in the order of the keys |
| `DistributedSort.SortAll` | client/manager/main_man.c:63-122 | all programs together, with checksums, histograms, packets and results in any order of arrival: gives up exactly where the run is stuck; otherwise nothing is lost, the checksums agree, the outputs are sorted if and only if the boundaries agree, and the verdict accepts them if and only if, besides, no value crosses a cut or fills an output but the first |
| `DistributedSort.EvenSourcesAreSorted` | client/manager/main_man.c:63-122 | on even sources the system finishes with the sorted permutation of all items |
| `SocketPool.RecordIndex` | server/sqluse_srv.c:24-32 | the first record with the descriptor |
| `SocketPool.RemoveFindsLiveSlot` | server/zmq_netw.c:139-151 | removing ignores the unused flag, and still finds the live slot of a live descriptor |
| `SocketPool.RemoveRefinesMap` | server/zmq_netw.c:139-151 | removing a descriptor ends its binding and no other |
| `SocketPool.AddRefinesMap` | server/zmq_netw.c:102-136 | adding a descriptor binds it and leaves all others alone, through reuse and growth, whatever fresh memory holds |
| `SocketPool.LastReference` | server/zmq_netw.c:284-310 | the count says whether another live slot uses the socket |
| `SocketPool.CloseKeepsInv` | server/zmq_netw.c:284-310 | a socket is closed with its last reference and not before |
| `SocketPool.DualAgrees` | server/zmq_netw.c:154-185 | a dual slot was opened for a record with the same endpoint, method and type |
| `SocketSharing.DualIsFoundExactly` | server/zmq_netw.c:154-185 | a dual socket is found if and only if both directions have a record and one of the last two of them is live; it is the reader's, or else the writer's |
| `SocketSharing.SecondDirectionShares` | server/zmq_netw.c:188-281 | of the two directions of a file, the second one that is opened gets the socket of the first, and none is created; the first one gets a socket that was never used |
| `SocketSharing.OpenExactly` | server/zmq_netw.c:188-281 | everything an open does: nothing, sharing if and only if there is a partner, creating a socket and closing it again, or creating one; the first unused slot is taken and filled |
| `SocketSharing.CloseExactly` | server/zmq_netw.c:284-310 | everything a close does: the socket is closed, and forgotten by the slot, if and only if no other live slot uses it |
| `SocketPool.OpenKeepsInv` | server/zmq_netw.c:188-281 | opening keeps the invariant, also when creating or connecting fails |
| `SocketPool.EventsKeepInv` | server/zmq_netw.c:188-310 | every run of opens and closes keeps it: open sockets are those of live slots, sharing agrees, every socket is closed at most once |
| `SocketPool.CloseAllCloses` | server/zmq_netw.c:427-439 | closing all files leaves no slot live and no socket open |
| `SocketPool.EverySocketClosedOnce` | server/zmq_netw.c:427-439 | over every run, each socket that was created is closed exactly once |
| `SocketPool.OpenRefinesMap` | server/zmq_netw.c:188-281 | opening binds the descriptor to its dual's socket or to a new one; a failure changes no binding |
| `SocketPool.CloseRefinesMap` | server/zmq_netw.c:284-310 | closing ends one binding and no other |
| `SocketPool.ZeromqPool.constructor` | server/zmq_netw.c:24-57 | a new pool has ten unused slots and no socket |
| `SocketPool.ZeromqPool.SockfByFd` | server/zmq_netw.c:93-100 | the first live slot with the descriptor |
| `SocketPool.ZeromqPool.AddSockfCopyToArray` | server/zmq_netw.c:102-136 | fails for a live descriptor; otherwise takes the first unused slot, growing the array if there is none |
| `SocketPool.ZeromqPool.RemoveSockfFromArrayByFd` | server/zmq_netw.c:139-151 | marks the first slot with the descriptor, live or not |
| `SocketPool.ZeromqPool.GetDualSockf` | server/zmq_netw.c:154-185 | the live slot of the last reader with the same key, or else of the last writer, if both records exist |
| `SocketPool.ZeromqPool.OpenSockf` | server/zmq_netw.c:188-281 | the new state is `Opened`; it succeeds exactly if the descriptor is live afterwards |
| `SocketPool.ZeromqPool.CloseSockf` | server/zmq_netw.c:284-310 | the new state is `Closed` |
| `SocketPool.ZeromqPool.CloseAllCommFiles` | server/zmq_netw.c:427-439 | the new state is `ClosedFrom` slot 0 |
| `Csv.OutputCsv` | sqlite/shell.c:623-652 | the field is quoted exactly as `FieldText` says, by one look at every character |
| `Csv.FieldTextExactly` | sqlite/shell.c:599-637 | a field is quoted if and only if it is empty, holds the separator, or holds a byte up to 32, 34, 39, or one from 127 on; otherwise it is printed as it is |
| `CsvMeaning.DoubledAt` | sqlite/shell.c:639-643 | where each character of a quoted field is printed, a quote twice |
| `Csv.PrintRow` | sqlite/shell.c:800-813 | the fields of a row, separators between them, and a newline |
| `Csv.FieldParity` | sqlite/shell.c:623-652 | a printed field leaves no quote open, and its separators and newlines are quoted |
| `Csv.FieldRoundTrip` | sqlite/shell.c:1826-1834 | dequoting a printed field gives it back |
| `Csv.RowSplits` | sqlite/shell.c:1804-1815 | a printed row is cut into its printed fields |
| `Csv.RowIsOneLine` | sqlite/shell.c:800-813 | a printed row is one line, and all of it but its newline is cut into the printed fields |
| `Csv.CsvRoundTrip` | sqlite/shell.c:1799-1836 | reading any list of printed rows gives the same rows; fields may hold quotes, separators and newlines, and may be empty |
| `Csv.BadSeparators` | sqlite/shell.c:1804-1815 | with a quote or a newline as separator this is false |
| `CsvImport.LocalGetline` | sqlite/shell.c:337-378 | reading in pieces of a growing buffer gives the text up to the first newline that is not quoted |
| `CsvImport.SplitLine` | sqlite/shell.c:1803-1816 | the line is cut in place; the columns recorded and counted are the parts of `Split` |
| `CsvImport.DequoteField` | sqlite/shell.c:1827-1834 | a field is dequoted in place and nothing behind its terminator changes |
| `CsvImport.ImportRow` | sqlite/shell.c:1803-1836 | a line yields its dequoted fields, if there are as many as columns |
| `CsvImport.Import` | sqlite/shell.c:1799-1846 | the reader computes `Imported`: all rows, or none if one has the wrong number of columns |
| `CsvMeaning.SplitExactly` | sqlite/shell.c:1804-1815 | of any line: without a separator outside quotes it is one field, and every such separator parts the fields before it from those behind it |
| `CsvMeaning.DequotedExactly` | sqlite/shell.c:1826-1834 | of any field: one that begins with a quote loses it, and each quote that has an even number of quotes directly before it; any other one is kept |
| `CsvMeaning.LinesOf` | sqlite/shell.c:337-378 | every text consists of lines that end in their first newline outside quotes, and have a content without it and a carriage return before it |
| `CsvMeaning.ImportedExactly` | sqlite/shell.c:1799-1846 | of any text: all rows are imported if every line has the right number of fields, and none otherwise |
| `CStrings.OutputCString` | sqlite/shell.c:536-559 | the printed text is the escaped body between quotes |
| `CStrings.PrintsExactly` | sqlite/shell.c:536-559 | every character is printed by itself: as it is if it is printable and no backslash, by its two-character name, or by the three octal digits that write it |
| `CStrings.PlainTextIsPrintedPlainly` | sqlite/shell.c:554-556 | text of such characters is printed as it is |
| `CStrings.ResolveBackslashes` | sqlite/shell.c:1478-1505 | decoding in place, the writer never passes the reader; it overruns if and only if the string ends in an odd number of backslashes |
| `CStrings.OctalEscape` | sqlite/shell.c:1490-1500 | a backslash and one, two or three octal digits, followed by what cannot continue them, stand for the byte they write in base eight |
| `CStrings.CharacterEscape` | sqlite/shell.c:1482-1490 | the letters n, t and r name control characters behind a backslash; any other character but an octal digit stands for itself |
| `CStrings.PlainCharacter` | sqlite/shell.c:1481-1503 | a character that is not a backslash stands for itself |
| `CStrings.OpenMeansOddBackslashes` | sqlite/shell.c:1478-1505 | the tokens of a string end in a lone backslash if and only if it ends in an odd number of them |
| `CStrings.LoneBackslashIsOpen` | sqlite/shell.c:1478-1505 | a string on which it overruns |
| `CStrings.CStringRoundTrip` | sqlite/shell.c:1478-1505 | decoding the escaped body of any string gives the string back |
| `CStrings.PrintAndResolve` | sqlite/shell.c:536-559 | printer and in-place decoder together give every string back |

## Left out

- EvenSources.EvenRunFinishes: a sufficient condition on the data. UnevenSources.FinishedRunsAreSpread is a necessary one; which of the data between the two let a run finish is not characterised, and how likely random data is to be even is not part of this model.
- Nodes.DistributedSortIsCorrect: holds for even sources; for all others Nodes.DistributedSortExactly says what a finished run does.
- EndToEnd.EvenSortIsCorrect: holds for even sources, as well.
- Receiving.ReadSortedRanges: covers the variant with FUSE_CLIENT; the other one reads each range in a single piece and needs no parts.
- Stream.SockFile.ReadSockf: errors of the message library and slots without a socket are not modelled; a receive either returns a message or waits.
- HistogramAnalyser.AnalyseHistograms: stops at the third kind of stuck run as soon as the flag is set, and does not model 32-bit overflow of item indices. The destination id of sources beyond SRC_NODES_COUNT is any value, as the code leaves it unset; it is replaced before it is sent.
- HistogramAnalyser.DetailedReply: a range that starts behind the source's last item is shifted by the code; it is never requested.
- DistributedSort.Qsort: which of the permutations the library's `qsort` makes of equal keys is not modelled; node ids differ.
- Nodes.Verdict: takes the results in node order; DistributedSort.SortAll puts them there first, as `client/manager/main_man.c:100` does.
- Receiving.WriteSortedRanges: the reply bytes that the sender waits for carry no data and are not modelled.
- Stream.SockFile.ReceiveLoop: errors of the message library are not modelled.
- Csv.OutputCsv: one-character separators and fields that are not NULL only.
- Csv.PrintRow: the optional row of column names is not modelled; it is printed in the same way.
- SocketPool.ZeromqPool.CloseSockf: freeing the temporary buffer is not modelled; slots have no buffer here.
- SocketPool.ZeromqPool.OpenSockf: the code returns a copy of the slot; the model returns whether there is one.
- CsvImport.Import: SQL statements are not modelled, so an error of an insert does not end the loop; line numbers for messages are not kept.
- Csv.CsvRoundTrip: separators of several characters and NULL values are not modelled; a NULL is printed as text and cannot be told from it.
- FUSE callbacks, file descriptors and paths, SQLite queries, ZeroMQ itself, logging, options and start-up scripts: input and output, without logic of their own.
- `server/fs_inmem.c`, the row copying of `server/sqluse_srv.c` and `client/sqluse_cli.c`: one-branch code.
- Filling arrays with random items, printing them, and reading them from files.
- Writing to sockets (`server/zmq_netw.c:313-340`) and opening all files at once (412-425): a loop over opens, covered by the runs of opens and closes.
- The rest of `sqlite/shell.c`.
