/** From the recorded ranges to the sorted whole: every item reaches exactly one destination,
    and with exact cuts the destinations' outputs, one after the other, are the sorted input. */
module EndToEnd {
  import opened Sorting
  import opened Sums
  import opened RangeCuts
  import opened EvenSources
  import opened Flattening

  // ----- what each destination is sent -----

  /** The items that source i sends to the destination of this row. */
  ghost function Slice(cfg: Config, row: seq<Range>, i: nat): seq<Item>
    requires cfg.Valid() && RowInRange(cfg, row) && i < cfg.Len()
  {
    cfg.sources[i][row[i].first..row[i].last + 1]
  }

  ghost function Slices(cfg: Config, row: seq<Range>): seq<seq<Item>>
    requires cfg.Valid() && RowInRange(cfg, row)
  {
    seq(cfg.Len(), i requires 0 <= i < cfg.Len() => Slice(cfg, row, i))
  }

  /** A destination is sent as many items as its row counts. */
  lemma SlicesFillQuota(cfg: Config, row: seq<Range>)
    requires cfg.Valid() && RowInRange(cfg, row)
    ensures |Flatten(Slices(cfg, row))| == Total(RowSizes(row))
  {
    FlattenLength(Slices(cfg, row), RowSizes(row));
  }

  /** What the sources have handed out to the destinations of these rows. */
  ghost function HandedOut(cfg: Config, rows: seq<seq<Range>>): seq<seq<Item>>
    requires cfg.Valid() && Tiles(cfg, rows)
  {
    TilesEndInRange(cfg, rows);
    seq(cfg.Len(), i requires 0 <= i < cfg.Len() => cfg.sources[i][..NextFirst(rows, i)])
  }

  lemma TilesEndInRange(cfg: Config, rows: seq<seq<Range>>)
    requires Tiles(cfg, rows)
    ensures forall i :: 0 <= i < cfg.Len() ==>
      (rows != [] ==> i < |rows[|rows| - 1]|) && 0 <= NextFirst(rows, i) <= cfg.n
  {
  }

  /** A prefix of the rows tiles too, and row d goes on where the rows before it ended. */
  lemma {:induction false} TilesAt(cfg: Config, rows: seq<seq<Range>>, d: nat)
    requires Tiles(cfg, rows) && d < |rows|
    ensures Tiles(cfg, rows[..d]) && Tiles(cfg, rows[..d + 1]) && RowInRange(cfg, rows[d])
    ensures d > 0 ==> |rows[..d][d - 1]| == cfg.Len()
    ensures forall i :: 0 <= i < cfg.Len() ==> rows[d][i].first == NextFirst(rows[..d], i)
  {
    if d + 1 < |rows| {
      TilesAt(cfg, rows[..|rows| - 1], d);
      assert rows[..|rows| - 1][..d] == rows[..d] && rows[..|rows| - 1][..d + 1] == rows[..d + 1];
    } else {
      assert rows[..|rows| - 1] == rows[..d] && rows[..d + 1] == rows;
    }
  }

  lemma HandOutRow(cfg: Config, rows: seq<seq<Range>>, d: nat)
    requires cfg.Valid() && Tiles(cfg, rows) && d < |rows|
    ensures Tiles(cfg, rows[..d]) && Tiles(cfg, rows[..d + 1]) && RowInRange(cfg, rows[d])
    ensures multiset(Flatten(HandedOut(cfg, rows[..d + 1]))) ==
      multiset(Flatten(HandedOut(cfg, rows[..d]))) + multiset(Flatten(Slices(cfg, rows[d])))
  {
    TilesAt(cfg, rows, d);
    var before, row, after := HandedOut(cfg, rows[..d]), Slices(cfg, rows[d]), HandedOut(cfg, rows[..d + 1]);
    forall i | 0 <= i < cfg.Len() ensures after[i] == before[i] + row[i] {
      assert NextFirst(rows[..d + 1], i) == rows[d][i].last + 1;
    }
    FlattenPointwise(before, row, after);
  }

  /** Output d is a sorted permutation of what the sources send to destination d. */
  ghost predicate Delivered(cfg: Config, rows: seq<seq<Range>>, outputs: seq<seq<Item>>)
    requires cfg.Valid()
  {
    |outputs| == |rows| &&
    forall d :: 0 <= d < |rows| ==>
      RowInRange(cfg, rows[d]) && Sorted(outputs[d]) &&
      multiset(outputs[d]) == multiset(Flatten(Slices(cfg, rows[d])))
  }

  /** Nothing is lost and nothing is sent twice, whether the cuts are exact or not. */
  lemma {:induction false} NothingLost(cfg: Config, rows: seq<seq<Range>>, outputs: seq<seq<Item>>)
    requires cfg.Valid() && Tiles(cfg, rows) && Delivered(cfg, rows, outputs)
    ensures multiset(Flatten(outputs)) == multiset(Flatten(HandedOut(cfg, rows)))
  {
    if rows == [] {
      FlattenEmpty(HandedOut(cfg, rows));
    } else {
      var last := |rows| - 1;
      DeliveredBefore(cfg, rows, outputs);
      hide Tiles, RowInRange, Slices, HandedOut, Sorted, Delivered, NextFirst;
      NothingLost(cfg, rows[..last], outputs[..last]);
      HandOutRow(cfg, rows, last);
      assert rows[..last + 1] == rows;
    }
  }

  lemma DeliveredBefore(cfg: Config, rows: seq<seq<Range>>, outputs: seq<seq<Item>>)
    requires cfg.Valid() && Tiles(cfg, rows) && Delivered(cfg, rows, outputs) && rows != []
    ensures Tiles(cfg, rows[..|rows| - 1]) && RowInRange(cfg, rows[|rows| - 1]) && |outputs| == |rows|
    ensures Delivered(cfg, rows[..|rows| - 1], outputs[..|rows| - 1])
    ensures multiset(outputs[|rows| - 1]) == multiset(Flatten(Slices(cfg, rows[|rows| - 1])))
  {
  }

  lemma AllHandedOut(cfg: Config, o: Outcome)
    requires cfg.Valid() && o.Done? && RunHolds(cfg, o)
    ensures HandedOut(cfg, o.rows) == cfg.sources
  {
    forall i | 0 <= i < cfg.Len() ensures HandedOut(cfg, o.rows)[i] == cfg.sources[i] {
      assert NextFirst(o.rows, i) == |cfg.sources[i]|;
    }
  }

  lemma OutputsArePermutation(cfg: Config, o: Outcome, outputs: seq<seq<Item>>)
    requires cfg.Valid() && o.Done? && RunHolds(cfg, o) && Delivered(cfg, o.rows, outputs)
    ensures multiset(Flatten(outputs)) == multiset(Flatten(cfg.sources))
  {
    assert Tiles(cfg, o.rows);
    AllHandedOut(cfg, o);
    hide RunHolds, Delivered, Flatten, HandedOut;
    NothingLost(cfg, o.rows, outputs);
  }

  // ----- order across the destinations -----

  /** Where an output item comes from. */
  lemma OutputItemOrigin(cfg: Config, rows: seq<seq<Range>>, outputs: seq<seq<Item>>, d: nat, x: Item)
    returns (i: nat, k: nat)
    requires cfg.Valid() && Delivered(cfg, rows, outputs) && d < |rows| && x in outputs[d]
    ensures RowInRange(cfg, rows[d]) && i < cfg.Len() && rows[d][i].first <= k <= rows[d][i].last
    ensures x == cfg.sources[i][k]
  {
    assert x in multiset(outputs[d]);
    FlattenMember(Slices(cfg, rows[d]), x);
    i :| 0 <= i < cfg.Len() && x in Slices(cfg, rows[d])[i];
    var s := Slice(cfg, rows[d], i);
    var p :| 0 <= p < |s| && s[p] == x;
    k := rows[d][i].first + p;
  }

  // ----- where the ranges lie -----

  /** Each item of each source is in the range of exactly one destination. */
  lemma {:induction false} OneDestinationPerItem(cfg: Config, rows: seq<seq<Range>>, i: nat, k: nat)
      returns (d: nat)
    requires Tiles(cfg, rows) && i < cfg.Len() && rows != [] && i < |rows[|rows| - 1]| && k < NextFirst(rows, i)
    ensures d < |rows| && RowInRange(cfg, rows[d]) && rows[d][i].first <= k <= rows[d][i].last
    ensures forall e ::
      (0 <= e < |rows| && RowInRange(cfg, rows[e]) && rows[e][i].first <= k <= rows[e][i].last) ==> e == d
  {
    var last := |rows| - 1;
    var before := rows[..last];
    if before != [] { TilesAt(cfg, rows, last); }
    if k >= rows[last][i].first {
      d := last;
      RangesBefore(cfg, before, i);
    } else {
      d := OneDestinationPerItem(cfg, before, i, k);
    }
  }

  lemma {:induction false} RangesBefore(cfg: Config, rows: seq<seq<Range>>, i: nat)
    requires Tiles(cfg, rows) && i < cfg.Len() && (rows != [] ==> i < |rows[|rows| - 1]|)
    ensures forall e :: 0 <= e < |rows| && RowInRange(cfg, rows[e]) ==> rows[e][i].last < NextFirst(rows, i)
  {
    if rows != [] {
      var before := rows[..|rows| - 1];
      RangesBefore(cfg, before, i);
      forall e | 0 <= e < |rows| && RowInRange(cfg, rows[e]) ensures rows[e][i].last < NextFirst(rows, i) {
        if e < |rows| - 1 {
          assert before[e] == rows[e];
        }
      }
    }
  }

  lemma ItemReachesOutput(cfg: Config, rows: seq<seq<Range>>, outputs: seq<seq<Item>>, d: nat, i: nat, k: nat)
    requires cfg.Valid() && Delivered(cfg, rows, outputs) && d < |rows| && RowInRange(cfg, rows[d])
    requires i < cfg.Len() && rows[d][i].first <= k <= rows[d][i].last
    ensures cfg.sources[i][k] in outputs[d]
  {
    assert Slice(cfg, rows[d], i)[k - rows[d][i].first] == cfg.sources[i][k];
    assert Slices(cfg, rows[d])[i] == Slice(cfg, rows[d], i);
    FlattenContains(Slices(cfg, rows[d]), i, cfg.sources[i][k]);
    assert cfg.sources[i][k] in multiset(outputs[d]);
  }

  /** After every destination, no source has handed out an item that is above an item another
      source still holds. Only the items at the ends of the ranges are compared. */
  ghost predicate BoundariesAgree(cfg: Config, rows: seq<seq<Range>>)
    requires cfg.Valid()
  {
    forall d :: 0 <= d < |rows| ==> RowInRange(cfg, rows[d]) && BoundaryAgrees(cfg, rows[d])
  }

  ghost predicate BoundaryAgrees(cfg: Config, row: seq<Range>)
    requires cfg.Valid() && RowInRange(cfg, row)
  {
    forall i, j :: 0 <= i < cfg.Len() && 0 <= j < cfg.Len() && row[i].last >= 0 && row[j].last + 1 < cfg.n ==>
      cfg.sources[i][row[i].last] <= cfg.sources[j][row[j].last + 1]
  }

  /** Exact cuts agree at all boundaries. */
  lemma ExactCutsAgree(cfg: Config, rows: seq<seq<Range>>, cuts: seq<Cut>)
    requires cfg.Valid() && RowsAndCutsHold(cfg, rows, cuts) && CutsExact(cfg, rows, cuts) && |rows| == cfg.Len()
    requires forall i :: 0 <= i < cfg.Len() ==> NextFirst(rows, i) == cfg.n
    ensures BoundariesAgree(cfg, rows)
  {
    hide Tiles, Displaced, Total;
    forall d | 0 <= d < |rows| ensures BoundaryAgrees(cfg, rows[d]) {
      assert CutHolds(cfg, rows[d], cuts[d]);
      if d + 1 < |rows| {
        assert Exact(cfg, rows[d], cuts[d].last);
      } else {
        assert forall i :: 0 <= i < cfg.Len() ==> NextFirst(rows, i) == rows[d][i].last + 1;
      }
    }
  }

  /** Where ranges of an earlier and a later destination lie. */
  lemma EarlierRangesEndBefore(cfg: Config, rows: seq<seq<Range>>, d: nat, e: nat, j: nat)
    requires Tiles(cfg, rows) && d < e < |rows| && j < cfg.Len()
    ensures RowInRange(cfg, rows[d]) && RowInRange(cfg, rows[e]) && rows[d][j].last < rows[e][j].first
  {
    TilesAt(cfg, rows, d);
    TilesAt(cfg, rows, e);
    RangesBefore(cfg, rows[..e], j);
    assert rows[..e][d] == rows[d];
  }

  /** If the boundaries agree, every output is below the later ones. */
  lemma OutputsInOrder(cfg: Config, rows: seq<seq<Range>>, outputs: seq<seq<Item>>, d: nat, e: nat, x: Item, y: Item)
    requires cfg.Valid() && Tiles(cfg, rows) && Delivered(cfg, rows, outputs) && BoundariesAgree(cfg, rows)
    requires d < e < |rows| && x in outputs[d] && y in outputs[e]
    ensures x <= y
  {
    hide Tiles;
    var i, k := OutputItemOrigin(cfg, rows, outputs, d, x);
    var j, m := OutputItemOrigin(cfg, rows, outputs, e, y);
    EarlierRangesEndBefore(cfg, rows, d, e, j);
    assert BoundaryAgrees(cfg, rows[d]);
  }

  /** If the outputs are in order, so are the items at any boundary. */
  lemma SortedBoundary(cfg: Config, rows: seq<seq<Range>>, outputs: seq<seq<Item>>, d: nat, i: nat, j: nat)
    requires cfg.Valid() && Tiles(cfg, rows) && Delivered(cfg, rows, outputs) && Sorted(Flatten(outputs))
    requires d < |rows| && i < cfg.Len() && j < cfg.Len() && RowInRange(cfg, rows[d])
    requires |rows[|rows| - 1]| == cfg.Len() && NextFirst(rows, j) == cfg.n
    requires rows[d][i].last >= 0 && rows[d][j].last + 1 < cfg.n
    ensures cfg.sources[i][rows[d][i].last] <= cfg.sources[j][rows[d][j].last + 1]
  {
    hide Flatten, Delivered, Sorted;
    TilesAt(cfg, rows, d);
    var upTo := rows[..d + 1];
    assert upTo[d] == rows[d];
    var e := OneDestinationPerItem(cfg, upTo, i, rows[d][i].last);
    assert upTo[e] == rows[e];
    var f := OneDestinationPerItem(cfg, rows, j, rows[d][j].last + 1);
    RangesBefore(cfg, upTo, j);
    assert forall g :: 0 <= g <= d ==> upTo[g] == rows[g];
    ItemReachesOutput(cfg, rows, outputs, e, i, rows[d][i].last);
    ItemReachesOutput(cfg, rows, outputs, f, j, rows[d][j].last + 1);
    assert |outputs| == |rows| by { SameLength(cfg, rows, outputs); }
    FlattenInOrder(outputs, e, f, cfg.sources[i][rows[d][i].last], cfg.sources[j][rows[d][j].last + 1]);
  }

  lemma SameLength(cfg: Config, rows: seq<seq<Range>>, outputs: seq<seq<Item>>)
    requires cfg.Valid() && Delivered(cfg, rows, outputs)
    ensures |outputs| == |rows|
  {
  }

  /** The destinations' outputs in node order are a permutation of all source items, in every
      finished run; they are sorted exactly if the boundaries agree. */
  lemma SortIsCorrectExactly(cfg: Config, o: Outcome, outputs: seq<seq<Item>>)
    requires cfg.Valid() && o.Done? && RunHolds(cfg, o) && Delivered(cfg, o.rows, outputs)
    ensures multiset(Flatten(outputs)) == multiset(Flatten(cfg.sources))
    ensures Sorted(Flatten(outputs)) <==> BoundariesAgree(cfg, o.rows)
  {
    OutputsArePermutation(cfg, o, outputs);
    if BoundariesAgree(cfg, o.rows) { AgreeingMeansSorted(cfg, o, outputs); }
    if Sorted(Flatten(outputs)) { SortedMeansAgreeing(cfg, o, outputs); }
  }

  lemma AgreeingMeansSorted(cfg: Config, o: Outcome, outputs: seq<seq<Item>>)
    requires cfg.Valid() && o.Done? && RunHolds(cfg, o) && Delivered(cfg, o.rows, outputs)
    requires BoundariesAgree(cfg, o.rows)
    ensures Sorted(Flatten(outputs))
  {
    assert Tiles(cfg, o.rows) && |outputs| == |o.rows| && forall d :: 0 <= d < |outputs| ==> Sorted(outputs[d]);
    hide RunHolds, Delivered, BoundariesAgree, Sorted, Flatten, Tiles;
    forall d, e, x, y | 0 <= d < e < |outputs| && x in outputs[d] && y in outputs[e] ensures x <= y {
      OutputsInOrder(cfg, o.rows, outputs, d, e, x, y);
    }
    FlattenSorted(outputs);
  }

  lemma SortedMeansAgreeing(cfg: Config, o: Outcome, outputs: seq<seq<Item>>)
    requires cfg.Valid() && o.Done? && RunHolds(cfg, o) && Delivered(cfg, o.rows, outputs)
    requires Sorted(Flatten(outputs))
    ensures BoundariesAgree(cfg, o.rows)
  {
    hide Tiles, CutHolds, Sorted, Flatten, Total, Delivered;
    var rows := o.rows;
    assert RowInRange(cfg, rows[|rows| - 1]);
    forall d | 0 <= d < |rows| ensures RowInRange(cfg, rows[d]) && BoundaryAgrees(cfg, rows[d]) {
      forall i, j | 0 <= i < cfg.Len() && 0 <= j < cfg.Len() && rows[d][i].last >= 0 && rows[d][j].last + 1 < cfg.n
        ensures cfg.sources[i][rows[d][i].last] <= cfg.sources[j][rows[d][j].last + 1]
      {
        SortedBoundary(cfg, rows, outputs, d, i, j);
      }
    }
  }

  /** With exact cuts the outputs are the sorted permutation of all source items. */
  lemma SortIsCorrect(cfg: Config, o: Outcome, outputs: seq<seq<Item>>)
    requires cfg.Valid() && o.Done? && RunHolds(cfg, o) && CutsExact(cfg, o.rows, o.cuts)
    requires Delivered(cfg, o.rows, outputs)
    ensures Sorted(Flatten(outputs))
    ensures multiset(Flatten(outputs)) == multiset(Flatten(cfg.sources))
  {
    ExactCutsAgree(cfg, o.rows, o.cuts);
    SortIsCorrectExactly(cfg, o, outputs);
  }

  /** A cut is exact if every source was picked after its detailed histogram had arrived. */
  lemma PickingAllIsExact(cfg: Config, row: seq<Range>, cut: Cut)
    requires cfg.Valid() && RowInRange(cfg, row) && CutHolds(cfg, row, cut)
    requires forall i :: 0 <= i < cfg.Len() ==> i in cut.picked
    ensures Exact(cfg, row, cut.last)
  {
  }

  /** For evenly spread sources the distributed sort is right without any further condition. */
  lemma EvenSortIsCorrect(cfg: Config, d: Skew, outputs: seq<seq<Item>>)
    requires Even(cfg, d)
    ensures Inv(cfg, Start(cfg))
    ensures var o := Run(cfg, Start(cfg));
      && o.Done?
      && (Delivered(cfg, o.rows, outputs) ==>
            Sorted(Flatten(outputs)) && multiset(Flatten(outputs)) == multiset(Flatten(cfg.sources)))
  {
    StartIsEven(cfg, d);
    EvenRunFinishes(cfg, d, Start(cfg));
    RunKeepsPromises(cfg, Start(cfg));
    var o := Run(cfg, Start(cfg));
    if Delivered(cfg, o.rows, outputs) { SortIsCorrect(cfg, o, outputs); }
  }
}
