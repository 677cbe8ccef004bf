/** Parts of a whole: concatenating sequences of items. */
module Flattening {
  import opened Sorting
  import opened Sums

  ghost function Flatten(ss: seq<seq<Item>>): seq<Item> {
    if ss == [] then [] else Flatten(ss[..|ss| - 1]) + ss[|ss| - 1]
  }

  /** Appending to every part permutes the whole. */
  lemma {:induction false} FlattenPointwise(a: seq<seq<Item>>, b: seq<seq<Item>>, c: seq<seq<Item>>)
    requires |a| == |b| == |c| && forall i :: 0 <= i < |a| ==> c[i] == a[i] + b[i]
    ensures multiset(Flatten(c)) == multiset(Flatten(a)) + multiset(Flatten(b))
  {
    if a != [] {
      var last := |a| - 1;
      FlattenPointwise(a[..last], b[..last], c[..last]);
      assert multiset(c[last]) == multiset(a[last]) + multiset(b[last]);
    }
  }

  lemma {:induction false} FlattenEmpty(ss: seq<seq<Item>>)
    requires forall i :: 0 <= i < |ss| ==> ss[i] == []
    ensures Flatten(ss) == []
  {
    if ss != [] { FlattenEmpty(ss[..|ss| - 1]); }
  }

  /** An item of the whole is an item of one of the parts. */
  lemma {:induction false} FlattenMember(ss: seq<seq<Item>>, x: Item)
    requires x in Flatten(ss)
    ensures exists i :: 0 <= i < |ss| && x in ss[i]
  {
    if x !in ss[|ss| - 1] {
      FlattenMember(ss[..|ss| - 1], x);
      var i :| 0 <= i < |ss| - 1 && x in ss[..|ss| - 1][i];
      assert x in ss[i];
    }
  }

  lemma {:induction false} FlattenLength(ss: seq<seq<Item>>, lengths: seq<int>)
    requires |ss| == |lengths| && forall i :: 0 <= i < |ss| ==> |ss[i]| == lengths[i]
    ensures |Flatten(ss)| == Total(lengths)
  {
    if ss != [] { FlattenLength(ss[..|ss| - 1], lengths[..|lengths| - 1]); }
  }

  /** Permuting every part permutes the whole. */
  lemma {:induction false} FlattenPermuted(a: seq<seq<Item>>, b: seq<seq<Item>>)
    requires |a| == |b| && forall i :: 0 <= i < |a| ==> multiset(a[i]) == multiset(b[i])
    ensures multiset(Flatten(a)) == multiset(Flatten(b))
  {
    if a != [] { FlattenPermuted(a[..|a| - 1], b[..|b| - 1]); }
  }

  /** Appending to one part permutes the whole. */
  lemma {:induction false} FlattenExtend(ss: seq<seq<Item>>, i: nat, x: seq<Item>)
    requires i < |ss|
    ensures multiset(Flatten(ss[i := ss[i] + x])) == multiset(Flatten(ss)) + multiset(x)
  {
    var last := |ss| - 1;
    var ss' := ss[i := ss[i] + x];
    if i == last {
      assert ss'[..last] == ss[..last];
      assert Flatten(ss') == Flatten(ss) + x;
    } else {
      FlattenExtend(ss[..last], i, x);
      assert ss'[..last] == ss[..last][i := ss[i] + x];
    }
  }

  lemma {:induction false} FlattenContains(ss: seq<seq<Item>>, i: nat, x: Item)
    requires i < |ss| && x in ss[i]
    ensures x in Flatten(ss)
  {
    if i < |ss| - 1 { FlattenContains(ss[..|ss| - 1], i, x); }
  }

  /** Sorted parts, each below the later ones, make a sorted whole. */
  lemma {:induction false} FlattenSorted(ss: seq<seq<Item>>)
    requires forall i :: 0 <= i < |ss| ==> Sorted(ss[i])
    requires forall i, j, x, y :: 0 <= i < j < |ss| && x in ss[i] && y in ss[j] ==> x <= y
    ensures Sorted(Flatten(ss))
  {
    if ss != [] {
      var last := |ss| - 1;
      var before := ss[..last];
      FlattenSorted(before);
      forall x, y | x in Flatten(before) && y in ss[last] ensures x <= y {
        FlattenMember(before, x);
        var i :| 0 <= i < last && x in before[i];
        assert x in ss[i];
      }
      SortedAppend(Flatten(before), ss[last]);
    }
  }

  lemma SortedAppend(s: seq<Item>, t: seq<Item>)
    requires Sorted(s) && Sorted(t) && forall x, y :: x in s && y in t ==> x <= y
    ensures Sorted(s + t)
  {
    forall i, j | 0 <= i <= j < |s + t| ensures (s + t)[i] <= (s + t)[j] {
      if i < |s| <= j {
        assert s[i] in s && t[j - |s|] in t;
      }
    }
  }

  /** In a sorted whole, each part is below the later ones. */
  lemma {:induction false} FlattenInOrder(ss: seq<seq<Item>>, i: nat, j: nat, x: Item, y: Item)
    requires Sorted(Flatten(ss)) && i < j < |ss| && x in ss[i] && y in ss[j]
    ensures x <= y
  {
    var last := |ss| - 1;
    var before := Flatten(ss[..last]);
    if j < last {
      forall k, m | 0 <= k <= m < |before| ensures before[k] <= before[m] {
        assert Flatten(ss)[k] == before[k] && Flatten(ss)[m] == before[m];
      }
      FlattenInOrder(ss[..last], i, j, x, y);
    } else {
      FlattenContains(ss[..last], i, x);
      var k :| 0 <= k < |before| && before[k] == x;
      var m :| 0 <= m < |ss[j]| && ss[j][m] == y;
      assert Flatten(ss)[k] == x && Flatten(ss)[|before| + m] == y;
    }
  }
}
