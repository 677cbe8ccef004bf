/** The node-local algorithms of client/sort.c: recursive merge sort on arrays,
    the additive checksum, and the self-test a source runs on its sorted data. */
module Sorting {
  import opened Sums

  const CRC_ATOM := 10000000
  const TWO_TO_32 := 0x1_0000_0000

  /** BigArrayItem, a uint32_t. */
  type Item = x: int | 0 <= x < TWO_TO_32

  ghost predicate Sorted(s: seq<Item>) {
    forall i, j :: 0 <= i <= j < |s| ==> s[i] <= s[j]
  }

  // ----- merging -----

  /** What merging yields: always the smaller head, the left one on a tie. */
  ghost function Merged(l: seq<Item>, r: seq<Item>): seq<Item> {
    if l == [] then r
    else if r == [] then l
    else if l[0] <= r[0] then [l[0]] + Merged(l[1..], r)
    else [r[0]] + Merged(l, r[1..])
  }

  lemma {:induction false} MergedIsPermutation(l: seq<Item>, r: seq<Item>)
    ensures |Merged(l, r)| == |l| + |r|
    ensures multiset(Merged(l, r)) == multiset(l) + multiset(r)
    decreases |l| + |r|
  {
    if l == [] || r == [] {
    } else if l[0] <= r[0] {
      assert l == [l[0]] + l[1..];
      MergedIsPermutation(l[1..], r);
    } else {
      assert r == [r[0]] + r[1..];
      MergedIsPermutation(l, r[1..]);
    }
  }

  lemma {:induction false} MergedIsSorted(l: seq<Item>, r: seq<Item>)
    requires Sorted(l) && Sorted(r)
    ensures Sorted(Merged(l, r))
    decreases |l| + |r|
  {
    if l == [] || r == [] {
    } else if l[0] <= r[0] {
      MergedIsSorted(l[1..], r);
      HeadBelowMerged(l[0], l[1..], r);
    } else {
      MergedIsSorted(l, r[1..]);
      HeadBelowMerged(r[0], l, r[1..]);
    }
  }

  lemma HeadBelowMerged(head: Item, l: seq<Item>, r: seq<Item>)
    requires forall k :: 0 <= k < |l| ==> head <= l[k]
    requires forall k :: 0 <= k < |r| ==> head <= r[k]
    ensures forall k :: 0 <= k < |Merged(l, r)| ==> head <= Merged(l, r)[k]
  {
    MergedIsPermutation(l, r);
    forall k | 0 <= k < |Merged(l, r)| ensures head <= Merged(l, r)[k] {
      assert Merged(l, r)[k] in multiset(Merged(l, r));
      assert Merged(l, r)[k] in multiset(l) || Merged(l, r)[k] in multiset(r);
    }
  }

  method CopyArray(dst: array<Item>, dstOffset: nat, src: array<Item>, srcOffset: nat, len: nat)
    requires dst != src
    requires dstOffset + len <= dst.Length && srcOffset + len <= src.Length
    modifies dst
    ensures dst[..dstOffset] == old(dst[..dstOffset])
    ensures dst[dstOffset..dstOffset + len] == src[srcOffset..srcOffset + len]
    ensures dst[dstOffset + len..] == old(dst[dstOffset + len..])
  {
    for i := 0 to len
      invariant dst[..dstOffset] == old(dst[..dstOffset])
      invariant dst[dstOffset..dstOffset + i] == src[srcOffset..srcOffset + i]
      invariant dst[dstOffset + len..] == old(dst[dstOffset + len..])
    {
      dst[dstOffset + i] := src[srcOffset + i];
    }
  }

  method AllocCopyArray(a: array<Item>, offset: nat, len: nat) returns (copy: array<Item>)
    requires offset + len <= a.Length
    ensures fresh(copy) && copy[..] == a[offset..offset + len]
  {
    copy := new Item[len];
    for i := 0 to len
      invariant forall k :: 0 <= k < i ==> copy[k] == a[offset + k]
    {
      copy[i] := a[offset + i];
    }
  }

  /** done has been written and is followed by the merge of what is left of l and r. */
  ghost predicate MergeInProgress(whole: seq<Item>, done: seq<Item>, l: seq<Item>, r: seq<Item>) {
    whole == done + Merged(l, r)
  }

  lemma MergeStarts(l: seq<Item>, r: seq<Item>)
    ensures MergeInProgress(Merged(l, r), [], l, r)
    ensures |Merged(l, r)| == |l| + |r|
  {
    MergedIsPermutation(l, r);
  }

  lemma MergeStep(whole: seq<Item>, done: seq<Item>, l: seq<Item>, r: seq<Item>)
    requires l != [] && r != [] && MergeInProgress(whole, done, l, r)
    ensures l[0] <= r[0] ==> MergeInProgress(whole, done + [l[0]], l[1..], r)
    ensures l[0] > r[0] ==> MergeInProgress(whole, done + [r[0]], l, r[1..])
  {
  }

  lemma MergeFinish(whole: seq<Item>, done: seq<Item>, l: seq<Item>, r: seq<Item>)
    requires (l == [] || r == []) && MergeInProgress(whole, done, l, r)
    ensures whole == done + l + r
  {
  }

  /** The guarded copy of what is left of one input, to the end of the result. */
  method CopyRest(result: array<Item>, current: nat, src: array<Item>, offset: nat)
    requires result != src && offset <= src.Length && current <= result.Length
    requires offset < src.Length ==> current + (src.Length - offset) == result.Length
    modifies result
    ensures offset < src.Length ==> result[..] == old(result[..current]) + src[offset..]
    ensures offset == src.Length ==> result[..] == old(result[..])
  {
    if offset < src.Length {
      CopyArray(result, current, src, offset, src.Length - offset);
      assert src[offset..src.Length] == src[offset..];
      assert result[..] == result[..current] + result[current..];
    }
  }

  /** The two pointers that the C code advances are the offsets l and r. */
  method Merge(left: array<Item>, right: array<Item>) returns (result: array<Item>)
    ensures fresh(result) && result[..] == Merged(left[..], right[..])
  {
    hide Merged, MergeInProgress;
    result := new Item[left.Length + right.Length];
    ghost var L, R := left[..], right[..];
    var l, r, current := 0, 0, 0;
    MergeStarts(L, R);
    assert result[..0] == [] && L[0..] == L && R[0..] == R;
    while l < left.Length && r < right.Length
      invariant 0 <= l <= left.Length && 0 <= r <= right.Length && current == l + r
      invariant left[..] == L && right[..] == R
      invariant MergeInProgress(Merged(L, R), result[..current], L[l..], R[r..])
      decreases left.Length - l + right.Length - r
    {
      ghost var done := result[..current];
      MergeStep(Merged(L, R), done, L[l..], R[r..]);
      if left[l] <= right[r] {
        result[current] := left[l];
        assert L[l..][1..] == L[l + 1..];
        l := l + 1;
      } else {
        result[current] := right[r];
        assert R[r..][1..] == R[r + 1..];
        r := r + 1;
      }
      current := current + 1;
      assert result[..current] == done + [result[current - 1]];
    }
    ghost var done := result[..current];
    MergeFinish(Merged(L, R), done, L[l..], R[r..]);
    CopyRest(result, current, left, l);
    CopyRest(result, current, right, r);
  }

  // ----- merge sort -----

  lemma ShortIsSorted(s: seq<Item>)
    requires |s| <= 1
    ensures Sorted(s)
  {
  }

  lemma SortedHalves(s: seq<Item>, middle: nat, l: seq<Item>, r: seq<Item>)
    requires middle <= |s| && Sorted(l) && Sorted(r)
    requires multiset(l) == multiset(s[..middle]) && multiset(r) == multiset(s[middle..])
    ensures |Merged(l, r)| == |s| && Sorted(Merged(l, r))
    ensures multiset(Merged(l, r)) == multiset(s)
  {
    MergedIsSorted(l, r);
    MergedIsPermutation(l, r);
    assert s == s[..middle] + s[middle..];
    SamePermutationLength(Merged(l, r), s);
  }

  /** The sort of the len items at a + offset; the input array is left alone. */
  method AllocMergeSort(a: array<Item>, offset: nat, len: nat) returns (result: array<Item>)
    requires offset + len <= a.Length
    ensures fresh(result) && result.Length == len
    ensures Sorted(result[..])
    ensures multiset(result[..]) == multiset(old(a[offset..offset + len]))
    decreases len
  {
    hide Sorted, Merged;
    if len <= 1 {
      result := AllocCopyArray(a, offset, len);
      ShortIsSorted(result[..]);
      return;
    }
    var middle := len / 2;
    ghost var s := a[offset..offset + len];
    assert s[..middle] == a[offset..offset + middle] && s[middle..] == a[offset + middle..offset + len];
    var left := AllocMergeSort(a, offset, middle);
    ghost var l := left[..];
    var right := AllocMergeSort(a, offset + middle, len - middle);
    ghost var r := right[..];
    SortedHalves(s, middle, l, r);
    result := Merge(left, right);
  }

  /** Sorted permutations are unique, so the contract of AllocMergeSort fixes its result. */
  lemma {:induction false} SortedPermutationIsUnique(s: seq<Item>, t: seq<Item>)
    requires Sorted(s) && Sorted(t) && multiset(s) == multiset(t)
    ensures s == t
  {
    SamePermutationLength(s, t);
    if s != [] {
      HeadIsLeast(s, t);
      HeadIsLeast(t, s);
      TailsArePermutations(s, t);
      SortedPermutationIsUnique(s[1..], t[1..]);
      assert s == [s[0]] + s[1..] && t == [t[0]] + t[1..];
    }
  }

  lemma TailsArePermutations<T>(s: seq<T>, t: seq<T>)
    requires s != [] && t != [] && s[0] == t[0] && multiset(s) == multiset(t)
    ensures multiset(s[1..]) == multiset(t[1..])
  {
    assert s == [s[0]] + s[1..] && t == [t[0]] + t[1..];
    assert multiset(s[1..]) == multiset(s) - multiset{s[0]};
    assert multiset(t[1..]) == multiset(t) - multiset{t[0]};
  }

  lemma HeadIsLeast(s: seq<Item>, t: seq<Item>)
    requires s != [] && t != [] && Sorted(s) && multiset(s) == multiset(t)
    ensures s[0] <= t[0]
  {
    assert t[0] in multiset(s);
    var k :| 0 <= k < |s| && s[k] == t[0];
  }

  lemma SamePermutationLength(s: seq<Item>, t: seq<Item>)
    requires multiset(s) == multiset(t)
    ensures |s| == |t|
  {
    assert |multiset(s)| == |s|;
    assert |multiset(t)| == |t|;
  }

  // ----- checksum -----

  /** One accumulation of the checksum, in 32-bit arithmetic. */
  function CrcStep(crc: Item, x: Item): Item {
    (crc + x % CRC_ATOM) % TWO_TO_32 % CRC_ATOM
  }

  ghost function Sum(s: seq<Item>): nat {
    if s == [] then 0 else Sum(s[..|s| - 1]) + s[|s| - 1]
  }

  lemma {:induction false} SumOfConcatenation(s: seq<Item>, t: seq<Item>)
    ensures Sum(s + t) == Sum(s) + Sum(t)
  {
    if t == [] {
      assert s + t == s;
    } else {
      assert (s + t)[..|s + t| - 1] == s + t[..|t| - 1];
      SumOfConcatenation(s, t[..|t| - 1]);
    }
  }

  /** The checksum does not see the order of the items. */
  lemma {:induction false} SumOfPermutation(s: seq<Item>, t: seq<Item>)
    requires multiset(s) == multiset(t)
    ensures Sum(s) == Sum(t)
  {
    SamePermutationLength(s, t);
    if s != [] {
      var last := s[|s| - 1];
      assert s == s[..|s| - 1] + [last];
      assert last in multiset(t);
      var k :| 0 <= k < |t| && t[k] == last;
      var before, after := t[..k], t[k + 1..];
      assert t == before + [last] + after;
      assert multiset(t) == multiset(before) + multiset{last} + multiset(after);
      assert multiset(s[..|s| - 1]) == multiset(s) - multiset{last};
      assert multiset(before + after) == multiset(before) + multiset(after);
      SumOfPermutation(s[..|s| - 1], before + after);
      SumOfConcatenation(before, after);
      SumOfConcatenation(before + [last], after);
      SumOfConcatenation(before, [last]);
      assert [last][..0] == [];
      assert Sum([last]) == last;
    }
  }

  /** crc is the checksum of s; for a non-empty array this is what ArrayCrc returns. */
  ghost predicate IsCrcOf(crc: Item, s: seq<Item>) {
    crc == Sum(s) % CRC_ATOM
  }

  /** The 32-bit accumulator never wraps. */
  lemma CrcStepAddsItem(crc: Item, s: seq<Item>, x: Item)
    requires IsCrcOf(crc, s)
    ensures IsCrcOf(CrcStep(crc, x), s + [x])
  {
    assert (s + [x])[..|s|] == s;
    assert Sum(s + [x]) == Sum(s) + x;
    hide Sum;
    RemainderOfSum(Sum(s), x, CRC_ATOM);
  }

  lemma CrcOfPrefix(crc: Item, s: seq<Item>, i: nat)
    requires i < |s| && IsCrcOf(crc, s[..i])
    ensures IsCrcOf(CrcStep(crc, s[i]), s[..i + 1])
  {
    CrcStepAddsItem(crc, s[..i], s[i]);
    assert s[..i] + [s[i]] == s[..i + 1];
  }

  /** The checksum of an empty array is 1, not 0; otherwise it is the sum modulo CRC_ATOM,
      and the 32-bit accumulator never wraps. */
  method ArrayCrc(a: array<Item>) returns (crc: Item)
    ensures a.Length == 0 ==> crc == 1
    ensures a.Length > 0 ==> IsCrcOf(crc, a[..])
  {
    crc := 0;
    ghost var s := a[..];
    if a.Length >= 1 {
      CrcOfPrefix(crc, s, 0);
      crc := CrcStep(crc, a[0]);
    } else {
      return 1;
    }
    for i := 1 to a.Length
      invariant IsCrcOf(crc, s[..i])
    {
      CrcOfPrefix(crc, s, i);
      crc := CrcStep(crc, a[i]);
    }
    assert s[..a.Length] == s;
  }

  lemma SumOfOne(x: Item)
    ensures Sum([x]) == x
  {
    assert [x][..0] == [];
  }

  lemma SumOfReplaced(s: seq<Item>, i: nat, x: Item)
    requires i < |s|
    ensures Sum(s[i := x]) == Sum(s) - s[i] + x
  {
    assert s == s[..i] + [s[i]] + s[i + 1..] && s[i := x] == s[..i] + [x] + s[i + 1..];
    SumOfConcatenation(s[..i] + [s[i]], s[i + 1..]);
    SumOfConcatenation(s[..i] + [x], s[i + 1..]);
    SumOfConcatenation(s[..i], [s[i]]);
    SumOfConcatenation(s[..i], [x]);
    SumOfOne(s[i]);
    SumOfOne(x);
  }

  /** The checksum of a single item is that item, modulo CRC_ATOM. */
  lemma ChecksumOfOne(crc: Item, x: Item)
    ensures IsCrcOf(crc, [x]) <==> crc == x % CRC_ATOM
  {
    SumOfOne(x);
  }

  /** What a checksum is for: it sees every change of a single item, unless the old item and the
      new one agree modulo CRC_ATOM. */
  lemma ChecksumSeesChange(crc: Item, crc': Item, s: seq<Item>, i: nat, x: Item)
    requires i < |s| && IsCrcOf(crc, s) && IsCrcOf(crc', s[i := x])
    ensures crc == crc' <==> s[i] % CRC_ATOM == x % CRC_ATOM
  {
    SumOfReplaced(s, i, x);
    hide Sum;
    var t := s[i := x];
    if s[i] <= x {
      SameRemainder(Sum(t), Sum(s), CRC_ATOM);
      SameRemainder(x, s[i], CRC_ATOM);
    } else {
      SameRemainder(Sum(s), Sum(t), CRC_ATOM);
      SameRemainder(s[i], x, CRC_ATOM);
    }
  }

  /** What TestSortResult accepts. */
  ghost predicate PassesSortTest(unsorted: seq<Item>, sorted: seq<Item>) {
    Sorted(sorted) && Sum(unsorted) % CRC_ATOM == Sum(sorted) % CRC_ATOM
  }

  method TestSortResult(unsorted: array<Item>, sorted: array<Item>) returns (ok: bool)
    requires unsorted.Length == sorted.Length
    ensures ok <==> PassesSortTest(unsorted[..], sorted[..])
  {
    ghost var u, s := unsorted[..], sorted[..];
    var unsortedCrc, sortedCrc: Item := 0, 0;
    if sorted.Length == 0 {
      return true;
    }
    var initial := sorted[0];
    CrcOfPrefix(unsortedCrc, u, 0);
    CrcOfPrefix(sortedCrc, s, 0);
    unsortedCrc := CrcStep(unsortedCrc, unsorted[0]);
    sortedCrc := CrcStep(sortedCrc, sorted[0]);
    for i := 1 to sorted.Length
      invariant IsCrcOf(unsortedCrc, u[..i]) && IsCrcOf(sortedCrc, s[..i])
      invariant initial == s[i - 1] && Sorted(s[..i])
    {
      CrcOfPrefix(unsortedCrc, u, i);
      CrcOfPrefix(sortedCrc, s, i);
      unsortedCrc := CrcStep(unsortedCrc, unsorted[i]);
      sortedCrc := CrcStep(sortedCrc, sorted[i]);
      if initial > sorted[i] {
        assert s[i - 1] > s[i];
        return false;
      }
      initial := sorted[i];
    }
    assert u[..sorted.Length] == u && s[..sorted.Length] == s;
    ok := unsortedCrc == sortedCrc;
  }

  /** A permutation that is sorted always passes: the test never rejects a correct sort. */
  lemma SortPassesTest(unsorted: seq<Item>, sorted: seq<Item>)
    requires Sorted(sorted) && multiset(sorted) == multiset(unsorted)
    ensures PassesSortTest(unsorted, sorted)
  {
    SumOfPermutation(unsorted, sorted);
  }

  /** The test accepts what never falls from one item to the next and has the same checksum. */
  lemma TestAcceptsExactly(unsorted: seq<Item>, sorted: seq<Item>, unsortedCrc: Item, sortedCrc: Item)
    requires IsCrcOf(unsortedCrc, unsorted) && IsCrcOf(sortedCrc, sorted)
    ensures PassesSortTest(unsorted, sorted) <==>
            unsortedCrc == sortedCrc && forall i :: 0 < i < |sorted| ==> sorted[i - 1] <= sorted[i]
  {
    hide Sum;
    if forall i :: 0 < i < |sorted| ==> sorted[i - 1] <= sorted[i] { StepsAreSorted(sorted); }
  }

  lemma {:induction false} StepsAreSorted(s: seq<Item>)
    requires forall i :: 0 < i < |s| ==> s[i - 1] <= s[i]
    ensures Sorted(s)
  {
    if s != [] {
      var t := s[1..];
      StepsAreSorted(t);
      forall i, j | 0 <= i <= j < |s| ensures s[i] <= s[j] {
        if 0 < j { assert t[0] <= t[j - 1] && s[0] <= s[1] == t[0]; }
        if 0 < i { assert t[i - 1] <= t[j - 1]; }
      }
    }
  }

  /** A result that is sorted, and right up to a single item, passes if and only if that item
      agrees with the right one modulo CRC_ATOM. */
  lemma TestSeesWrongItem(unsorted: seq<Item>, sorted: seq<Item>, i: nat, x: Item)
    requires multiset(sorted) == multiset(unsorted) && i < |sorted| && Sorted(sorted[i := x])
    ensures PassesSortTest(unsorted, sorted[i := x]) <==> x % CRC_ATOM == sorted[i] % CRC_ATOM
  {
    SumOfPermutation(unsorted, sorted);
    hide Sum;
    var crc, crc': Item := Sum(sorted) % CRC_ATOM, Sum(sorted[i := x]) % CRC_ATOM;
    ChecksumSeesChange(crc, crc', sorted, i, x);
  }

  /** run_sort, on given data instead of random data. */
  method RunSort(unsorted: array<Item>) returns (sorted: array<Item>, ok: bool)
    ensures ok
    ensures fresh(sorted) && Sorted(sorted[..]) && multiset(sorted[..]) == multiset(unsorted[..])
  {
    sorted := AllocMergeSort(unsorted, 0, unsorted.Length);
    assert unsorted[0..unsorted.Length] == unsorted[..];
    ok := TestSortResult(unsorted, sorted);
    SortPassesTest(unsorted[..], sorted[..]);
  }
}
