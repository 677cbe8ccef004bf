/** Histograms of a sorted array (client/dsort.c), coarse and detailed. */
module Histograms {
  import opened Sorting
  import opened Sums

  /** One histogram entry: the first item of a bucket and the indices of the bucket. */
  datatype HistogramItem = HistogramItem(itemIndex: int, lastItemIndex: int, item: Item)

  /** The number of buckets of `step` items that len items need. */
  function BucketCount(len: nat, step: nat): nat
    requires step > 0
  {
    (len + step - 1) / step
  }

  /** The histogram of the len items of a from offset on, one entry per `step` items. */
  function HistogramOf(a: seq<Item>, offset: nat, len: nat, step: nat): (h: seq<HistogramItem>)
    requires step > 0 && offset + len <= |a|
    ensures |h| == BucketCount(len, step)
    ensures forall k :: 0 <= k < |h| ==> h[k].itemIndex == offset + k * step < offset + len
    ensures forall k :: 0 <= k < |h| ==> h[k].item == a[h[k].itemIndex]
    ensures forall k :: 0 <= k < |h| ==> h[k].lastItemIndex - h[k].itemIndex + 1 == step
  {
    BucketBounds(len, step);
    seq(BucketCount(len, step), k requires 0 <= k < BucketCount(len, step) =>
      HistogramItem(offset + k * step, offset + k * step + step - 1, a[offset + k * step]))
  }

  /** Bucket k exists exactly when its first item does. */
  lemma BucketBounds(len: nat, step: nat)
    requires step > 0
    ensures forall k: nat :: k < BucketCount(len, step) <==> k * step < len
    ensures BucketCount(len, step) == if len / step * step < len then len / step + 1 else len / step
    ensures step == 1 ==> BucketCount(len, step) == len
  {
    forall k: nat ensures k < BucketCount(len, step) <==> k * step < len {
      BucketBound(len, step, k);
    }
    var q := len / step;
    assert len == q * step + len % step;
    BucketBound(len, step, q);
    if len % step == 0 {
      if q > 0 { BucketBound(len, step, q - 1); }
    } else {
      BucketBound(len, step, q + 1);
    }
  }

  lemma BucketBound(len: nat, step: nat, k: nat)
    requires step > 0
    ensures k < BucketCount(len, step) <==> k * step < len
  {
    var q := BucketCount(len, step);
    var r := (len + step - 1) % step;
    assert q * step + r == len + step - 1;
    if k < q {
      assert (k + 1) * step <= q * step;
    } else {
      assert k * step >= q * step;
    }
  }

  /** Every item of the array is in the bucket that its index divided by step names, and in no other. */
  lemma BucketsPartitionItems(a: seq<Item>, offset: nat, len: nat, step: nat, i: nat, k: nat)
    requires step > 0 && offset + len <= |a| && i < len
    ensures var h := HistogramOf(a, offset, len, step);
      i / step < |h| &&
      (k < |h| ==> (h[k].itemIndex <= offset + i <= h[k].lastItemIndex <==> k == i / step))
  {
    DivMod(i, step);
    BucketBounds(len, step);
    var h := HistogramOf(a, offset, len, step);
    if k < i / step {
      MulOrder(k + 1, i / step, step);
      MulNext(k, step);
    } else if k > i / step {
      MulOrder(i / step + 1, k, step);
      MulNext(i / step, step);
    }
  }

  /** A detailed histogram shows the coarse one's items, wherever both have an entry. */
  lemma DetailedAgreesWithCoarse(a: seq<Item>, lo: nat, hi: nat, step: nat, k: nat, j: nat)
    requires step > 0 && lo <= hi <= |a|
    requires k < BucketCount(|a|, step) && j < hi - lo
    ensures var coarse, detailed := HistogramOf(a, 0, |a|, step), HistogramOf(a, lo, hi - lo, 1);
      j < |detailed| &&
      (k * step == lo + j <==> coarse[k].itemIndex == detailed[j].itemIndex) &&
      (k * step == lo + j ==> coarse[k].item == detailed[j].item)
  {
    BucketBounds(hi - lo, 1);
  }

  /** alloc_histogram_array_get_len; the length of the result is the C out-parameter. */
  method AllocHistogramArray(a: array<Item>, offset: nat, arrayLen: nat, step: nat)
      returns (histogram: array<HistogramItem>)
    requires step > 0 && offset + arrayLen <= a.Length
    ensures fresh(histogram)
    ensures histogram[..] == HistogramOf(a[..], offset, arrayLen, step)
  {
    var histogramLen := arrayLen / step;
    if histogramLen * step < arrayLen {
      histogramLen := histogramLen + 1;
    }
    assert histogramLen == BucketCount(arrayLen, step) by { BucketBounds(arrayLen, step); }
    ghost var expected := HistogramOf(a[..], offset, arrayLen, step);
    var item: HistogramItem := *;
    histogram := new HistogramItem[histogramLen](_ => item);
    var i, h := 0, 0;
    while i < arrayLen && h < histogramLen
      invariant h <= histogramLen && i == h * step
      invariant histogram[..h] == expected[..h]
      decreases histogramLen - h
    {
      item := HistogramItem(i + offset, i + offset + step - 1, a[i + offset]);
      assert item == expected[h];
      histogram[h] := item;
      MulNext(h, step);
      h := h + 1;
      i := i + step;
    }
    assert h == histogramLen;
    assert histogram[..] == expected;
    // A last, shorter bucket would be added here; every bucket has been written already.
    if item.itemIndex < arrayLen - 1 && h < histogramLen {
      assert false;
    }
  }
}
