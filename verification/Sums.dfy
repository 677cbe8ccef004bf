/** Finite sums, and rounding up to a multiple. */
module Sums {

  function Min(a: int, b: int): int {
    if a < b then a else b
  }

  ghost function Total(s: seq<int>): int {
    if s == [] then 0 else Total(s[..|s| - 1]) + s[|s| - 1]
  }

  lemma {:induction false} TotalUpdate(s: seq<int>, i: nat, v: int)
    requires i < |s|
    ensures Total(s[i := v]) == Total(s) - s[i] + v
  {
    var last := |s| - 1;
    if i == last {
      assert s[i := v][..last] == s[..last];
    } else {
      assert s[i := v][..last] == s[..last][i := v];
      TotalUpdate(s[..last], i, v);
    }
  }

  lemma {:induction false} TotalAdd(s: seq<int>, t: seq<int>, u: seq<int>)
    requires |s| == |t| == |u| && forall i :: 0 <= i < |s| ==> s[i] + t[i] == u[i]
    ensures Total(s) + Total(t) == Total(u)
  {
    if s != [] {
      var last := |s| - 1;
      TotalAdd(s[..last], t[..last], u[..last]);
    }
  }

  lemma {:induction false} TotalOrder(s: seq<int>, t: seq<int>)
    requires |s| == |t| && forall i :: 0 <= i < |s| ==> s[i] <= t[i]
    ensures Total(s) <= Total(t)
  {
    if s != [] {
      var last := |s| - 1;
      TotalOrder(s[..last], t[..last]);
    }
  }

  lemma {:induction false} TotalConstant(s: seq<int>, v: int)
    requires forall i :: 0 <= i < |s| ==> s[i] == v
    ensures Total(s) == |s| * v
  {
    if s != [] {
      TotalConstant(s[..|s| - 1], v);
      MulNext(|s| - 1, v);
    }
  }

  lemma TotalAtMost(s: seq<int>, v: int)
    requires forall i :: 0 <= i < |s| ==> s[i] <= v
    ensures Total(s) <= |s| * v
  {
    var t := seq(|s|, _ => v);
    TotalOrder(s, t);
    TotalConstant(t, v);
  }

  /** As TotalAtMost, when one entry is known to be smaller still. */
  lemma TotalAtMostBut(s: seq<int>, v: int, i: nat, w: int)
    requires i < |s| && s[i] <= w
    requires forall j :: 0 <= j < |s| && j != i ==> s[j] <= v
    ensures Total(s) <= (|s| - 1) * v + w
  {
    TotalUpdate(s, i, v);
    TotalAtMost(s[i := v], v);
    MulNext(|s| - 1, v);
  }

  lemma TotalAtLeast(s: seq<int>, v: int)
    requires forall i :: 0 <= i < |s| ==> s[i] >= v
    ensures Total(s) >= |s| * v
  {
    var t := seq(|s|, _ => v);
    TotalOrder(t, s);
    TotalConstant(t, v);
  }

  lemma TotalAtLeastBut(s: seq<int>, v: int, i: nat, w: int)
    requires i < |s| && s[i] >= w
    requires forall j :: 0 <= j < |s| && j != i ==> s[j] >= v
    ensures Total(s) >= (|s| - 1) * v + w
  {
    TotalUpdate(s, i, v);
    TotalAtLeast(s[i := v], v);
    MulNext(|s| - 1, v);
  }

  /** Equal totals of pointwise ordered sequences leave no room for a difference. */
  lemma TotalTight(s: seq<int>, t: seq<int>)
    requires |s| == |t| && forall i :: 0 <= i < |s| ==> s[i] <= t[i]
    requires Total(s) >= Total(t)
    ensures s == t
  {
    forall i | 0 <= i < |s| ensures s[i] == t[i] {
      TotalUpdate(s, i, t[i]);
      TotalOrder(s[i := t[i]], t);
    }
  }

  // ----- multiples of a step -----

  lemma MulOrder(a: int, b: int, k: nat)
    requires a <= b
    ensures a * k <= b * k
  {
  }

  lemma MulNext(a: int, k: int)
    ensures (a + 1) * k == a * k + k
  {
  }

  lemma TimesDifference(a: int, b: int, c: int)
    ensures a * (b - c) == a * b - a * c
    ensures a * (b + c) == a * b + a * c
  {
  }

  lemma DivMod(x: nat, step: nat)
    requires step > 0
    ensures x / step >= 0 && x == x / step * step + x % step && 0 <= x % step < step
  {
  }

  /** The least multiple of step that is not below x. */
  function RoundUp(x: nat, step: nat): nat
    requires step > 0
  {
    if x % step == 0 then x else x - x % step + step
  }

  /** The bucket that ends at or behind a positive x. */
  lemma BucketBefore(x: nat, step: nat)
    requires step > 0 && x > 0
    ensures var start := RoundUp(x, step) - step; 0 <= start < x <= start + step && start % step == 0
  {
    RoundUpBounds(x, step);
    MultiplesWithinStep(step, RoundUp(x, step), step);
    StepKeepsRemainder(RoundUp(x, step) - step, step);
  }

  lemma RoundUpBounds(x: nat, step: nat)
    requires step > 0
    ensures x <= RoundUp(x, step) < x + step
    ensures RoundUp(x, step) % step == 0
  {
    DivMod(x, step);
    MultipleHasNoRemainder(x / step, step);
    StepKeepsRemainder(x - x % step, step);
  }

  lemma MultipleHasNoRemainder(q: nat, step: nat)
    requires step > 0
    ensures q * step % step == 0
  {
    RemainderIsUnique(q * step, step, q, 0);
  }

  lemma StepKeepsRemainder(x: nat, step: nat)
    requires step > 0
    ensures (x + step) % step == x % step
  {
    DivMod(x, step);
    MulNext(x / step, step);
    RemainderIsUnique(x + step, step, x / step + 1, x % step);
  }

  lemma RemainderIsUnique(x: nat, step: nat, q: nat, r: nat)
    requires step > 0 && x == q * step + r && r < step
    ensures x / step == q && x % step == r
  {
    DivMod(x, step);
    if q < x / step {
      MulOrder(q + 1, x / step, step);
      MulNext(q, step);
    } else if x / step < q {
      MulOrder(x / step + 1, q, step);
      MulNext(x / step, step);
    }
  }

  lemma RemainderOfSum(a: nat, b: nat, step: nat)
    requires step > 0
    ensures (a + b) % step == (a % step + b % step) % step
  {
    DivMod(a, step);
    DivMod(b, step);
    var rest := a % step + b % step;
    DivMod(rest, step);
    assert a + b == (a / step + b / step + rest / step) * step + rest % step;
    RemainderIsUnique(a + b, step, a / step + b / step + rest / step, rest % step);
  }

  lemma SameRemainder(a: nat, b: nat, step: nat)
    requires step > 0 && b <= a
    ensures a % step == b % step <==> (a - b) % step == 0
  {
    DivMod(a, step);
    DivMod(b, step);
    DivMod(a - b, step);
    if a % step == b % step {
      MultiplesAdd(b - b % step, a - a % step, step) by {
        MultipleHasNoRemainder(a / step, step);
        MultipleHasNoRemainder(b / step, step);
      }
    }
    if (a - b) % step == 0 {
      assert a == (b / step + (a - b) / step) * step + b % step;
      RemainderIsUnique(a, step, b / step + (a - b) / step, b % step);
    }
  }

  /** A multiple less than a step above another is not above it. */
  lemma MultiplesWithinStep(a: nat, b: nat, step: nat)
    requires step > 0 && a % step == 0 && b % step == 0 && a < b + step
    ensures a <= b
  {
    DivMod(a, step);
    DivMod(b, step);
    if a / step > b / step {
      MulOrder(b / step + 1, a / step, step);
      MulNext(b / step, step);
    } else {
      MulOrder(a / step, b / step, step);
    }
  }

  lemma MultiplesAdd(a: nat, b: nat, step: nat)
    requires step > 0 && a % step == 0 && b % step == 0
    ensures (a + b) % step == 0
    ensures a <= b ==> (b - a) % step == 0
  {
    DivMod(a, step);
    DivMod(b, step);
    assert (a / step + b / step) * step == a + b;
    MultipleHasNoRemainder(a / step + b / step, step);
    if a <= b {
      if a / step > b / step {
        MulOrder(b / step + 1, a / step, step);
        MulNext(b / step, step);
      }
      assert (b / step - a / step) * step == b - a;
      MultipleHasNoRemainder(b / step - a / step, step);
    }
  }

  lemma {:induction false} TotalOfMultiples(s: seq<int>, step: nat)
    requires step > 0 && forall i :: 0 <= i < |s| ==> s[i] >= 0 && s[i] % step == 0
    ensures Total(s) >= 0 && Total(s) % step == 0
  {
    if s != [] {
      TotalOfMultiples(s[..|s| - 1], step);
      MultiplesAdd(Total(s[..|s| - 1]), s[|s| - 1], step);
    }
  }
}
