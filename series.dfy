/**
 * Reductions over a column of numbers, as pandas computes them: missing
 * cells are skipped (`dropna`, `skipna`), a mean over no values is missing.
 */
module Series {

  import opened Wrappers

  /** `dropna()`: the present values, in order. */
  function Present(xs: seq<Option<real>>): (r: seq<real>)
    ensures |r| <= |xs|
  {
    if xs == [] then [] else (if xs[0].Some? then [xs[0].value] else []) + Present(xs[1..])
  }

  /** The present values are exactly the values of the `Some` cells; there are none exactly when every cell is missing. */
  lemma {:induction false} PresentMembers(xs: seq<Option<real>>)
    ensures forall v :: v in Present(xs) <==> Some(v) in xs
    ensures |Present(xs)| == 0 <==> forall x :: x in xs ==> x.None?
  {
    if xs != [] {
      PresentMembers(xs[1..]);
      assert forall x :: x in xs <==> x == xs[0] || x in xs[1..];
    }
  }

  function Sum(xs: seq<real>): real {
    if xs == [] then 0.0 else xs[0] + Sum(xs[1..])
  }

  function Mean(xs: seq<real>): real
    requires |xs| > 0
  {
    Sum(xs) / (|xs| as real)
  }

  /** pandas `Series.mean()`: the mean of the present values, missing when there are none. */
  function MeanOf(xs: seq<Option<real>>): (r: Option<real>)
    ensures r.None? <==> |Present(xs)| == 0
    ensures r.Some? ==> r.value == Mean(Present(xs))
  {
    var p := Present(xs);
    if |p| == 0 then None else Some(Mean(p))
  }

  function MinOf(xs: seq<real>): (m: real)
    requires |xs| > 0
    ensures m in xs
    ensures forall x :: x in xs ==> m <= x
  {
    if |xs| == 1 then xs[0]
    else
      var rest := MinOf(xs[1..]);
      assert forall x :: x in xs ==> x == xs[0] || x in xs[1..];
      if xs[0] <= rest then xs[0] else rest
  }

  function MaxOf(xs: seq<real>): (m: real)
    requires |xs| > 0
    ensures m in xs
    ensures forall x :: x in xs ==> x <= m
  {
    if |xs| == 1 then xs[0]
    else
      var rest := MaxOf(xs[1..]);
      assert forall x :: x in xs ==> x == xs[0] || x in xs[1..];
      if xs[0] >= rest then xs[0] else rest
  }

  /** `(xs > t).sum()`: how many values are strictly above `t`. */
  function CountAbove(xs: seq<real>, t: real): (c: nat)
    ensures c <= |xs|
  {
    if xs == [] then 0 else (if xs[0] > t then 1 else 0) + CountAbove(xs[1..], t)
  }

  /** How many values are at most `t`. */
  function CountAtMost(xs: seq<real>, t: real): (c: nat)
    ensures c <= |xs|
  {
    if xs == [] then 0 else (if xs[0] <= t then 1 else 0) + CountAtMost(xs[1..], t)
  }

  /** How many values are at least `t`. */
  function CountAtLeast(xs: seq<real>, t: real): (c: nat)
    ensures c <= |xs|
  {
    if xs == [] then 0 else (if xs[0] >= t then 1 else 0) + CountAtLeast(xs[1..], t)
  }

  /** Python's `int(x)` on a float: rounds toward zero. */
  function Trunc(x: real): (i: int)
    ensures x >= 0.0 ==> i as real <= x < i as real + 1.0
    ensures x < 0.0 ==> i as real - 1.0 < x <= i as real
  {
    if x >= 0.0 then x.Floor else -((-x).Floor)
  }

  lemma {:induction false} SumAtLeast(xs: seq<real>, b: real)
    requires forall x :: x in xs ==> b <= x
    ensures (|xs| as real) * b <= Sum(xs)
  {
    if xs != [] {
      assert forall x :: x in xs[1..] ==> x in xs;
      SumAtLeast(xs[1..], b);
      assert xs[0] in xs;
      assert Sum(xs) == xs[0] + Sum(xs[1..]);
      assert (|xs| as real) * b == (|xs[1..]| as real) * b + b;
    }
  }

  lemma {:induction false} SumAtMost(xs: seq<real>, b: real)
    requires forall x :: x in xs ==> x <= b
    ensures Sum(xs) <= (|xs| as real) * b
  {
    if xs != [] {
      assert forall x :: x in xs[1..] ==> x in xs;
      SumAtMost(xs[1..], b);
      assert xs[0] in xs;
      assert Sum(xs) == xs[0] + Sum(xs[1..]);
      assert (|xs| as real) * b == (|xs[1..]| as real) * b + b;
    }
  }

  /** A mean of values within `[lo, hi]` lies within `[lo, hi]`. */
  lemma MeanWithin(xs: seq<real>, lo: real, hi: real)
    requires |xs| > 0
    requires forall x :: x in xs ==> lo <= x <= hi
    ensures lo <= Mean(xs) <= hi
  {
    SumAtLeast(xs, lo);
    SumAtMost(xs, hi);
    DivideBounds(Sum(xs), |xs| as real, lo, hi);
  }

  /** The mean lies between the smallest and the largest value. */
  lemma MeanBetween(xs: seq<real>)
    requires |xs| > 0
    ensures MinOf(xs) <= Mean(xs) <= MaxOf(xs)
  {
    MeanWithin(xs, MinOf(xs), MaxOf(xs));
  }

  lemma DivideBounds(s: real, n: real, lo: real, hi: real)
    requires n > 0.0
    requires n * lo <= s <= n * hi
    ensures lo <= s / n <= hi
  {
    var q := s / n;
    assert s == n * q;
    assert n * (q - lo) >= 0.0;
    assert n * (hi - q) >= 0.0;
  }

  lemma {:induction false} CountAboveMissesOne(xs: seq<real>, t: real, i: nat)
    requires i < |xs| && xs[i] <= t
    ensures CountAbove(xs, t) < |xs|
  {
    if i > 0 {
      CountAboveMissesOne(xs[1..], t, i - 1);
    }
  }

  /** Not every value is strictly above the mean: the smallest is not. */
  lemma CountAboveMeanBelowLength(xs: seq<real>)
    requires |xs| > 0
    ensures CountAbove(xs, Mean(xs)) < |xs|
  {
    MeanBetween(xs);
    var i :| 0 <= i < |xs| && xs[i] == MinOf(xs);
    CountAboveMissesOne(xs, Mean(xs), i);
  }
}
