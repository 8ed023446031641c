/**
 * Pricing (`src/pricing.py`): the fair price per m² of the recent set as
 * numpy computes it (the median, and the 25th and 75th percentiles by
 * linear interpolation between the sorted values), the fair price band
 * around it, and the cheap / fair / expensive verdict on the asking price.
 */
module Pricing {

  import opened Wrappers
  import opened Table
  import opened Series

  // ---------------------------------------------------------------------
  // Order statistics
  // ---------------------------------------------------------------------

  predicate IsAscending(v: seq<real>) {
    forall i, j :: 0 <= i < j < |v| ==> v[i] <= v[j]
  }

  /** Puts `x` in front of the first value not smaller than it. */
  function InsertAscending(x: real, s: seq<real>): (r: seq<real>)
    ensures |r| == |s| + 1
  {
    if s == [] then [x]
    else if x <= s[0] then [x] + s
    else [s[0]] + InsertAscending(x, s[1..])
  }

  /** `np.sort`: the values in ascending order (an insertion sort). */
  function Ascending(xs: seq<real>): (r: seq<real>)
    ensures |r| == |xs|
  {
    if xs == [] then [] else InsertAscending(xs[0], Ascending(xs[1..]))
  }

  lemma {:induction false} InsertAscendingPermutes(x: real, s: seq<real>)
    ensures multiset(InsertAscending(x, s)) == multiset(s) + multiset{x}
  {
    if s != [] && x > s[0] {
      InsertAscendingPermutes(x, s[1..]);
      assert s == [s[0]] + s[1..];
    }
  }

  /** Sorting only reorders the values. */
  lemma {:induction false} AscendingPermutes(xs: seq<real>)
    ensures multiset(Ascending(xs)) == multiset(xs)
  {
    if xs != [] {
      AscendingPermutes(xs[1..]);
      InsertAscendingPermutes(xs[0], Ascending(xs[1..]));
      assert xs == [xs[0]] + xs[1..];
    }
  }

  lemma {:induction false} InsertAscendingSorted(x: real, s: seq<real>)
    requires IsAscending(s)
    ensures IsAscending(InsertAscending(x, s))
  {
    if s != [] && x > s[0] {
      var t := s[1..];
      InsertAscendingSorted(x, t);
      var r := InsertAscending(x, t);
      InsertAscendingPermutes(x, t);
      forall k | 0 <= k < |r|
        ensures s[0] <= r[k]
      {
        assert r[k] in multiset(r);
        if r[k] != x {
          assert r[k] in multiset(t);
          assert r[k] in t;
        }
      }
    }
  }

  lemma {:induction false} AscendingSorted(xs: seq<real>)
    ensures IsAscending(Ascending(xs))
  {
    if xs != [] {
      AscendingSorted(xs[1..]);
      InsertAscendingSorted(xs[0], Ascending(xs[1..]));
    }
  }

  /** Inserting a value adds one to the count at or below `t` exactly when the value is. */
  lemma {:induction false} InsertAscendingCounts(x: real, s: seq<real>, t: real)
    ensures CountAtMost(InsertAscending(x, s), t) == CountAtMost(s, t) + (if x <= t then 1 else 0)
    ensures CountAtLeast(InsertAscending(x, s), t) == CountAtLeast(s, t) + (if x >= t then 1 else 0)
  {
    if s != [] && x > s[0] {
      InsertAscendingCounts(x, s[1..], t);
      assert ([s[0]] + InsertAscending(x, s[1..]))[1..] == InsertAscending(x, s[1..]);
    } else if s != [] {
      assert ([x] + s)[1..] == s;
    }
  }

  /** Sorting keeps the counts at or below and at or above any threshold. */
  lemma {:induction false} AscendingCounts(xs: seq<real>, t: real)
    ensures CountAtMost(Ascending(xs), t) == CountAtMost(xs, t)
    ensures CountAtLeast(Ascending(xs), t) == CountAtLeast(xs, t)
  {
    if xs != [] {
      AscendingCounts(xs[1..], t);
      InsertAscendingCounts(xs[0], Ascending(xs[1..]), t);
    }
  }

  /**
   * `np.percentile(v, 25·k)` of a sorted sample, numpy's default linear
   * interpolation: the value at position `(|v| - 1)·k/4`, read between the
   * two neighbouring values. Only the quartiles are used, so the position
   * is kept as an exact count of quarters.
   */
  function Quartile(v: seq<real>, k: nat): real
    requires |v| > 0 && k <= 4
  {
    var t := (|v| - 1) * k;
    QuarterBounds(|v| - 1, k);
    Interpolate(v, t / 4, (t % 4) as real / 4.0)
  }

  /** The value at fraction `f` of the way from `v[lo]` to the next value, or `v[lo]` when it is the last. */
  function Interpolate(v: seq<real>, lo: int, f: real): real
    requires 0 <= lo < |v|
  {
    if lo + 1 < |v| then v[lo] + f * (v[lo + 1] - v[lo]) else v[lo]
  }

  lemma QuarterBounds(n: nat, k: nat)
    requires k <= 4
    ensures 0 <= n * k <= 4 * n
    ensures 0 <= (n * k) / 4 <= n
  {
  }

  /** `np.median` of a sorted sample: the middle value, or the mean of the two middle values. */
  function Median(v: seq<real>): real
    requires |v| > 0
  {
    var m := |v| / 2;
    if |v| % 2 == 1 then v[m] else (v[m - 1] + v[m]) / 2.0
  }

  /** A step of height `d >= 0` scaled by a fraction in `[0, 1)` stays within `[0, d]`. */
  lemma FractionOfStep(f: real, d: real)
    requires 0.0 <= f < 1.0 && d >= 0.0
    ensures 0.0 <= f * d <= d
  {
  }

  /** An interpolated value lies between the two sample values it interpolates. */
  lemma InterpolateBetween(v: seq<real>, lo: int, f: real)
    requires 0 <= lo < |v| && 0.0 <= f < 1.0 && IsAscending(v)
    ensures v[lo] <= Interpolate(v, lo, f)
    ensures lo + 1 < |v| ==> Interpolate(v, lo, f) <= v[lo + 1]
  {
    if lo + 1 < |v| {
      var d := v[lo + 1] - v[lo];
      assert d >= 0.0;
      FractionOfStep(f, d);
      assert Interpolate(v, lo, f) == v[lo] + f * d;
    }
  }

  lemma ScaleMonotone(a: real, b: real, d: real)
    requires a <= b && d >= 0.0
    ensures a * d <= b * d
  {
    assert (b - a) * d >= 0.0;
  }

  /** From a fixed index, a larger fraction interpolates to a value no smaller. */
  lemma InterpolateMonotone(v: seq<real>, lo: int, f: real, g: real)
    requires 0 <= lo < |v| && 0.0 <= f <= g && IsAscending(v)
    ensures Interpolate(v, lo, f) <= Interpolate(v, lo, g)
  {
    if lo + 1 < |v| {
      ScaleMonotone(f, g, v[lo + 1] - v[lo]);
    }
  }

  /** Interpolating at a later position, counted in quarters, gives a value no smaller. */
  lemma InterpolateAtMonotone(v: seq<real>, s: int, t: int)
    requires IsAscending(v) && 0 <= s <= t <= 4 * (|v| - 1)
    ensures Interpolate(v, s / 4, (s % 4) as real / 4.0) <= Interpolate(v, t / 4, (t % 4) as real / 4.0)
  {
    var ls, lt := s / 4, t / 4;
    var fs, ft := (s % 4) as real / 4.0, (t % 4) as real / 4.0;
    InterpolateBetween(v, ls, fs);
    InterpolateBetween(v, lt, ft);
    if ls == lt {
      InterpolateMonotone(v, ls, fs, ft);
    } else {
      assert v[ls + 1] <= v[lt];
    }
  }

  /** A higher quartile is never below a lower one. */
  lemma QuartileMonotone(v: seq<real>, j: nat, k: nat)
    requires |v| > 0 && j <= k <= 4 && IsAscending(v)
    ensures Quartile(v, j) <= Quartile(v, k)
  {
    var n := |v| - 1;
    QuarterBounds(n, j);
    QuarterBounds(n, k);
    assert n * j <= n * k;
    InterpolateAtMonotone(v, n * j, n * k);
  }

  /** Every quartile lies between the smallest and the largest value. */
  lemma QuartileWithin(v: seq<real>, k: nat)
    requires |v| > 0 && k <= 4 && IsAscending(v)
    ensures v[0] <= Quartile(v, k) <= v[|v| - 1]
  {
    var n := |v| - 1;
    QuarterBounds(n, k);
    InterpolateAtMonotone(v, 0, n * k);
    InterpolateAtMonotone(v, n * k, 4 * n);
    assert (4 * n) / 4 == n && (4 * n) % 4 == 0;
  }

  /** The generic reading of the median: np.median is the 50th percentile. */
  lemma MedianIsMiddleQuartile(v: seq<real>)
    requires |v| > 0
    ensures Median(v) == Quartile(v, 2)
  {
    var n := |v|;
    var t := (n - 1) * 2;
    var m := n / 2;
    if n % 2 == 1 {
      assert t / 4 == m && t % 4 == 0;
    } else {
      assert t / 4 == m - 1 && t % 4 == 2;
    }
  }

  /** At least `k + 1` values lie at or below `t` when the first `k + 1` of them do. */
  lemma {:induction false} CountAtMostPrefix(v: seq<real>, k: nat, t: real)
    requires k < |v|
    requires forall i :: 0 <= i <= k ==> v[i] <= t
    ensures CountAtMost(v, t) >= k + 1
  {
    if k > 0 {
      CountAtMostPrefix(v[1..], k - 1, t);
    }
  }

  /** At least `|v| - k` values lie at or above `t` when every value from index `k` on does. */
  lemma {:induction false} CountAtLeastSuffix(v: seq<real>, k: nat, t: real)
    requires k < |v|
    requires forall i :: k <= i < |v| ==> v[i] >= t
    ensures CountAtLeast(v, t) >= |v| - k
  {
    if k > 0 {
      CountAtLeastSuffix(v[1..], k - 1, t);
    } else if |v| > 1 {
      CountAtLeastSuffix(v[1..], 0, t);
    }
  }

  /**
   * The median of a sample splits it in halves: at least half of the
   * values lie at or below it and at least half at or above it.
   */
  lemma MedianSplitsSample(xs: seq<real>)
    requires |xs| > 0
    ensures 2 * CountAtMost(xs, Median(Ascending(xs))) >= |xs|
    ensures 2 * CountAtLeast(xs, Median(Ascending(xs))) >= |xs|
  {
    var v := Ascending(xs);
    AscendingSorted(xs);
    AscendingCounts(xs, Median(v));
    MedianSplitsSorted(v);
  }

  lemma MedianSplitsSorted(v: seq<real>)
    requires |v| > 0 && IsAscending(v)
    ensures 2 * CountAtMost(v, Median(v)) >= |v|
    ensures 2 * CountAtLeast(v, Median(v)) >= |v|
  {
    var med := Median(v);
    var m := |v| / 2;
    if |v| % 2 == 1 {
      assert med == v[m];
      CountAtMostPrefix(v, m, med);
      CountAtLeastSuffix(v, m, med);
    } else {
      assert v[m - 1] <= med <= v[m];
      CountAtMostPrefix(v, m - 1, med);
      CountAtLeastSuffix(v, m, med);
    }
  }

  // ---------------------------------------------------------------------
  // summarize_recent_fair_ppsqm
  // ---------------------------------------------------------------------

  /** The result of `summarize_recent_fair_ppsqm`; `ok` is `FairPrice?`. */
  datatype FairSummary =
    | NoFairPrice(message: string)
    | FairPrice(fairPpsqm: real, q1: real, q3: real, iqr: real, n: nat)
  {
    predicate Ok() { FairPrice? }

    /** The `fair_ppsqm` field: null on the failure paths. */
    function FairPpsqmField(): Option<real> {
      if FairPrice? then Some(fairPpsqm) else None
    }
  }

  const NoRecentComps := "No recent comps."
  const NoValidPpsqm := "No valid ppsqm in comps."

  /** The price-per-m² values of the recent set, `dropna()`'d. */
  function RecentPpsqms(recent: seq<Sale>): seq<real> {
    Present(Ppsqms(recent))
  }

  /**
   * `summarize_recent_fair_ppsqm`: fails on an empty set and on a set with
   * no price per m²; otherwise the median and the quartiles of the present
   * values, their spread, and how many there are.
   */
  function SummarizeRecentFairPpsqm(recent: seq<Sale>): (r: FairSummary)
    ensures |recent| == 0 ==> r == NoFairPrice(NoRecentComps)
    ensures |recent| > 0 && |RecentPpsqms(recent)| == 0 ==> r == NoFairPrice(NoValidPpsqm)
    ensures r.Ok() <==> |RecentPpsqms(recent)| > 0
    ensures r.Ok() ==> && r.n == |RecentPpsqms(recent)|
                       && r.iqr == r.q3 - r.q1
                       && r.q1 <= r.fairPpsqm <= r.q3
                       && r.iqr >= 0.0
  {
    if |recent| == 0 then NoFairPrice(NoRecentComps)
    else
      var s := RecentPpsqms(recent);
      if |s| == 0 then NoFairPrice(NoValidPpsqm)
      else
        var v := Ascending(s);
        var fair := Median(v);
        var q1 := Quartile(v, 1);
        var q3 := Quartile(v, 3);
        AscendingSorted(s);
        MedianIsMiddleQuartile(v);
        QuartileMonotone(v, 1, 2);
        QuartileMonotone(v, 2, 3);
        FairPrice(fair, q1, q3, q3 - q1, |s|)
  }

  /** When the summary is ok, its fair price is the median of the present values, and the quartiles are their 25th and 75th percentiles. */
  lemma SummaryStatistics(recent: seq<Sale>)
    requires SummarizeRecentFairPpsqm(recent).Ok()
    ensures var r := SummarizeRecentFairPpsqm(recent);
            var s := RecentPpsqms(recent);
            && |s| > 0
            && 2 * CountAtMost(s, r.fairPpsqm) >= |s|
            && 2 * CountAtLeast(s, r.fairPpsqm) >= |s|
            && r.q1 == Quartile(Ascending(s), 1)
            && r.q3 == Quartile(Ascending(s), 3)
  {
    MedianSplitsSample(RecentPpsqms(recent));
  }

  /**
   * `fair_ppsqm` is null exactly when no row of the recent set has a price
   * per m² (an empty set included); otherwise it is the median of the
   * present values.
   */
  lemma SummaryFairField(recent: seq<Sale>)
    ensures var f := SummarizeRecentFairPpsqm(recent).FairPpsqmField();
            && (f.None? <==> forall x :: x in recent ==> x.ppsqm.None?)
            && (f.Some? ==> f.value == Median(Ascending(RecentPpsqms(recent))))
  {
    PpsqmsAllMissing(recent);
  }

  /** There is no present price per m² exactly when every row's is missing. */
  lemma {:induction false} PpsqmsAllMissing(s: seq<Sale>)
    ensures |Present(Ppsqms(s))| == 0 <==> forall x :: x in s ==> x.ppsqm.None?
  {
    if s != [] {
      PpsqmsAllMissing(s[1..]);
      assert forall x :: x in s <==> x == s[0] || x in s[1..];
    }
  }

  /** The price-per-m² values the summary uses are those of the rows. */
  lemma {:induction false} PpsqmsOfRows(s: seq<Sale>, i: nat)
    requires i < |Present(Ppsqms(s))|
    ensures exists x :: x in s && x.ppsqm == Some(Present(Ppsqms(s))[i])
  {
    if s[0].ppsqm.Some? && i == 0 {
      assert s[0] in s;
    } else {
      var j := if s[0].ppsqm.Some? then i - 1 else i;
      assert Present(Ppsqms(s))[i] == Present(Ppsqms(s[1..]))[j];
      PpsqmsOfRows(s[1..], j);
      var x :| x in s[1..] && x.ppsqm == Some(Present(Ppsqms(s[1..]))[j]);
      assert x in s;
    }
  }

  /** The failure messages: no rows at all, or rows whose every price per m² is missing. */
  lemma SummaryFailures(recent: seq<Sale>)
    ensures SummarizeRecentFairPpsqm(recent) == NoFairPrice(NoRecentComps) <==> |recent| == 0
    ensures SummarizeRecentFairPpsqm(recent) == NoFairPrice(NoValidPpsqm) <==>
              |recent| > 0 && forall x :: x in recent ==> x.ppsqm.None?
  {
    PpsqmsAllMissing(recent);
  }

  /** A set of rows with positive prices per m² has a positive fair price. */
  lemma SummaryPositive(recent: seq<Sale>)
    requires SummarizeRecentFairPpsqm(recent).Ok()
    requires forall x :: x in recent && x.ppsqm.Some? ==> x.ppsqm.value > 0.0
    ensures SummarizeRecentFairPpsqm(recent).fairPpsqm > 0.0
  {
    var s := RecentPpsqms(recent);
    var v := Ascending(s);
    AscendingSorted(s);
    AscendingPermutes(s);
    MedianIsMiddleQuartile(v);
    forall i | 0 <= i < |v|
      ensures v[i] > 0.0
    {
      assert v[i] in multiset(v);
      assert v[i] in s;
      var j :| 0 <= j < |s| && s[j] == v[i];
      PpsqmsOfRows(recent, j);
    }
    assert v[0] > 0.0;
    QuartileWithin(v, 2);
  }

  // ---------------------------------------------------------------------
  // The fair band and the verdict
  // ---------------------------------------------------------------------

  /** `price_range_from_fair_ppsqm`: the fair price and the margin on both sides of it. */
  function PriceRangeFromFairPpsqm(fairPpsqm: real, size: real, margin: real): (range: (real, real))
    ensures range.0 + range.1 == 2.0 * (fairPpsqm * size)
    ensures range.1 - range.0 == 2.0 * margin * (fairPpsqm * size)
  {
    var base := fairPpsqm * size;
    (base * (1.0 - margin), base * (1.0 + margin))
  }

  /** With a non-negative fair price and margin the band is ordered around the fair price. */
  lemma PriceRangeOrdered(fairPpsqm: real, size: real, margin: real)
    requires fairPpsqm * size >= 0.0 && margin >= 0.0
    ensures var range := PriceRangeFromFairPpsqm(fairPpsqm, size, margin);
            range.0 <= fairPpsqm * size <= range.1
  {
    var base := fairPpsqm * size;
    assert base * margin >= 0.0;
  }

  datatype Label = Cheap | Fair | Expensive

  /** What `decision_vs_asking` returns. */
  datatype Decision = Decision(verdict: Label, diffPct: real, fairRange: (real, real))

  /**
   * `decision_vs_asking`: cheap below the band, expensive above it, fair
   * within it with both ends included, and the percentage by which the
   * asking price differs from the fair price. Python raises on a zero fair
   * price (a float division by zero), so the caller must avoid one.
   */
  function DecisionVsAsking(fairPpsqm: real, size: real, asking: real, margin: real): (d: Decision)
    requires fairPpsqm * size != 0.0
    ensures d.fairRange == PriceRangeFromFairPpsqm(fairPpsqm, size, margin)
    ensures d.verdict == Cheap <==> asking < d.fairRange.0
    ensures d.verdict == Expensive <==> !(asking < d.fairRange.0) && asking > d.fairRange.1
    ensures d.verdict == Fair <==> d.fairRange.0 <= asking && !(asking > d.fairRange.1)
    ensures asking == fairPpsqm * size * (1.0 + d.diffPct / 100.0)
  {
    var fairPrice := fairPpsqm * size;
    var range := PriceRangeFromFairPpsqm(fairPpsqm, size, margin);
    var low := range.0;
    var high := range.1;
    var verdict := if asking < low then Cheap else if asking > high then Expensive else Fair;
    var diffPct := (asking - fairPrice) / fairPrice * 100.0;
    RecoverAsking(asking, fairPrice);
    Decision(verdict, diffPct, range)
  }

  /** The difference in percent determines the asking price back. */
  lemma RecoverAsking(asking: real, fairPrice: real)
    requires fairPrice != 0.0
    ensures asking == fairPrice * (1.0 + ((asking - fairPrice) / fairPrice * 100.0) / 100.0)
  {
    var r := (asking - fairPrice) / fairPrice;
    assert r * fairPrice == asking - fairPrice;
    assert (r * 100.0) / 100.0 == r;
  }

  /**
   * With a positive fair price and a non-negative margin the band is
   * ordered, so the verdict reads simply: cheap exactly below the band,
   * expensive exactly above it, fair exactly inside it, ends included.
   */
  lemma DecisionBands(fairPpsqm: real, size: real, asking: real, margin: real)
    requires fairPpsqm * size > 0.0 && margin >= 0.0
    ensures var d := DecisionVsAsking(fairPpsqm, size, asking, margin);
            var (low, high) := PriceRangeFromFairPpsqm(fairPpsqm, size, margin);
            && (d.verdict == Cheap <==> asking < low)
            && (d.verdict == Expensive <==> asking > high)
            && (d.verdict == Fair <==> low <= asking <= high)
  {
    PriceRangeOrdered(fairPpsqm, size, margin);
  }

  /**
   * With a positive fair price and a non-negative margin, the difference
   * in percent falls below `-100·margin` exactly for a cheap price, above
   * `100·margin` exactly for an expensive one, and within those exactly
   * for a fair one.
   */
  lemma DiffBands(fairPpsqm: real, size: real, asking: real, margin: real)
    requires fairPpsqm * size > 0.0 && margin >= 0.0
    ensures var d := DecisionVsAsking(fairPpsqm, size, asking, margin);
            && (d.verdict == Cheap <==> d.diffPct < -100.0 * margin)
            && (d.verdict == Expensive <==> d.diffPct > 100.0 * margin)
            && (d.verdict == Fair <==> -100.0 * margin <= d.diffPct <= 100.0 * margin)
  {
    var d := DecisionVsAsking(fairPpsqm, size, asking, margin);
    var f := fairPpsqm * size;
    DecisionBands(fairPpsqm, size, asking, margin);
    assert PriceRangeFromFairPpsqm(fairPpsqm, size, margin) == (f * (1.0 - margin), f * (1.0 + margin));
    PercentBands(f, asking, d.diffPct, margin);
  }

  /** For a positive fair price `f` and `a = f·(1 + x/100)`, `a` leaves the band exactly when `x` leaves `[-100·m, 100·m]`. */
  lemma PercentBands(f: real, a: real, x: real, m: real)
    requires f > 0.0 && a == f * (1.0 + x / 100.0)
    ensures a < f * (1.0 - m) <==> x < -100.0 * m
    ensures a > f * (1.0 + m) <==> x > 100.0 * m
  {
    ScaleStrict(f, 1.0 + x / 100.0, 1.0 - m);
    ScaleStrict(f, 1.0 + m, 1.0 + x / 100.0);
  }

  /** Scaling by a positive factor keeps a strict order. */
  lemma ScaleStrict(f: real, u: real, w: real)
    requires f > 0.0
    ensures f * u < f * w <==> u < w
  {
    if u < w {
      assert f * (w - u) > 0.0;
    } else {
      assert f * (u - w) >= 0.0;
    }
  }

  /**
   * The sample listing: a fair price of 50,000 per m² on 70 m² with a 4%
   * margin gives the band [3,360,000, 3,640,000]; an asking price of
   * 3,450,000 is fair and one of 3,700,000 is expensive.
   */
  lemma WorkedExample()
    ensures PriceRangeFromFairPpsqm(50000.0, 70.0, 0.04) == (3360000.0, 3640000.0)
    ensures DecisionVsAsking(50000.0, 70.0, 3450000.0, 0.04).verdict == Fair
    ensures DecisionVsAsking(50000.0, 70.0, 3700000.0, 0.04).verdict == Expensive
    ensures DecisionVsAsking(50000.0, 70.0, 3450000.0, 0.04).fairRange == (3360000.0, 3640000.0)
    ensures DecisionVsAsking(50000.0, 70.0, 3450000.0, 0.04).diffPct == -10.0 / 7.0
    ensures DecisionVsAsking(50000.0, 70.0, 3700000.0, 0.04).diffPct == 40.0 / 7.0
  {
  }
}
