/**
 * The long-term trend (`src/growth.py`): the guards that decide whether a
 * log-linear fit of price per m² over time is attempted, and the shape of
 * the result. The least-squares slope of log(price per m²) over the years
 * (logarithm included) and the exponential are passed in as functions.
 */
module Growth {

  import opened Wrappers
  import opened Config
  import opened Time
  import opened Table
  import opened Series

  /** The dict `estimate_annual_appreciation` returns. */
  datatype Trend = Trend(ok: bool, annualPct: Option<real>, nPoints: nat, message: string)

  function DigitChar(d: nat): char
    requires d < 10
  {
    "0123456789"[d]
  }

  /** `str(n)` of a non-negative integer. */
  function NatToString(n: nat): string
    decreases n
  {
    if n < 10 then [DigitChar(n)] else NatToString(n / 10) + [DigitChar(n % 10)]
  }

  function NotEnoughMessage(min: nat): string {
    "Not enough long-term comps (need >= " + NatToString(min) + ")."
  }

  const InvalidPpsqm := "Invalid ppsqm values."
  const TooNarrow := "Time span too narrow."

  /** The rows the fit uses: `dropna(subset=['deal_date', 'price_per_sqm'])`. */
  function FitRows(lt: seq<Sale>): seq<Sale> {
    Where(Where(lt, Dated), PpsqmPresent)
  }

  /** `price_per_sqm.le(0).any()`. */
  predicate AnyNonPositive(rows: seq<Sale>) {
    exists x :: x in rows && x.ppsqm.Some? && x.ppsqm.value <= 0.0
  }

  /** `(d - t0).days / 365.25`: whole days between two instants, in years of 365.25 days. */
  function YearOffset(d: int, t0: int): real {
    WholeDays(d - t0) as real / 365.25
  }

  lemma YearOffsetMonotone(a: int, b: int, t0: int)
    requires a <= b
    ensures YearOffset(a, t0) <= YearOffset(b, t0)
  {
    WholeDaysMonotone(a - t0, b - t0);
  }

  /** `(deal_date - t0).dt.days / 365.25` for each dated row. */
  function YearsSince(rows: seq<Sale>, t0: int): (ty: seq<real>)
    ensures |ty| <= |rows|
  {
    if rows == [] then []
    else
      (if rows[0].dealDate.Some? then [YearOffset(rows[0].dealDate.value, t0)] else [])
      + YearsSince(rows[1..], t0)
  }

  /** The `(t_years, price_per_sqm)` points the regression is fed. */
  function Points(rows: seq<Sale>, t0: int): seq<(real, real)> {
    if rows == [] then []
    else
      (if rows[0].dealDate.Some? && rows[0].ppsqm.Some?
       then [(YearOffset(rows[0].dealDate.value, t0), rows[0].ppsqm.value)] else [])
      + Points(rows[1..], t0)
  }

  /**
   * `estimate_annual_appreciation`: too few rows, no usable row or a
   * non-positive price per m², or less than half a year between the first
   * and the last deal each give a failure with its message; otherwise the
   * annual rate `(e^slope - 1)·100` of the fitted slope. The reported
   * `n_points` is always the number of rows handed in.
   */
  function EstimateAnnualAppreciation(cfg: Settings, lt: seq<Sale>, slope: seq<(real, real)> -> real, exp: real -> real): (g: Trend)
    ensures g.nPoints == |lt|
    ensures g.ok <==> g.annualPct.Some?
    ensures g.ok <==> g.message == "ok"
  {
    var n := |lt|;
    if n < cfg.longtermMin then Trend(false, None, n, NotEnoughMessage(cfg.longtermMin))
    else
      var df := FitRows(lt);
      if |df| == 0 || AnyNonPositive(df) then Trend(false, None, n, InvalidPpsqm)
      else
        var t0 := EarliestDate(df).GetOr(0);
        var ty := YearsSince(df, t0);
        if |ty| == 0 || MaxOf(ty) - MinOf(ty) < 0.5 then Trend(false, None, n, TooNarrow)
        else
          var annualPct := (exp(slope(Points(df, t0))) - 1.0) * 100.0;
          Trend(true, Some(annualPct), n, "ok")
  }

  /** The spread of the fit rows in whole days, from the earliest to the latest deal. */
  function SpanDays(df: seq<Sale>): int {
    match (EarliestDate(df), LatestDate(df))
    case (Some(a), Some(b)) => WholeDays(b - a)
    case _ => 0
  }

  /** The fit is attempted exactly when each of the three guards passes. */
  predicate GuardsPass(cfg: Settings, lt: seq<Sale>) {
    && |lt| >= cfg.longtermMin
    && |FitRows(lt)| > 0
    && !AnyNonPositive(FitRows(lt))
    && SpanDays(FitRows(lt)) >= 183
  }

  /** "need >= 3" for the configured minimum. */
  lemma NotEnoughMessageDefault()
    ensures NotEnoughMessage(Defaults.longtermMin) == "Not enough long-term comps (need >= 3)."
  {
  }

  /** The rows kept for the fit are the rows handed in that have both a date and a price per m². */
  lemma FitRowsExactly(lt: seq<Sale>, x: Sale)
    ensures x in FitRows(lt) <==> x in lt && x.dealDate.Some? && x.ppsqm.Some?
  {
    WhereMember(lt, Dated, x);
    WhereMember(Where(lt, Dated), PpsqmPresent, x);
  }

  lemma FitRowsDated(lt: seq<Sale>)
    ensures forall x :: x in FitRows(lt) ==> x.dealDate.Some? && x.ppsqm.Some?
  {
    forall x | x in FitRows(lt)
      ensures x.dealDate.Some? && x.ppsqm.Some?
    {
      FitRowsExactly(lt, x);
    }
  }

  /** The year offsets are those of the dated rows. */
  lemma {:induction false} YearsSinceMembers(rows: seq<Sale>, t0: int)
    ensures forall v :: v in YearsSince(rows, t0) <==>
              exists x :: x in rows && x.dealDate.Some? && v == YearOffset(x.dealDate.value, t0)
  {
    if rows != [] {
      YearsSinceMembers(rows[1..], t0);
      assert forall x :: x in rows <==> x == rows[0] || x in rows[1..];
    }
  }

  /**
   * Measured from the earliest deal, the largest year offset is that of
   * the latest deal and the smallest is zero, so the spread of the offsets
   * is the span in whole days over 365.25.
   */
  lemma SpreadIsSpan(df: seq<Sale>, t0: int, t1: int)
    requires EarliestDate(df) == Some(t0) && LatestDate(df) == Some(t1)
    ensures |YearsSince(df, t0)| > 0
    ensures MaxOf(YearsSince(df, t0)) - MinOf(YearsSince(df, t0)) == YearOffset(t1, t0) - YearOffset(t0, t0)
  {
    var ty := YearsSince(df, t0);
    EarliestDateIs(df);
    LatestDateIs(df);
    YearsSinceMembers(df, t0);
    var lo := YearOffset(t0, t0);
    var hi := YearOffset(t1, t0);
    var first :| first in df && first.dealDate == Some(t0);
    var last :| last in df && last.dealDate == Some(t1);
    assert lo in ty;
    assert hi in ty;
    forall v | v in ty
      ensures lo <= v <= hi
    {
      var x :| x in df && x.dealDate.Some? && v == YearOffset(x.dealDate.value, t0);
      YearOffsetMonotone(t0, x.dealDate.value, t0);
      YearOffsetMonotone(x.dealDate.value, t1, t0);
    }
    assert MinOf(ty) == lo;
    assert MaxOf(ty) == hi;
  }

  /** Half a year of 365.25 days, counted in whole days: the spread is under 0.5 exactly when the span is under 183 days. */
  lemma HalfYear(t1: int, t0: int)
    ensures YearOffset(t1, t0) - YearOffset(t0, t0) < 0.5 <==> WholeDays(t1 - t0) < 183
  {
    assert WholeDays(t0 - t0) == 0;
  }

  /**
   * The guards in order: too few rows gives the "need >= LONGTERM_MIN"
   * failure (counted before missing cells are dropped); otherwise no usable
   * row or a non-positive price per m² gives "Invalid ppsqm values.";
   * otherwise a span under 183 whole days (half a year) gives "Time span
   * too narrow."; and the fit is attempted exactly when all three pass.
   */
  lemma Guards(cfg: Settings, lt: seq<Sale>, slope: seq<(real, real)> -> real, exp: real -> real)
    ensures var g := EstimateAnnualAppreciation(cfg, lt, slope, exp);
            var df := FitRows(lt);
            && (|lt| < cfg.longtermMin ==> g == Trend(false, None, |lt|, NotEnoughMessage(cfg.longtermMin)))
            && (|lt| >= cfg.longtermMin && (|df| == 0 || AnyNonPositive(df)) ==> g == Trend(false, None, |lt|, InvalidPpsqm))
            && (|lt| >= cfg.longtermMin && |df| > 0 && !AnyNonPositive(df) && SpanDays(df) < 183 ==>
                  g == Trend(false, None, |lt|, TooNarrow))
            && (g.ok <==> GuardsPass(cfg, lt))
  {
    var df := FitRows(lt);
    if |lt| >= cfg.longtermMin && |df| > 0 && !AnyNonPositive(df) {
      FitRowsDated(lt);
      EarliestDateIs(df);
      LatestDateIs(df);
      assert df[0] in df;
      var t0 := EarliestDate(df).value;
      var t1 := LatestDate(df).value;
      SpreadIsSpan(df, t0, t1);
      HalfYear(t1, t0);
    }
  }

  /**
   * When the fit is attempted, the rate is `(e^slope - 1)·100` of the
   * slope over the points of the usable rows, measured from the earliest.
   */
  lemma TrendRate(cfg: Settings, lt: seq<Sale>, slope: seq<(real, real)> -> real, exp: real -> real)
    requires EstimateAnnualAppreciation(cfg, lt, slope, exp).ok
    ensures var df := FitRows(lt);
            && EarliestDate(df).Some?
            && EstimateAnnualAppreciation(cfg, lt, slope, exp).annualPct
                 == Some((exp(slope(Points(df, EarliestDate(df).value))) - 1.0) * 100.0)
  {
    var df := FitRows(lt);
    FitRowsDated(lt);
    EarliestDateIs(df);
    assert df[0] in df;
  }

  /**
   * With an exponential that is increasing and maps 0 to 1, the annual
   * rate is positive exactly when the slope is, zero exactly when it is.
   */
  lemma RateSign(s: real, exp: real -> real)
    requires exp(0.0) == 1.0
    requires forall a, b :: a < b ==> exp(a) < exp(b)
    ensures (exp(s) - 1.0) * 100.0 > 0.0 <==> s > 0.0
    ensures (exp(s) - 1.0) * 100.0 == 0.0 <==> s == 0.0
  {
    if s > 0.0 {
      assert exp(0.0) < exp(s);
    } else if s < 0.0 {
      assert exp(s) < exp(0.0);
    }
  }
}
