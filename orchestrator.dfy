/**
 * `evaluate_listing` (`src/orchestrator.py`): recent comparables, the
 * pricing decision, the long-term trend and the extra indicators, put
 * together into one result with advisory messages.
 */
module Orchestrator {

  import opened Wrappers
  import opened Config
  import opened Table
  import opened Comps
  import opened Pricing
  import opened Stats
  import opened Growth

  const NoRecentCompsFound := "No recent comps found with the given filters."
  const NoStableFairPrice := "Not enough recent comps to compute a stable fair price."

  /** The dict `evaluate_listing` returns; `inputs` echoes the query. */
  datatype Evaluation = Evaluation(
    inputs: Listing,
    recentComps: seq<Sale>,
    recentSummary: Option<FairSummary>,
    decision: Option<Decision>,
    recentKpis: RecentKpis,
    longtermBuckets: seq<Sale>,
    longtermBucketSummary: seq<Bucket>,
    growth: Trend,
    salesLast5: Activity,
    messages: seq<string>)

  /**
   * Either the evaluation, or the `ZeroDivisionError` that
   * `decision_vs_asking` raises on a zero fair price, which ends the call.
   */
  datatype Outcome = ZeroDivision | Evaluated(ev: Evaluation)

  /** The recent-branch messages: none when a decision is made, one otherwise. */
  function RecentMessages(rec: seq<Sale>, summary: FairSummary): seq<string> {
    if |rec| == 0 then [NoRecentCompsFound]
    else if !summary.Ok() then [NoStableFairPrice]
    else []
  }

  /**
   * `evaluate_listing`: the recent branch sets the summary only when there
   * are comparables and the decision only when the summary is ok, with one
   * message for each way it stops early; the long-term set, its trend and
   * bucket summary (both from that same set), the KPIs of the recent set and
   * the five-year activity are computed whatever the recent branch did.
   * The clock, the normaliser and the regression are parameters.
   */
  method EvaluateListing(cfg: Settings, norm: string -> string, table: seq<Sale>, q: Listing, today: int,
                         slope: seq<(real, real)> -> real, exp: real -> real)
    returns (res: Outcome)
    requires cfg.bucketSpanDays > 0
    ensures var rec := RecentComps(cfg, norm, table, q, today);
            var summary := SummarizeRecentFairPpsqm(rec);
            res.ZeroDivision? <==> |rec| > 0 && summary.Ok() && (summary.fairPpsqm == 0.0 || q.size == 0.0)
    ensures res.Evaluated? ==>
              var ev := res.ev;
              var rec := RecentComps(cfg, norm, table, q, today);
              var summary := SummarizeRecentFairPpsqm(rec);
              && ev.inputs == q
              && ev.recentComps == rec
              && (|rec| == 0 ==> ev.recentSummary == None && ev.decision == None)
              && (|rec| > 0 ==> ev.recentSummary == Some(summary))
              && (|rec| > 0 && !summary.Ok() ==> ev.decision == None)
              && (|rec| > 0 && summary.Ok() ==>
                    ev.decision == Some(DecisionVsAsking(summary.fairPpsqm, q.size, q.askingPrice, cfg.marginPct)))
              && ev.messages == RecentMessages(rec, summary)
              && ev.longtermBuckets == LongtermSelection(cfg, norm, table, q, today)
              && ev.growth == EstimateAnnualAppreciation(cfg, ev.longtermBuckets, slope, exp)
              && ev.longtermBucketSummary == BucketSummary(cfg, ev.longtermBuckets, today, cfg.bucketSpanDays)
              && ev.recentKpis == Kpis(rec)
              && ev.salesLast5 == SalesCountsLast5Years(norm, table, q.city, q.neighborhood, q.rooms, today)
    ensures res.Evaluated? ==>
              && |res.ev.messages| <= 1
              && (res.ev.decision.Some? <==> res.ev.recentSummary.Some? && res.ev.recentSummary.value.Ok())
              && (res.ev.decision.Some? <==> res.ev.messages == [])
  {
    var messages: seq<string> := [];

    var rec := RecentComps(cfg, norm, table, q, today);
    var recentSummary: Option<FairSummary> := None;
    var decision: Option<Decision> := None;

    if |rec| == 0 {
      messages := messages + [NoRecentCompsFound];
    } else {
      var summary := SummarizeRecentFairPpsqm(rec);
      recentSummary := Some(summary);
      if !summary.Ok() {
        messages := messages + [NoStableFairPrice];
      } else {
        if summary.fairPpsqm == 0.0 || q.size == 0.0 {
          return ZeroDivision;
        }
        ZeroProduct(summary.fairPpsqm, q.size);
        decision := Some(DecisionVsAsking(summary.fairPpsqm, q.size, q.askingPrice, cfg.marginPct));
      }
    }

    var lt := LongtermBuckets(cfg, norm, table, q, today);
    var growth := EstimateAnnualAppreciation(cfg, lt, slope, exp);
    var ltSummary := LongtermBucketSummary(cfg, lt, today, cfg.bucketSpanDays);

    var recentKpis := RecentTwoYearsStats(rec);
    var activity := SalesCountsLast5Years(norm, table, q.city, q.neighborhood, q.rooms, today);

    res := Evaluated(Evaluation(q, rec, recentSummary, decision, recentKpis, lt, ltSummary, growth, activity, messages));
  }

  /**
   * On rows the loader has cleaned (every price per m² positive) and a
   * positive size, `evaluate_listing` never raises.
   */
  lemma NoZeroDivision(cfg: Settings, norm: string -> string, table: seq<Sale>, q: Listing, today: int)
    requires Cleaned(table) && q.size > 0.0
    ensures var rec := RecentComps(cfg, norm, table, q, today);
            var summary := SummarizeRecentFairPpsqm(rec);
            !(|rec| > 0 && summary.Ok() && (summary.fairPpsqm == 0.0 || q.size == 0.0))
  {
    var rec := RecentComps(cfg, norm, table, q, today);
    var summary := SummarizeRecentFairPpsqm(rec);
    if summary.Ok() {
      RecentCompsMembers(cfg, norm, table, q, today);
      MatchFiltersSound(cfg, norm, table, q);
      PositivePpsqms(table, rec);
      SummaryPositive(rec);
    }
  }

  /** Rows taken from a cleaned table have positive prices per m². */
  lemma PositivePpsqms(table: seq<Sale>, rows: seq<Sale>)
    requires Cleaned(table)
    requires forall x :: x in rows ==> x in table
    ensures forall x :: x in rows && x.ppsqm.Some? ==> x.ppsqm.value > 0.0
  {
    forall x | x in rows && x.ppsqm.Some?
      ensures x.ppsqm.value > 0.0
    {
      assert CleanRow(x);
      PositiveQuotient(x.price.value, x.size);
    }
  }

  lemma PositiveQuotient(a: real, b: real)
    requires a > 0.0 && b > 0.0
    ensures a / b > 0.0
  {
  }

  lemma ZeroProduct(a: real, b: real)
    ensures a * b == 0.0 <==> a == 0.0 || b == 0.0
  {
  }
}
