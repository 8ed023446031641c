# Real-estate listing valuation, modelled in Dafny

This project models the valuation pipeline of `real_estate_backend`. The
pipeline takes a cleaned table of past sales and one listing (city,
neighbourhood, rooms, size, asking price). From them it produces:

- the comparable sales: a recent set, and a long-term set sampled per time window;
- a fair price per m² (median and quartiles) and a cheap / fair / expensive verdict;
- a long-term appreciation trend;
- indicators over the recent prices, and per-year sale counts for the area.

Modules follow the source files:

| module | file | models |
|---|---|---|
| `Config` | `config.dfy` | the constants of `src/config.py` as one `Settings` record (`Defaults`) |
| `Table` | `table.dfy` | a sale row, the listing, row masks (`Where`), newest-first ordering and prefixes |
| `Time` | `time.dfy` | instants as integer seconds, `N·365`-day cutoffs, whole days, calendar year |
| `Series` | `series.dfy` | `dropna`, sum/mean/min/max, counts above and below a value |
| `Comps` | `comps.dfy` | `src/comps.py`: match filters, recent comps, long-term windows and their summary |
| `Pricing` | `pricing.dfy` | `src/pricing.py`: median/quartiles, the price band, the verdict |
| `Stats` | `stats.dfy` | `src/stats.py`: recent price indicators, five-year sale counts per year |
| `Growth` | `growth.dfy` | `src/growth.py`: the guards of the trend estimate and its result |
| `Orchestrator` | `orchestrator.dfy` | `src/orchestrator.py`: `evaluate_listing` |

Modelling choices:

- **Time.** An instant is an integer number of seconds, and `today` is a parameter. `timedelta(days=N)` is `N·86400` seconds, so the one-second shift of `longterm_bucket_summary` stays exact. Calendar years come from the days-to-civil conversion of the proleptic Gregorian calendar (`Time.CivilYear`), proved to agree with the 1 January boundaries of `Time.YearStart`.
- **Missing cells.** A missing cell (pandas NaN) is an `Option`. Prices, sizes and means are exact reals.
- **Normalisation.** `str.lower().strip()` is an abstract function `norm: string -> string`.
- **Regression.** The least-squares slope of `log(price per m²)` over time is a function parameter, and so is `exp`.
- **Imperative parts.** Where the source works step by step, the model is a method with loop invariants, proved equal to a specification function:
  - `longterm_buckets` and `longterm_bucket_summary` walk windows backward in `while` loops;
  - `recent_two_years_stats` fills a result record field by field;
  - `evaluate_listing` appends messages while it branches.
- **Pure parts.** The rest are functions with named results, plus lemmas.
- **Clean table.** The loader's guarantees are the predicate `Table.Cleaned`, which `src/data_loader.py:27-30` establishes: dated rows, positive size and price, and price per m² equal to price/size. Only the lemmas that need it assume it.

## Model

| member | source | states |
|---|---|---|
| Comps.MatchFiltersExactly | src/comps.py:20-35 | A row survives exactly when all of these hold: its city matches; it is in the neighbourhood if the narrowing applies; its size is in the band, both ends included; its rooms match. |
| Comps.MatchFiltersSound | src/comps.py:20-35 | Every kept row comes from the table and has the query city, a size inside `[size·(1−SIZE_TOL), size·(1+SIZE_TOL)]` and matching rooms. |
| Comps.KeptBySize | src/comps.py:29-30 | The size filter keeps exactly the rows whose size lies in the band, including both ends. |
| Comps.KeptByRooms | src/comps.py:32-35 | The room filter keeps exactly the rows that match: equal rooms in "exact" mode, within ±ROOMS_TOL (inclusive) otherwise. A missing room count never matches. |
| Comps.RoomsMaskMatches | src/comps.py:32-35 | The room mask agrees with the stated room-matching rule. |
| Comps.LocationRowsExactly | src/comps.py:23-27 | After the location step a row is in the city and, when narrowing applies, in the neighbourhood. |
| Comps.NarrowsIffNeighborhoodRows | src/comps.py:24-27 | Narrowing applies exactly when the flag is set and at least one city row has the neighbourhood. |
| Comps.NeighborhoodFallback | src/comps.py:24-30 | When narrowing applies, only neighbourhood rows survive. Otherwise the result is the city-wide rows that pass size and rooms. |
| Comps.FallbackPrecedesSizeFilter | src/comps.py:24-30 | A concrete table where a neighbourhood row of the wrong size gives an empty result, although a city-wide row passes every other filter. |
| Comps.RecentCompsLength | src/comps.py:50-54 | The result has RECENT_MAX rows when at least that many qualify. It has RECENT_MIN rows when between RECENT_MIN and RECENT_MAX−1 qualify, and all of them otherwise. It never has more than RECENT_MAX. |
| Comps.RecentCompsElevenGiveTen | src/comps.py:50-54 | With the shipped settings, 11 qualifying sales give 10 comparables. |
| Comps.RecentCompsNewest | src/comps.py:45-54 | The recent set is newest first. It is a sub-multiset of the candidates, of the length `RecentCount` gives, and none of its rows is older than a qualifying row left out. |
| Comps.RecentCompsMembers | src/comps.py:45-48 | Every recent comparable passes the match filters and is dated on or after `today − RECENT_YEARS·365` days. |
| Comps.WindowEndsShape | src/comps.py:78-87 | The window ends start at `today`, step back by exactly one span, and all lie in `(cutoff, today]`. |
| Comps.WindowsCover | src/comps.py:78-87 | Every date in `(cutoff, today]` lies in some visited window `(end−span, end]`. Only dates in `(cutoff−span, today]` are covered. |
| Comps.WindowsDisjoint | src/comps.py:78-87 | No date lies in two visited windows. |
| Comps.WindowEndsSpaced | src/comps.py:78-87 | Two distinct window ends are at least one span apart. |
| Comps.CollectWindows | src/comps.py:77-88 | Each frame the `while` loop collects is the BUCKET_SAMPLES_PER_BUCKET newest rows of one visited window that holds rows, so no frame is empty when that number is positive. Concatenated, the frames equal the specification `WindowPicks`. |
| Comps.LongtermBuckets | src/comps.py:56-94 | The method, including its three early empty returns, computes exactly `LongtermSelection`: the window picks, newest first. |
| Comps.LongtermPerWindow | src/comps.py:83-85 | Within each visited window, the long-term set holds the pool's BUCKET_SAMPLES_PER_BUCKET newest rows of that window (all of them when fewer). No row of that window is newer than a row left out. |
| Comps.WindowPicksAt | src/comps.py:81-87 | Read back at one visited window, the collected picks are exactly that window's pick. |
| Comps.LongtermRows | src/comps.py:68-85 | Every long-term row passes the match filters, is dated in `[today − LONGTERM_YEARS·365 days, today]`, and lies in a visited window. |
| Comps.LongtermSorted | src/comps.py:93 | The long-term set is ordered newest first. |
| Comps.LongtermEmpty | src/comps.py:69-90 | The set is empty exactly when no row is kept per window, or when no matching row dated on or after the cutoff lies in a visited window. |
| Comps.PicksNonEmpty | src/comps.py:81-90 | The walk picks something exactly when the per-window sample size is positive and a pool row lies in a visited window. |
| Comps.SummariseWindows | src/comps.py:124-141 | The `while` loop appends one entry per non-empty window. It equals the specification `WindowSummaries`. |
| Comps.LongtermBucketSummary | src/comps.py:111-141 | The method equals `BucketSummary`: empty input, or no dated row, gives `[]`; otherwise it is the walk from one second after the newest deal. |
| Comps.BucketSummaryEmpty | src/comps.py:111-112 | A table without dated rows gives no entry. |
| Comps.SummaryEntries | src/comps.py:126-140 | Each entry belongs to a visited window and has `n ≥ 1`. Its means are the averages of price per m² and price over that window's rows. Its `center` is `start + span/2`, and `years_ago` is whole days over 365.25. |
| Comps.SummaryComplete | src/comps.py:124-141 | Every non-empty visited window has its entry. |
| Comps.SummaryBounds | src/comps.py:124-141 | Every entry's window is one span wide, ends after the cutoff, and ends no later than the first window end. |
| Comps.SummaryOrdered | src/comps.py:124-141 | Entries come newest first, and their windows do not overlap. |
| Comps.SummaryCountsRow | src/comps.py:124-141 | A dated row whose date lies in a visited window is counted in exactly one entry. |
| Comps.SummaryWalkShape | src/comps.py:120-141 | From one second after the newest date, all of the above hold together: ordering, each entry summarising its own non-empty window, and completeness. |
| Comps.SummaryWalkCountsNewest | src/comps.py:120 | Suppose the newest deal is on or after the cutoff and windows are longer than one second. Then that deal is counted in the first entry, whose window ends one second after it. |
| Comps.SummaryWalkCountsRows | src/comps.py:120-141 | Every dated row covered by the walk is counted in exactly one entry. |
| Pricing.SummarizeRecentFairPpsqm | src/pricing.py:5-16 | An empty set gives "No recent comps.". A set whose prices per m² are all missing gives "No valid ppsqm in comps.". The summary is ok exactly when some price per m² is present; then `n` is their count, `iqr = q3 − q1`, and `q1 ≤ fair ≤ q3`, so `iqr ≥ 0`. |
| Pricing.SummaryStatistics | src/pricing.py:14-16 | When ok, the fair value splits the present values: at least half are ≤ it and at least half are ≥ it. `q1` and `q3` are the linear-interpolation 25th and 75th percentiles of the sorted values. |
| Pricing.SummaryFailures | src/pricing.py:9-13 | Both failure results, each as an if-and-only-if with its condition. |
| Pricing.SummaryFairField | src/pricing.py:9-14 | `fair_ppsqm` is null exactly when no recent row has a price per m², the empty set included. Otherwise it is the median of the present values. |
| Pricing.SummaryPositive | src/pricing.py:14 | Positive prices per m² give a positive fair price. |
| Pricing.MedianSplitsSample | src/pricing.py:14 | The median (numpy's midpoint on even counts) has at least half of the sample at or below it and at least half at or above it. |
| Pricing.MedianIsMiddleQuartile | src/pricing.py:14-15 | The median equals the 50th percentile under numpy's linear interpolation. |
| Pricing.QuartileMonotone | src/pricing.py:15 | Percentiles are monotone in the rank. |
| Pricing.QuartileWithin | src/pricing.py:15 | Every percentile lies between the sample's minimum and maximum. |
| Pricing.AscendingSorted | src/pricing.py:14-15 | The sort used for the percentiles yields ascending order. |
| Pricing.AscendingPermutes | src/pricing.py:14-15 | The sort is a permutation of the values. |
| Pricing.PriceRangeFromFairPpsqm | src/pricing.py:18-21 | The band is centred on `fair·size` and is `2·margin·fair·size` wide. |
| Pricing.PriceRangeOrdered | src/pricing.py:18-21 | With a non-negative base `fair·size` and margin, `low ≤ base ≤ high`. |
| Pricing.DecisionVsAsking | src/pricing.py:23-44 | The result's `fair_range` is the band `price_range_from_fair_ppsqm` gives. The verdict is "cheap" exactly below the band, "expensive" exactly above it, and "fair" otherwise, both bounds included. `diff_pct` recovers the asking price as `fair·size·(1 + diff/100)`. |
| Pricing.DecisionBands | src/pricing.py:28-36 | With a positive fair price and a non-negative margin: "cheap" ⇔ `asking < low`; "expensive" ⇔ `asking > high`; "fair" ⇔ `low ≤ asking ≤ high`. |
| Pricing.DiffBands | src/pricing.py:28-38 | With a positive fair price and a non-negative margin: "cheap" ⇔ `diff < −100m`; "expensive" ⇔ `diff > 100m`; "fair" ⇔ `|diff| ≤ 100m`. |
| Pricing.WorkedExample | src/pricing.py:28-36 | With 50000 per m², 70 m² and a 4% margin, the band is `[3360000, 3640000]`. 3450000 is "fair", with `diff_pct` = −10/7 %, and 3700000 is "expensive", with `diff_pct` = 40/7 %. |
| Stats.RecentTwoYearsStats | src/stats.py:5-34 | The method equals `Kpis`. `n` counts the present prices. No price gives the defaults. Otherwise the average is the mean and the count above it is below `n`. |
| Stats.KpisDefaults | src/stats.py:14-27 | The defaults (no price fields, count 0, `n` 0) are returned exactly when every price is missing, the empty set included. |
| Stats.KpisBounds | src/stats.py:29-33 | `min ≤ avg ≤ max` over the present prices, and `0 ≤ count_above_avg < n`. |
| Stats.KpisIntegerBounds | src/stats.py:31-32 | With positive prices, the `int()`-truncated extremes bracket the mean: `min ≤ avg < max + 1`. With whole prices, `min ≤ avg ≤ max`. |
| Stats.FiveYearRowsExactly | src/stats.py:47-58 | A row counts exactly when it is dated on or after `today − 5·365` days and has the normalised city, the normalised neighbourhood (no fallback) and the exact rooms. |
| Stats.SalesCountsLast5Years | src/stats.py:36-71 | `total` is the number of matching sales of the last five years and equals the sum of the per-year counts. Years are strictly descending. No matching row gives `{total: 0, per_year: []}`. |
| Stats.ActivityShape | src/stats.py:60-70 | `total` is the number of matching rows and is 0 exactly when none match. Years are strictly descending; each count is the number of matching rows in that year and is ≥ 1; every year with a sale has its entry. |
| Stats.PerYearTotal | src/stats.py:64-69 | The per-year counts sum to the number of rows grouped. |
| Stats.PerYearEntries | src/stats.py:64 | Each entry counts the rows of its year, and that count is ≥ 1. |
| Stats.PerYearDescending | src/stats.py:66 | Entries are in strictly descending year order. |
| Stats.PerYearComplete | src/stats.py:64 | Every year that occurs has an entry. |
| Time.CalendarYearExactly | src/stats.py:63 | `.dt.year` of an instant is `y` exactly when the instant lies from 1 January of `y` (inclusive) to 1 January of `y+1` (exclusive), proleptic Gregorian. |
| Time.CalendarYearMonotone | src/stats.py:63 | A later instant never falls in an earlier year. |
| Time.YearLength | src/stats.py:63 | 1 January of `y+1` is 366 days after 1 January of `y` in a leap year (divisible by 4, and by 400 when by 100) and 365 days after it otherwise. |
| Time.CalendarYearExamples | src/stats.py:63 | 2025-10-24 00:00 UTC lies in 2025; 1 January 1970 is day 0 and 1 January 2025 is day 20089. |
| Growth.EstimateAnnualAppreciation | src/growth.py:5-31 | `n_points` is the input length on every path. `ok` holds exactly when `annual_pct` is present, and exactly when the message is "ok". |
| Growth.Guards | src/growth.py:11-23 | The guards apply in order. Fewer than LONGTERM_MIN rows (counted before dropping) gives "Not enough long-term comps (need >= N).". Otherwise, no usable row or a price per m² ≤ 0 gives "Invalid ppsqm values.". Otherwise, a span under 183 whole days (half a year of 365.25 days) gives "Time span too narrow.". `ok` holds exactly when all three pass. |
| Growth.TrendRate | src/growth.py:20-31 | When ok, `annual_pct = (exp(slope) − 1)·100`. The slope is taken over the points `(whole days since the earliest deal / 365.25, price per m²)` of the usable rows. |
| Growth.RateSign | src/growth.py:30 | For an increasing `exp` with `exp(0) = 1`, the rate is positive exactly when the slope is, and zero exactly when it is. |
| Growth.SpreadIsSpan | src/growth.py:20-22 | The spread `max − min` of the year offsets is the whole-day span from the earliest to the latest deal, over 365.25. |
| Growth.HalfYear | src/growth.py:22 | A spread under 0.5 years is a span under 183 whole days. |
| Growth.FitRowsExactly | src/growth.py:16 | `dropna` keeps exactly the rows with both a date and a price per m². |
| Growth.NotEnoughMessageDefault | src/growth.py:12-14 | With LONGTERM_MIN = 3, the message reads "Not enough long-term comps (need >= 3).". |
| Orchestrator.EvaluateListing | src/orchestrator.py:7-59 | The inputs are echoed. No recent comps gives "No recent comps found with the given filters." with a null summary and decision. A failed summary gives "Not enough recent comps to compute a stable fair price." with a null decision. An ok summary gives `decision_vs_asking(fair, size, asking, MARGIN_PCT)` and no message. The long-term set, its trend and bucket summary (both from that one set), the KPIs of the recent set and the five-year counts are always computed. There is at most one message, and a decision exactly when the summary is ok. The call raises exactly when the ok fair price times the size is zero. |
| Orchestrator.NoZeroDivision | src/orchestrator.py:26-31 | On a cleaned table with a positive size, `evaluate_listing` never raises. |

## Left out

- I/O is not modelled:
  - the CSV loader, whose cleaning is the precondition `Cleaned`;
  - the model assumes the `neigh_norm` column always exists, as `src/data_loader.py:32` guarantees, so the `'neigh_norm' in base.columns` test of `src/comps.py:24` is always true;
  - the HTTP clients, the FastAPI server, the scripts;
  - serialisation: `to_dict` and the `strftime` rewriting of `longterm_bucket_summary`'s dates, which are kept as instants.
- Floating point is not modelled: prices and means are exact reals. numpy's `log`, `lstsq` and `exp` are the parameters `slope` and `exp`, so the fitted value itself is not modelled.
- `str.lower().strip()` is an abstract `norm`; Unicode case folding is not modelled.
- Each stage of the source calls `datetime.utcnow()` separately. The model passes one `today` to all of them.
- Sort ties: pandas' default sort is not stable, so tied dates may come out in any order. The model sorts with one fixed insertion order, and every property about orderings is stated so that it holds for any tie order (sorted, a permutation, "no row newer than one left out").
- A `None` table (accepted by `recent_two_years_stats` and checked in `evaluate_listing`) is not modelled: `recent_comps` never returns one.
- `Comps.LongtermBuckets`: a row dated exactly on the long-term cutoff is kept in the candidate set, but no window covers it when `today − cutoff` is a multiple of the span. With the shipped settings, 3650 days against 720, it is covered. The covering lemmas are stated for dates after the cutoff.
- `Comps.LongtermBuckets` and `Comps.LongtermBucketSummary` require a positive window span. With `BUCKET_SPAN_DAYS = 0` the source's `while` loops never end.
- `Comps.SummaryWalkCountsNewest` assumes a window longer than one second. Windows are whole days, so this always holds.
- `Pricing.DecisionVsAsking` requires a non-zero fair price, because Python raises `ZeroDivisionError` on one. `Orchestrator.EvaluateListing` models that exception as the outcome `ZeroDivision`. It tests `fair == 0 or size == 0`, which over the reals is the same as `fair·size == 0`.
- `Pricing.PriceRangeFromFairPpsqm` always takes the margin explicitly; the default argument `MARGIN_PCT` is the `marginPct` field of `Settings`.
- `Pricing.SummarizeRecentFairPpsqm` computes only the percentiles the source uses (25, 50, 75); `np.percentile` at other ranks is not modelled.
- `Stats.RecentTwoYearsStats`: `int()` of the min and max truncates toward zero. The model writes this out with `Trunc`, and the bounds lemma states the truncated relation.
- `Stats.SalesCountsLast5Years` counts rows, assuming `tx_id` is never missing. pandas' `count()` would skip a missing `tx_id`.
- `Growth.TrendRate` does not state the sign of the fitted slope: that needs the least-squares solution, which is a parameter here.
