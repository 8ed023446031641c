/**
 * Area statistics (`src/stats.py`): price figures over the recent set, and
 * the number of matching sales per calendar year over the last five years.
 */
module Stats {

  import opened Wrappers
  import opened Time
  import opened Table
  import opened Series

  // ---------------------------------------------------------------------
  // recent_two_years_stats
  // ---------------------------------------------------------------------

  /** The figures of `recent_two_years_stats`; the minimum and maximum go through Python's `int()`. */
  datatype RecentKpis = RecentKpis(
    avgPrice: Option<real>,
    minPrice: Option<int>,
    maxPrice: Option<int>,
    countAboveAvg: nat,
    n: nat
  )

  /** The dict the function starts from and returns unchanged when there is nothing to measure. */
  const NoKpis := RecentKpis(None, None, None, 0, 0)

  /** The present prices of the recent set, `dropna(subset=["price_ils"])`'d. */
  function RecentPrices(recent: seq<Sale>): seq<real> {
    Present(Prices(recent))
  }

  /** What `recent_two_years_stats` computes, field by field. */
  function Kpis(recent: seq<Sale>): RecentKpis {
    var prices := RecentPrices(recent);
    if |recent| == 0 || |prices| == 0 then NoKpis
    else
      var avg := Mean(prices);
      RecentKpis(Some(avg), Some(Trunc(MinOf(prices))), Some(Trunc(MaxOf(prices))), CountAbove(prices, avg), |prices|)
  }

  /**
   * `recent_two_years_stats`: starts from the defaults, returns them for an
   * empty set or one without prices, and otherwise fills in the count, the
   * mean, the truncated minimum and maximum, and how many prices lie
   * strictly above the mean, in that order.
   */
  method RecentTwoYearsStats(recent: seq<Sale>) returns (out: RecentKpis)
    ensures out == Kpis(recent)
    ensures out.n == |RecentPrices(recent)|
    ensures out.n == 0 ==> out == NoKpis
    ensures out.n > 0 ==> out.avgPrice == Some(Mean(RecentPrices(recent))) && out.countAboveAvg < out.n
  {
    out := NoKpis;
    if |recent| == 0 {
      return;
    }
    var prices := RecentPrices(recent);
    if |prices| == 0 {
      return;
    }
    out := out.(n := |prices|);
    out := out.(avgPrice := Some(Mean(prices)));
    out := out.(minPrice := Some(Trunc(MinOf(prices))));
    out := out.(maxPrice := Some(Trunc(MaxOf(prices))));
    out := out.(countAboveAvg := CountAbove(prices, out.avgPrice.value));
    CountAboveMeanBelowLength(prices);
  }

  /** There is no present price exactly when every row's price is missing. */
  lemma {:induction false} PricesAllMissing(s: seq<Sale>)
    ensures |Present(Prices(s))| == 0 <==> forall x :: x in s ==> x.price.None?
  {
    if s != [] {
      PricesAllMissing(s[1..]);
      assert forall x :: x in s <==> x == s[0] || x in s[1..];
    }
  }

  /** The defaults come back exactly when no row of the set has a price (in particular for an empty set). */
  lemma KpisDefaults(recent: seq<Sale>)
    ensures Kpis(recent) == NoKpis <==> forall x :: x in recent ==> x.price.None?
  {
    PricesAllMissing(recent);
  }

  /**
   * With prices present, the mean lies between the smallest and the
   * largest price, and fewer than all of them lie strictly above it.
   */
  lemma KpisBounds(recent: seq<Sale>)
    requires Kpis(recent).n > 0
    ensures var k := Kpis(recent);
            var prices := RecentPrices(recent);
            && k.avgPrice.Some? && k.minPrice.Some? && k.maxPrice.Some?
            && MinOf(prices) <= k.avgPrice.value <= MaxOf(prices)
            && 0 <= k.countAboveAvg < k.n
  {
    var prices := RecentPrices(recent);
    MeanBetween(prices);
    CountAboveMeanBelowLength(prices);
  }

  /**
   * The reported integer minimum and maximum bracket the mean to within
   * the truncation: for positive prices `min <= avg < max + 1`, and
   * `min <= avg <= max` when every price is a whole number.
   */
  lemma KpisIntegerBounds(recent: seq<Sale>)
    requires Kpis(recent).n > 0
    requires forall v :: v in RecentPrices(recent) ==> v > 0.0
    ensures var k := Kpis(recent);
            k.minPrice.value as real <= k.avgPrice.value < k.maxPrice.value as real + 1.0
    ensures (forall v :: v in RecentPrices(recent) ==> v == v.Floor as real) ==>
              var k := Kpis(recent);
              k.minPrice.value as real <= k.avgPrice.value <= k.maxPrice.value as real
  {
    var prices := RecentPrices(recent);
    MeanBetween(prices);
    assert MinOf(prices) in prices;
    assert MaxOf(prices) in prices;
  }

  // ---------------------------------------------------------------------
  // sales_counts_last5_years
  // ---------------------------------------------------------------------

  datatype YearCount = YearCount(year: int, count: nat)

  /** `{"total": …, "per_year": [{"year": …, "count": …}, …]}`. */
  datatype Activity = Activity(total: nat, perYear: seq<YearCount>)

  /**
   * The rows `sales_counts_last5_years` counts: dated, in the normalised
   * city and neighbourhood (no fallback), with exactly the room count, and
   * dated on or after five years of 365 days before `today`.
   */
  function FiveYearRows(norm: string -> string, table: seq<Sale>, city: string, neighborhood: string, rooms: real, today: int): seq<Sale> {
    var dated := Where(table, Dated);
    var area := Where(Where(dated, CityIs(norm(city))), NeighborhoodIs(norm(neighborhood)));
    Where(Where(area, RoomsEqual(rooms)), DatedFrom(YearsBack(today, 5)))
  }

  /** A row is counted exactly when it meets every one of the conditions. */
  lemma FiveYearRowsExactly(norm: string -> string, table: seq<Sale>, city: string, neighborhood: string, rooms: real, today: int, x: Sale)
    ensures x in FiveYearRows(norm, table, city, neighborhood, rooms, today) <==>
      && x in table
      && x.cityNorm == norm(city)
      && x.neighNorm == norm(neighborhood)
      && x.rooms == Some(rooms)
      && x.dealDate.Some? && x.dealDate.value >= YearsBack(today, 5)
  {
    var area := Where(Where(Where(table, Dated), CityIs(norm(city))), NeighborhoodIs(norm(neighborhood)));
    AreaRowsExactly(table, norm(city), norm(neighborhood), x);
    var matched := Where(area, RoomsEqual(rooms));
    WhereMember(area, RoomsEqual(rooms), x);
    WhereMember(matched, DatedFrom(YearsBack(today, 5)), x);
  }

  lemma AreaRowsExactly(table: seq<Sale>, city: string, neighborhood: string, x: Sale)
    ensures x in Where(Where(Where(table, Dated), CityIs(city)), NeighborhoodIs(neighborhood)) <==>
      x in table && x.dealDate.Some? && x.cityNorm == city && x.neighNorm == neighborhood
  {
    var dated := Where(table, Dated);
    var inCity := Where(dated, CityIs(city));
    WhereMember(table, Dated, x);
    WhereMember(dated, CityIs(city), x);
    WhereMember(inCity, NeighborhoodIs(neighborhood), x);
  }

  predicate AllDated(rows: seq<Sale>) {
    forall r :: r in rows ==> r.dealDate.Some?
  }

  lemma FiveYearRowsDated(norm: string -> string, table: seq<Sale>, city: string, neighborhood: string, rooms: real, today: int)
    ensures AllDated(FiveYearRows(norm, table, city, neighborhood, rooms, today))
  {
    forall x | x in FiveYearRows(norm, table, city, neighborhood, rooms, today)
      ensures x.dealDate.Some?
    {
      FiveYearRowsExactly(norm, table, city, neighborhood, rooms, today, x);
    }
  }

  /** The `year` column, `deal_date.dt.year`, of the dated rows. */
  function YearsOf(rows: seq<Sale>): (ys: seq<int>)
    ensures |ys| <= |rows|
  {
    if rows == [] then []
    else (if rows[0].dealDate.Some? then [CalendarYear(rows[0].dealDate.value)] else []) + YearsOf(rows[1..])
  }

  /** Of dated rows, the year column has one entry per row, the year of that row. */
  lemma {:induction false} YearsOfDated(rows: seq<Sale>)
    requires AllDated(rows)
    ensures |YearsOf(rows)| == |rows|
    ensures forall i :: 0 <= i < |rows| ==> YearsOf(rows)[i] == CalendarYear(rows[i].dealDate.value)
  {
    if rows != [] {
      assert rows[0] in rows;
      assert forall r :: r in rows[1..] ==> r in rows;
      YearsOfDated(rows[1..]);
    }
  }

  /** The latest of the years. */
  function Latest(ys: seq<int>): int
    requires |ys| > 0
  {
    if |ys| == 1 then ys[0]
    else
      var rest := Latest(ys[1..]);
      if ys[0] >= rest then ys[0] else rest
  }

  lemma {:induction false} LatestIs(ys: seq<int>)
    requires |ys| > 0
    ensures Latest(ys) in ys
    ensures forall y :: y in ys ==> y <= Latest(ys)
  {
    if |ys| > 1 {
      LatestIs(ys[1..]);
      assert forall y :: y in ys ==> y == ys[0] || y in ys[1..];
    }
  }

  /** How many entries are `y`: the rows of year `y`. */
  function CountOf(ys: seq<int>, y: int): (c: nat)
    ensures c <= |ys|
  {
    if ys == [] then 0 else (if ys[0] == y then 1 else 0) + CountOf(ys[1..], y)
  }

  /** The entries before year `y`, in their order. */
  function Before(ys: seq<int>, y: int): (r: seq<int>)
    ensures |r| <= |ys|
  {
    if ys == [] then [] else (if ys[0] < y then [ys[0]] else []) + Before(ys[1..], y)
  }

  lemma {:induction false} BeforeMembers(ys: seq<int>, y: int)
    ensures forall z :: z in Before(ys, y) <==> z in ys && z < y
  {
    if ys != [] {
      BeforeMembers(ys[1..], y);
      assert forall z :: z in ys <==> z == ys[0] || z in ys[1..];
    }
  }

  /** When no entry is later than `y`, the entries split into those equal to `y` and those before it. */
  lemma {:induction false} SplitAt(ys: seq<int>, y: int)
    requires forall z :: z in ys ==> z <= y
    ensures CountOf(ys, y) + |Before(ys, y)| == |ys|
  {
    if ys != [] {
      assert ys[0] in ys;
      assert forall z :: z in ys[1..] ==> z in ys;
      SplitAt(ys[1..], y);
    }
  }

  /** A year earlier than `y` is counted the same before `y` as overall. */
  lemma {:induction false} CountBefore(ys: seq<int>, y: int, z: int)
    requires z < y
    ensures CountOf(Before(ys, y), z) == CountOf(ys, z)
  {
    if ys != [] {
      var a, t := ys[0], ys[1..];
      CountBefore(t, y, z);
      assert CountOf(ys, z) == (if a == z then 1 else 0) + CountOf(t, z);
      if a < y {
        var b := [a] + Before(t, y);
        assert Before(ys, y) == b;
        assert b[0] == a && b[1..] == Before(t, y);
      } else {
        assert Before(ys, y) == Before(t, y);
      }
    }
  }

  lemma {:induction false} CountPositive(ys: seq<int>, y: int)
    requires y in ys
    ensures CountOf(ys, y) >= 1
  {
    if ys[0] != y {
      CountPositive(ys[1..], y);
    }
  }

  /** The latest year's entries are split off, so fewer remain. */
  lemma BeforeLatestShorter(ys: seq<int>)
    requires |ys| > 0
    ensures |Before(ys, Latest(ys))| < |ys|
  {
    LatestIs(ys);
    SplitAt(ys, Latest(ys));
    CountPositive(ys, Latest(ys));
  }

  /**
   * `groupby("year").count()` sorted by year, latest first: the latest
   * year with its count, then the same for the earlier years.
   */
  function PerYear(ys: seq<int>): seq<YearCount>
    decreases |ys|
  {
    if ys == [] then []
    else
      var y := Latest(ys);
      BeforeLatestShorter(ys);
      [YearCount(y, CountOf(ys, y))] + PerYear(Before(ys, y))
  }

  /** The sum of the per-year counts. */
  function TotalOf(per: seq<YearCount>): nat {
    if per == [] then 0 else per[0].count + TotalOf(per[1..])
  }

  /**
   * `sales_counts_last5_years`: the total is the number of matching sales of
   * the last five years, and the per-year counts, latest year first, add up
   * to it; nothing matched gives a zero total and no years.
   */
  function SalesCountsLast5Years(norm: string -> string, table: seq<Sale>, city: string, neighborhood: string, rooms: real, today: int): (a: Activity)
    ensures a.total == |FiveYearRows(norm, table, city, neighborhood, rooms, today)|
    ensures a.total == TotalOf(a.perYear)
    ensures YearsDescending(a.perYear)
    ensures |FiveYearRows(norm, table, city, neighborhood, rooms, today)| == 0 ==> a == Activity(0, [])
  {
    var rows := FiveYearRows(norm, table, city, neighborhood, rooms, today);
    if |rows| == 0 then Activity(0, [])
    else
      var per := PerYear(YearsOf(rows));
      FiveYearRowsDated(norm, table, city, neighborhood, rooms, today);
      YearsOfDated(rows);
      PerYearTotal(YearsOf(rows));
      PerYearDescending(YearsOf(rows));
      Activity(TotalOf(per), per)
  }

  predicate YearsDescending(per: seq<YearCount>) {
    forall i, j :: 0 <= i < j < |per| ==> per[i].year > per[j].year
  }

  /** Every entry is a year of the column, holding how often it occurs there, at least once. */
  predicate EntriesCount(per: seq<YearCount>, ys: seq<int>) {
    forall e :: e in per ==> e.year in ys && e.count >= 1 && e.count == CountOf(ys, e.year)
  }

  /** The counts add up to the number of entries. */
  lemma {:induction false} PerYearTotal(ys: seq<int>)
    ensures TotalOf(PerYear(ys)) == |ys|
    decreases |ys|
  {
    if ys != [] {
      var y := Latest(ys);
      LatestIs(ys);
      SplitAt(ys, y);
      BeforeLatestShorter(ys);
      PerYearTotal(Before(ys, y));
    }
  }

  /** Each entry counts the occurrences of its year, at least one. */
  lemma {:induction false} PerYearEntries(ys: seq<int>)
    ensures EntriesCount(PerYear(ys), ys)
    decreases |ys|
  {
    if ys != [] {
      var y := Latest(ys);
      LatestIs(ys);
      BeforeLatestShorter(ys);
      BeforeMembers(ys, y);
      var before := Before(ys, y);
      PerYearEntries(before);
      var per := PerYear(ys);
      assert per == [YearCount(y, CountOf(ys, y))] + PerYear(before);
      forall e | e in per
        ensures e.year in ys && e.count >= 1 && e.count == CountOf(ys, e.year)
      {
        if e == per[0] {
          CountPositive(ys, y);
        } else {
          assert e in PerYear(before);
          CountBefore(ys, y, e.year);
        }
      }
    }
  }

  /** The years are strictly descending. */
  lemma {:induction false} PerYearDescending(ys: seq<int>)
    ensures YearsDescending(PerYear(ys))
    decreases |ys|
  {
    if ys != [] {
      var y := Latest(ys);
      BeforeLatestShorter(ys);
      BeforeMembers(ys, y);
      var before := Before(ys, y);
      PerYearDescending(before);
      PerYearEntries(before);
      var rest := PerYear(before);
      var per := PerYear(ys);
      assert per == [YearCount(y, CountOf(ys, y))] + rest;
      forall j | 0 <= j < |rest|
        ensures rest[j].year < y
      {
        assert rest[j] in rest;
      }
      forall i, j | 0 <= i < j < |per|
        ensures per[i].year > per[j].year
      {
        assert per[j] == rest[j - 1];
        if i > 0 {
          assert per[i] == rest[i - 1];
        }
      }
    }
  }

  /** Every year of the column has an entry. */
  lemma {:induction false} PerYearComplete(ys: seq<int>, z: int)
    requires z in ys
    ensures exists e :: e in PerYear(ys) && e.year == z
    decreases |ys|
  {
    var y := Latest(ys);
    LatestIs(ys);
    BeforeLatestShorter(ys);
    BeforeMembers(ys, y);
    var before := Before(ys, y);
    var per := PerYear(ys);
    assert per == [YearCount(y, CountOf(ys, y))] + PerYear(before);
    if z == y {
      assert per[0] in per;
    } else {
      PerYearComplete(before, z);
      var e :| e in PerYear(before) && e.year == z;
      assert e in per;
    }
  }

  /**
   * Over the matching rows, the five-year activity lists every calendar
   * year a matching sale falls in, latest first, each with its number of
   * sales (at least one), and the total is the number of matching sales;
   * when nothing matches, the total is zero and no year is listed.
   */
  lemma ActivityShape(norm: string -> string, table: seq<Sale>, city: string, neighborhood: string, rooms: real, today: int)
    ensures var rows := FiveYearRows(norm, table, city, neighborhood, rooms, today);
            var a := SalesCountsLast5Years(norm, table, city, neighborhood, rooms, today);
            && |YearsOf(rows)| == |rows|
            && a.total == |rows|
            && (a.total == 0 <==> a == Activity(0, []))
            && YearsDescending(a.perYear)
            && EntriesCount(a.perYear, YearsOf(rows))
            && forall z :: z in YearsOf(rows) ==> exists e :: e in a.perYear && e.year == z
  {
    var rows := FiveYearRows(norm, table, city, neighborhood, rooms, today);
    FiveYearRowsDated(norm, table, city, neighborhood, rooms, today);
    YearsOfDated(rows);
    var ys := YearsOf(rows);
    if |rows| > 0 {
      PerYearTotal(ys);
      PerYearDescending(ys);
      PerYearEntries(ys);
      forall z | z in ys
        ensures exists e :: e in PerYear(ys) && e.year == z
      {
        PerYearComplete(ys, z);
      }
    }
  }
}
