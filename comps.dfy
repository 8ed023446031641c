/**
 * Comparable selection (`src/comps.py`): the match filters with their
 * neighbourhood fallback, the capped newest-first recent set, the long-term
 * set sampled per backward time window, and the per-window summary.
 */
module Comps {

  import opened Wrappers
  import opened Config
  import opened Time
  import opened Table
  import opened Series

  // ---------------------------------------------------------------------
  // Match filters
  // ---------------------------------------------------------------------

  /** The size band `[size·(1 − SIZE_TOL), size·(1 + SIZE_TOL)]`, both ends included. */
  function SizeMask(cfg: Settings, size: real): Mask {
    SizeBetween(size * (1.0 - cfg.sizeTol), size * (1.0 + cfg.sizeTol))
  }

  /** Exact room match, or `rooms.between(q − ROOMS_TOL, q + ROOMS_TOL)` in any other mode. */
  function RoomsMask(cfg: Settings, rooms: real): Mask {
    if cfg.roomsMode == Exact then RoomsEqual(rooms)
    else RoomsBetween(rooms - cfg.roomsTol, rooms + cfg.roomsTol)
  }

  function Abs(x: real): real { if x < 0.0 then -x else x }

  /** How a row's room count compares with the listing's, stated without the mask. */
  predicate RoomsMatch(cfg: Settings, rooms: Option<real>, q: real) {
    rooms.Some? &&
    if cfg.roomsMode == Exact then rooms.value == q else Abs(rooms.value - q) <= cfg.roomsTol
  }

  /**
   * Whether the neighbourhood narrowing applies: the flag is set and at
   * least one row of the city is in the listing's neighbourhood.
   */
  predicate NarrowsToNeighborhood(cfg: Settings, norm: string -> string, table: seq<Sale>, q: Listing) {
    && cfg.requireSameNeighborhood
    && exists r :: r in table && r.cityNorm == norm(q.city) && r.neighNorm == norm(q.neighborhood)
  }

  /** The rows of the listing's city. */
  function CityRows(norm: string -> string, table: seq<Sale>, q: Listing): seq<Sale> {
    Where(table, CityIs(norm(q.city)))
  }

  /** The city rows narrowed to the listing's neighbourhood when the flag is set and any exist. */
  function LocationRows(cfg: Settings, norm: string -> string, table: seq<Sale>, q: Listing): seq<Sale> {
    var city := CityRows(norm, table, q);
    var sub := Where(city, NeighborhoodIs(norm(q.neighborhood)));
    if cfg.requireSameNeighborhood && |sub| >= 1 then sub else city
  }

  /** `_apply_match_filters`: city, then the neighbourhood preference, then size, then rooms. */
  function MatchFilters(cfg: Settings, norm: string -> string, table: seq<Sale>, q: Listing): seq<Sale> {
    Where(Where(LocationRows(cfg, norm, table, q), SizeMask(cfg, q.size)), RoomsMask(cfg, q.rooms))
  }

  /**
   * A row survives the match filters exactly when it is in the listing's
   * city, in its neighbourhood if the narrowing applies, inside the size
   * band (both ends included), and matches on rooms. The narrowing is
   * decided on the whole city, before the size and room filters run.
   */
  lemma MatchFiltersExactly(cfg: Settings, norm: string -> string, table: seq<Sale>, q: Listing, x: Sale)
    ensures x in MatchFilters(cfg, norm, table, q) <==>
      && x in table
      && x.cityNorm == norm(q.city)
      && (NarrowsToNeighborhood(cfg, norm, table, q) ==> x.neighNorm == norm(q.neighborhood))
      && q.size * (1.0 - cfg.sizeTol) <= x.size <= q.size * (1.0 + cfg.sizeTol)
      && RoomsMatch(cfg, x.rooms, q.rooms)
  {
    var base := LocationRows(cfg, norm, table, q);
    LocationRowsExactly(cfg, norm, table, q, x);
    KeptBySize(cfg, q.size, base, x);
    KeptByRooms(cfg, q.rooms, Where(base, SizeMask(cfg, q.size)), x);
  }

  lemma LocationRowsExactly(cfg: Settings, norm: string -> string, table: seq<Sale>, q: Listing, x: Sale)
    ensures x in LocationRows(cfg, norm, table, q) <==>
      && x in table
      && x.cityNorm == norm(q.city)
      && (NarrowsToNeighborhood(cfg, norm, table, q) ==> x.neighNorm == norm(q.neighborhood))
  {
    NarrowsIffNeighborhoodRows(cfg, norm, table, q);
    var city := CityRows(norm, table, q);
    WhereMember(table, CityIs(norm(q.city)), x);
    WhereMember(city, NeighborhoodIs(norm(q.neighborhood)), x);
  }

  lemma KeptBySize(cfg: Settings, size: real, s: seq<Sale>, x: Sale)
    ensures x in Where(s, SizeMask(cfg, size)) <==>
      x in s && size * (1.0 - cfg.sizeTol) <= x.size <= size * (1.0 + cfg.sizeTol)
  {
    SizeMaskIsBand(cfg, size, x);
    WhereMember(s, SizeMask(cfg, size), x);
  }

  lemma KeptByRooms(cfg: Settings, rooms: real, s: seq<Sale>, x: Sale)
    ensures x in Where(s, RoomsMask(cfg, rooms)) <==> x in s && RoomsMatch(cfg, x.rooms, rooms)
  {
    RoomsMaskMatches(cfg, rooms, x);
    WhereMember(s, RoomsMask(cfg, rooms), x);
  }

  lemma NarrowsIffNeighborhoodRows(cfg: Settings, norm: string -> string, table: seq<Sale>, q: Listing)
    ensures var sub := Where(CityRows(norm, table, q), NeighborhoodIs(norm(q.neighborhood)));
            NarrowsToNeighborhood(cfg, norm, table, q) <==> cfg.requireSameNeighborhood && |sub| >= 1
  {
    var city := CityRows(norm, table, q);
    var sub := Where(city, NeighborhoodIs(norm(q.neighborhood)));
    if |sub| >= 1 {
      assert sub[0] in sub;
      WhereMember(city, NeighborhoodIs(norm(q.neighborhood)), sub[0]);
      WhereMember(table, CityIs(norm(q.city)), sub[0]);
    }
    if NarrowsToNeighborhood(cfg, norm, table, q) {
      var r :| r in table && r.cityNorm == norm(q.city) && r.neighNorm == norm(q.neighborhood);
      WhereMember(table, CityIs(norm(q.city)), r);
      WhereMember(city, NeighborhoodIs(norm(q.neighborhood)), r);
    }
  }

  lemma SizeMaskIsBand(cfg: Settings, size: real, x: Sale)
    ensures Keeps(SizeMask(cfg, size), x) <==> size * (1.0 - cfg.sizeTol) <= x.size <= size * (1.0 + cfg.sizeTol)
  {
  }

  lemma RoomsMaskMatches(cfg: Settings, rooms: real, x: Sale)
    ensures Keeps(RoomsMask(cfg, rooms), x) <==> RoomsMatch(cfg, x.rooms, rooms)
  {
  }

  /** Every kept row satisfies all three filters. */
  lemma MatchFiltersSound(cfg: Settings, norm: string -> string, table: seq<Sale>, q: Listing)
    ensures forall x :: x in MatchFilters(cfg, norm, table, q) ==>
      && x in table
      && x.cityNorm == norm(q.city)
      && q.size * (1.0 - cfg.sizeTol) <= x.size <= q.size * (1.0 + cfg.sizeTol)
      && RoomsMatch(cfg, x.rooms, q.rooms)
  {
    forall x | x in MatchFilters(cfg, norm, table, q)
      ensures x in table && x.cityNorm == norm(q.city)
      ensures q.size * (1.0 - cfg.sizeTol) <= x.size <= q.size * (1.0 + cfg.sizeTol)
      ensures RoomsMatch(cfg, x.rooms, q.rooms)
    {
      MatchFiltersExactly(cfg, norm, table, q, x);
    }
  }

  /**
   * The neighbourhood fallback: when the narrowing applies only rows of the
   * listing's neighbourhood survive; otherwise the result is the city-wide
   * rows that pass the size and room filters.
   */
  lemma NeighborhoodFallback(cfg: Settings, norm: string -> string, table: seq<Sale>, q: Listing)
    ensures NarrowsToNeighborhood(cfg, norm, table, q) ==>
      forall x :: x in MatchFilters(cfg, norm, table, q) ==> x.neighNorm == norm(q.neighborhood)
    ensures !NarrowsToNeighborhood(cfg, norm, table, q) ==>
      MatchFilters(cfg, norm, table, q)
        == Where(Where(CityRows(norm, table, q), SizeMask(cfg, q.size)), RoomsMask(cfg, q.rooms))
  {
    forall x | x in MatchFilters(cfg, norm, table, q) && NarrowsToNeighborhood(cfg, norm, table, q)
      ensures x.neighNorm == norm(q.neighborhood)
    {
      MatchFiltersExactly(cfg, norm, table, q, x);
    }
    NarrowsIffNeighborhoodRows(cfg, norm, table, q);
  }

  /**
   * The fallback is decided before the size filter: a neighbourhood row of
   * the wrong size suppresses the city-wide rows, so the result is empty
   * although a city-wide row passes every other filter.
   */
  lemma FallbackPrecedesSizeFilter()
    ensures var near := Sale(1, Some(0), "haifa", "hadar", 120.0, Some(3.0), Some(1.0), Some(1.0));
            var far := Sale(2, Some(0), "haifa", "carmel", 70.0, Some(3.0), Some(1.0), Some(1.0));
            var q := Listing("haifa", "hadar", 3.0, 70.0, 1.0);
            var id := (s: string) => s;
            && MatchFilters(Defaults, id, [near, far], q) == []
            && MatchFilters(Defaults, id, [far], q) == [far]
  {
    var near := Sale(1, Some(0), "haifa", "hadar", 120.0, Some(3.0), Some(1.0), Some(1.0));
    var far := Sale(2, Some(0), "haifa", "carmel", 70.0, Some(3.0), Some(1.0), Some(1.0));
    var q := Listing("haifa", "hadar", 3.0, 70.0, 1.0);
    var id := (s: string) => s;
    assert [near, far][1..] == [far];
    assert MatchFilters(Defaults, id, [far], q) == [far];
  }

  // ---------------------------------------------------------------------
  // Recent comparables
  // ---------------------------------------------------------------------

  /** The matching rows dated no earlier than RECENT_YEARS·365 days before `today`. */
  function RecentCandidates(cfg: Settings, norm: string -> string, table: seq<Sale>, q: Listing, today: int): seq<Sale> {
    Where(MatchFilters(cfg, norm, table, q), DatedFrom(YearsBack(today, cfg.recentYears)))
  }

  /** How many of `n` newest-first candidates `recent_comps` keeps. */
  function RecentCount(cfg: Settings, n: nat): nat {
    if n >= cfg.recentMax then cfg.recentMax
    else if n >= cfg.recentMin then cfg.recentMin
    else n
  }

  /** `recent_comps`: the candidates newest first, cut to RECENT_MAX or RECENT_MIN rows. */
  function RecentComps(cfg: Settings, norm: string -> string, table: seq<Sale>, q: Listing, today: int): seq<Sale> {
    var cand := NewestFirst(RecentCandidates(cfg, norm, table, q, today));
    Take(cand, RecentCount(cfg, |cand|))
  }

  /**
   * RECENT_MAX rows when at least that many qualify, RECENT_MIN rows when at
   * least RECENT_MIN (but fewer than RECENT_MAX) qualify, all of them
   * otherwise; never more than RECENT_MAX.
   */
  lemma RecentCompsLength(cfg: Settings, norm: string -> string, table: seq<Sale>, q: Listing, today: int)
    ensures var n := |RecentCandidates(cfg, norm, table, q, today)|;
            var r := RecentComps(cfg, norm, table, q, today);
            && (n >= cfg.recentMax ==> |r| == cfg.recentMax)
            && (cfg.recentMin <= n < cfg.recentMax ==> |r| == cfg.recentMin)
            && (n < cfg.recentMin && n < cfg.recentMax ==> |r| == n)
            && |r| <= cfg.recentMax
  {
  }

  /** With the shipped settings, 11 qualifying sales give 10 comparables. */
  lemma RecentCompsElevenGiveTen(norm: string -> string, table: seq<Sale>, q: Listing, today: int)
    requires |RecentCandidates(Defaults, norm, table, q, today)| == 11
    ensures |RecentComps(Defaults, norm, table, q, today)| == 10
  {
  }

  /**
   * The recent set lists matching sales dated on or after the recent cutoff,
   * newest first, and none of them is older than a qualifying sale left out.
   */
  lemma RecentCompsNewest(cfg: Settings, norm: string -> string, table: seq<Sale>, q: Listing, today: int)
    ensures var r := RecentComps(cfg, norm, table, q, today);
            && IsNewestFirst(r)
            && NewestOf(r, RecentCandidates(cfg, norm, table, q, today), |r|)
  {
    var pool := RecentCandidates(cfg, norm, table, q, today);
    var cand := NewestFirst(pool);
    var r := RecentComps(cfg, norm, table, q, today);
    NewestFirstSorted(pool);
    NewestFirstPermutes(pool);
    TakeIsNewestOf(cand, |r|);
    assert r == Take(cand, |r|);
    NewestOfPermutation(r, r, cand, pool, |r|);
  }

  /** Every recent comparable passes the match filters and is dated on or after the recent cutoff. */
  lemma RecentCompsMembers(cfg: Settings, norm: string -> string, table: seq<Sale>, q: Listing, today: int)
    ensures forall x :: x in RecentComps(cfg, norm, table, q, today) ==>
              && x in MatchFilters(cfg, norm, table, q)
              && x.dealDate.Some?
              && x.dealDate.value >= YearsBack(today, cfg.recentYears)
  {
    var pool := RecentCandidates(cfg, norm, table, q, today);
    forall x | x in RecentComps(cfg, norm, table, q, today)
      ensures x in pool
    {
      NewestPrefixWithin(pool, RecentCount(cfg, |NewestFirst(pool)|), x);
    }
    forall x | x in pool
      ensures && x in MatchFilters(cfg, norm, table, q)
              && x.dealDate.Some?
              && x.dealDate.value >= YearsBack(today, cfg.recentYears)
    {
      WhereMember(MatchFilters(cfg, norm, table, q), DatedFrom(YearsBack(today, cfg.recentYears)), x);
    }
  }

  // ---------------------------------------------------------------------
  // Backward time windows
  // ---------------------------------------------------------------------

  /**
   * The window ends the backward walk visits: `end`, `end - span`, ... while
   * the end is still later than `cutoff`. Window `e` holds the dates in
   * `(e - span, e]`.
   */
  function WindowEnds(end: int, cutoff: int, span: int): (es: seq<int>)
    requires span > 0
    decreases if end > cutoff then end - cutoff else 0
  {
    if end <= cutoff then [] else [end] + WindowEnds(end - span, cutoff, span)
  }

  /** The ends start at `end`, step back by `span` and all lie in `(cutoff, end]`. */
  lemma {:induction false} WindowEndsShape(end: int, cutoff: int, span: int)
    requires span > 0
    ensures var es := WindowEnds(end, cutoff, span);
            && (|es| > 0 <==> end > cutoff)
            && (|es| > 0 ==> es[0] == end)
            && (forall i :: 0 < i < |es| ==> es[i] == es[i - 1] - span)
            && (forall e :: e in es ==> cutoff < e <= end)
    decreases if end > cutoff then end - cutoff else 0
  {
    if end > cutoff {
      WindowEndsShape(end - span, cutoff, span);
      var es := WindowEnds(end, cutoff, span);
      var rest := WindowEnds(end - span, cutoff, span);
      assert es == [end] + rest;
      forall i | 1 < i < |es|
        ensures es[i] == es[i - 1] - span
      {
        assert es[i] == rest[i - 1] && es[i - 1] == rest[i - 2];
      }
    }
  }

  /** A date lies in the window of `e`. */
  predicate InWindow(d: int, e: int, span: int) {
    e - span < d <= e
  }

  /** A date lies in some visited window. */
  predicate Covered(d: int, end: int, cutoff: int, span: int)
    requires span > 0
  {
    exists e :: e in WindowEnds(end, cutoff, span) && InWindow(d, e, span)
  }

  /**
   * The visited windows tile the time line: every date later than the
   * cutoff and no later than `end` lies in one of them, and only dates no
   * later than `end` and later than `cutoff - span` are covered.
   */
  lemma {:induction false} WindowsCover(d: int, end: int, cutoff: int, span: int)
    requires span > 0
    ensures cutoff < d <= end ==> Covered(d, end, cutoff, span)
    ensures Covered(d, end, cutoff, span) ==> cutoff - span < d <= end
    decreases if end > cutoff then end - cutoff else 0
  {
    WindowEndsShape(end, cutoff, span);
    if end > cutoff {
      WindowsCover(d, end - span, cutoff, span);
      var rest := WindowEnds(end - span, cutoff, span);
      assert WindowEnds(end, cutoff, span) == [end] + rest;
      if cutoff < d <= end && !InWindow(d, end, span) {
        var e :| e in rest && InWindow(d, e, span);
        assert e in WindowEnds(end, cutoff, span);
      }
      if Covered(d, end, cutoff, span) && !InWindow(d, end, span) {
        var e :| e in WindowEnds(end, cutoff, span) && InWindow(d, e, span);
        assert e in rest;
      }
    }
  }

  /** No date lies in two visited windows. */
  lemma WindowsDisjoint(d: int, e1: int, e2: int, end: int, cutoff: int, span: int)
    requires span > 0
    requires e1 in WindowEnds(end, cutoff, span) && e2 in WindowEnds(end, cutoff, span)
    requires InWindow(d, e1, span) && InWindow(d, e2, span)
    ensures e1 == e2
  {
    if e1 < e2 {
      WindowEndsSpaced(end, cutoff, span, e1, e2);
    } else if e2 < e1 {
      WindowEndsSpaced(end, cutoff, span, e2, e1);
    }
  }

  /** Two distinct visited ends are at least a span apart. */
  lemma {:induction false} WindowEndsSpaced(end: int, cutoff: int, span: int, e1: int, e2: int)
    requires span > 0
    requires e1 in WindowEnds(end, cutoff, span) && e2 in WindowEnds(end, cutoff, span)
    requires e1 < e2
    ensures e1 <= e2 - span
    decreases if end > cutoff then end - cutoff else 0
  {
    WindowEndsShape(end - span, cutoff, span);
    var rest := WindowEnds(end - span, cutoff, span);
    assert WindowEnds(end, cutoff, span) == [end] + rest;
    if e2 != end {
      WindowEndsSpaced(end - span, cutoff, span, e1, e2);
    }
  }

  // ---------------------------------------------------------------------
  // Long-term comparables
  // ---------------------------------------------------------------------

  /** The matching dated rows, newest first, dated on or after the long-term cutoff. */
  function LongtermPool(cfg: Settings, norm: string -> string, table: seq<Sale>, q: Listing, today: int): seq<Sale> {
    DatedSince(MatchFilters(cfg, norm, table, q), YearsBack(today, cfg.longtermYears))
  }

  /** `dropna(subset=['deal_date'])`, newest first, then the rows dated on or after `cutoff`. */
  function DatedSince(rows: seq<Sale>, cutoff: int): seq<Sale> {
    Where(NewestFirst(Where(rows, Dated)), DatedFrom(cutoff))
  }

  /** The `k` newest rows of `pool` in the window of `end`. */
  function WindowPick(pool: seq<Sale>, end: int, span: int, k: nat): seq<Sale> {
    Take(NewestFirst(Where(pool, DatedIn(end - span, end))), k)
  }

  /** The picks of every visited window, newest window first. */
  function WindowPicks(pool: seq<Sale>, end: int, cutoff: int, span: int, k: nat): seq<Sale>
    requires span > 0
    decreases if end > cutoff then end - cutoff else 0
  {
    if end <= cutoff then [] else WindowPick(pool, end, span, k) + WindowPicks(pool, end - span, cutoff, span, k)
  }

  /** `pd.concat(frames)`. */
  function Concat(frames: seq<seq<Sale>>): seq<Sale> {
    if frames == [] then [] else Concat(frames[..|frames| - 1]) + frames[|frames| - 1]
  }

  /** What `longterm_buckets` returns: the window picks, newest first. */
  function LongtermSelection(cfg: Settings, norm: string -> string, table: seq<Sale>, q: Listing, today: int): seq<Sale>
    requires cfg.bucketSpanDays > 0
  {
    var pool := LongtermPool(cfg, norm, table, q, today);
    NewestFirst(WindowPicks(pool, today, YearsBack(today, cfg.longtermYears), Days(cfg.bucketSpanDays), cfg.bucketSamplesPerBucket))
  }

  /**
   * One step of the backward walk: appending the window's picks (or
   * nothing, when the window is empty) moves them from the walk still to do
   * to the frames collected.
   */
  lemma WalkStep(frames: seq<seq<Sale>>, pool: seq<Sale>, end: int, cutoff: int, span: int, k: nat)
    requires span > 0 && end > cutoff
    ensures var rest := WindowPicks(pool, end - span, cutoff, span, k);
            var walk := Concat(frames) + WindowPicks(pool, end, cutoff, span, k);
            && (|Where(pool, DatedIn(end - span, end))| > 0 ==>
                  Concat(frames + [WindowPick(pool, end, span, k)]) + rest == walk)
            && (|Where(pool, DatedIn(end - span, end))| == 0 ==> Concat(frames) + rest == walk)
  {
    var f := WindowPick(pool, end, span, k);
    var rest := WindowPicks(pool, end - span, cutoff, span, k);
    ConcatAppend(frames, f);
    AppendAssociates(Concat(frames), f, rest);
  }

  lemma AppendAssociates(a: seq<Sale>, b: seq<Sale>, c: seq<Sale>)
    ensures (a + b) + c == a + (b + c)
  {
  }

  lemma ConcatAppend(frames: seq<seq<Sale>>, f: seq<Sale>)
    ensures Concat(frames + [f]) == Concat(frames) + f
  {
    assert (frames + [f])[..|frames|] == frames;
  }

  lemma {:induction false} WindowPicksOfEmpty(end: int, cutoff: int, span: int, k: nat)
    requires span > 0
    ensures WindowPicks([], end, cutoff, span, k) == []
    decreases if end > cutoff then end - cutoff else 0
  {
    if end > cutoff {
      WindowPicksOfEmpty(end - span, cutoff, span, k);
    }
  }

  /** `f` is the pick of a visited window of the walk from `end` that holds rows. */
  predicate FrameOf(f: seq<Sale>, pool: seq<Sale>, end: int, cutoff: int, span: int, k: nat)
    requires span > 0
  {
    exists e :: e in WindowEnds(end, cutoff, span) && |Where(pool, DatedIn(e - span, e))| > 0 && f == WindowPick(pool, e, span, k)
  }

  /**
   * The `while bucket_end > cutoff_longterm` walk of `longterm_buckets`:
   * each frame is the `k` newest rows of one visited window that holds
   * rows, so none is empty when `k > 0`, and concatenated the frames are
   * the picks of the walk, newest window first.
   */
  method CollectWindows(cand: seq<Sale>, today: int, cutoff: int, span: int, k: nat) returns (allRows: seq<seq<Sale>>)
    requires span > 0
    ensures Concat(allRows) == WindowPicks(cand, today, cutoff, span, k)
    ensures forall i :: 0 <= i < |allRows| ==> FrameOf(allRows[i], cand, today, cutoff, span, k)
    ensures k > 0 ==> forall i :: 0 <= i < |allRows| ==> |allRows[i]| > 0
  {
    allRows := [];
    var bucketEnd := today;
    while bucketEnd > cutoff
      invariant Concat(allRows) + WindowPicks(cand, bucketEnd, cutoff, span, k) == WindowPicks(cand, today, cutoff, span, k)
      invariant forall e :: e in WindowEnds(bucketEnd, cutoff, span) ==> e in WindowEnds(today, cutoff, span)
      invariant forall i :: 0 <= i < |allRows| ==> FrameOf(allRows[i], cand, today, cutoff, span, k)
      invariant k > 0 ==> forall i :: 0 <= i < |allRows| ==> |allRows[i]| > 0
      decreases bucketEnd - cutoff
    {
      var bucketStart := bucketEnd - span;
      var inBucket := Where(cand, DatedIn(bucketStart, bucketEnd));
      WalkStep(allRows, cand, bucketEnd, cutoff, span, k);
      assert WindowEnds(bucketEnd, cutoff, span) == [bucketEnd] + WindowEnds(bucketStart, cutoff, span);
      if |inBucket| > 0 {
        var picks := Take(NewestFirst(inBucket), k);
        assert FrameOf(picks, cand, today, cutoff, span, k) by {
          assert bucketEnd in WindowEnds(bucketEnd, cutoff, span);
        }
        allRows := allRows + [picks];
      }
      bucketEnd := bucketStart;
    }
  }

  /**
   * `longterm_buckets`: the matching rows dated on or after the long-term
   * cutoff, the newest BUCKET_SAMPLES_PER_BUCKET of each window walking back
   * from `today`, all of them newest first.
   */
  method LongtermBuckets(cfg: Settings, norm: string -> string, table: seq<Sale>, q: Listing, today: int)
    returns (out: seq<Sale>)
    requires cfg.bucketSpanDays > 0
    ensures out == LongtermSelection(cfg, norm, table, q, today)
  {
    var cutoff := YearsBack(today, cfg.longtermYears);
    var span := Days(cfg.bucketSpanDays);
    var k := cfg.bucketSamplesPerBucket;
    var matched := MatchFilters(cfg, norm, table, q);
    if |matched| == 0 {
      WindowPicksOfEmpty(today, cutoff, span, k);
      return [];
    }
    var cand := DatedSince(matched, cutoff);
    if |cand| == 0 {
      WindowPicksOfEmpty(today, cutoff, span, k);
      return [];
    }
    var allRows := CollectWindows(cand, today, cutoff, span, k);
    if |allRows| == 0 {
      return [];
    }
    out := NewestFirst(Concat(allRows));
  }

  /** The ends visited from `end - span` are visited from `end` too, after `end` itself. */
  lemma EndsExtend(end: int, cutoff: int, span: int, e: int)
    requires span > 0 && end > cutoff
    ensures end in WindowEnds(end, cutoff, span)
    ensures e in WindowEnds(end - span, cutoff, span) ==> e in WindowEnds(end, cutoff, span)
  {
    assert WindowEnds(end, cutoff, span) == [end] + WindowEnds(end - span, cutoff, span);
  }

  lemma WindowPicksStep(pool: seq<Sale>, end: int, cutoff: int, span: int, k: nat)
    requires span > 0 && end > cutoff
    ensures WindowPicks(pool, end, cutoff, span, k) == WindowPick(pool, end, span, k) + WindowPicks(pool, end - span, cutoff, span, k)
  {
  }

  /** A row of one window's pick lies in the pool and in that window. */
  lemma PickWithin(pool: seq<Sale>, end: int, span: int, k: nat, x: Sale)
    requires x in WindowPick(pool, end, span, k)
    ensures x in pool && x.dealDate.Some? && InWindow(x.dealDate.value, end, span)
  {
    NewestPrefixWithin(Where(pool, DatedIn(end - span, end)), k, x);
    WhereMember(pool, DatedIn(end - span, end), x);
  }

  /** A picked row comes from the pool, and from the window of a visited end. */
  lemma {:induction false} WindowPicksWithin(pool: seq<Sale>, end: int, cutoff: int, span: int, k: nat, x: Sale)
    requires span > 0
    requires x in WindowPicks(pool, end, cutoff, span, k)
    ensures x in pool && x.dealDate.Some?
    ensures exists e :: e in WindowEnds(end, cutoff, span) && InWindow(x.dealDate.value, e, span)
    decreases if end > cutoff then end - cutoff else 0
  {
    if end > cutoff {
      var here := WindowPick(pool, end, span, k);
      var rest := WindowPicks(pool, end - span, cutoff, span, k);
      WindowPicksStep(pool, end, cutoff, span, k);
      assert x in here + rest;
      if x in here {
        PickWithin(pool, end, span, k, x);
        EndsExtend(end, cutoff, span, end);
        assert end in WindowEnds(end, cutoff, span) && InWindow(x.dealDate.value, end, span);
      } else {
        WindowPicksWithin(pool, end - span, cutoff, span, k, x);
        var e :| e in WindowEnds(end - span, cutoff, span) && InWindow(x.dealDate.value, e, span);
        EndsExtend(end, cutoff, span, e);
        assert e in WindowEnds(end, cutoff, span) && InWindow(x.dealDate.value, e, span);
      }
    }
  }

  /** A visited end other than `end` is visited from `end - span`. */
  lemma EndsSplit(end: int, cutoff: int, span: int, e: int)
    requires span > 0
    requires e in WindowEnds(end, cutoff, span)
    ensures end > cutoff && e <= end
    ensures e != end ==> e in WindowEnds(end - span, cutoff, span) && e <= end - span
  {
    WindowEndsShape(end, cutoff, span);
    WindowEndsShape(end - span, cutoff, span);
    if end > cutoff {
      assert WindowEnds(end, cutoff, span) == [end] + WindowEnds(end - span, cutoff, span);
    }
  }

  /** Every picked row is dated no later than the first window end. */
  lemma PicksNoLaterThan(pool: seq<Sale>, end: int, cutoff: int, span: int, k: nat, x: Sale)
    requires span > 0
    requires x in WindowPicks(pool, end, cutoff, span, k)
    ensures x.dealDate.Some? && x.dealDate.value <= end
  {
    WindowPicksWithin(pool, end, cutoff, span, k, x);
    var e :| e in WindowEnds(end, cutoff, span) && InWindow(x.dealDate.value, e, span);
    EndsSplit(end, cutoff, span, e);
  }

  /** Rows dated no later than `lo` fall in no window `(lo, hi]`. */
  lemma WhereMissesLater(rows: seq<Sale>, lo: int, hi: int)
    requires forall x :: x in rows ==> x.dealDate.Some? && x.dealDate.value <= lo
    ensures Where(rows, DatedIn(lo, hi)) == []
  {
    WhereNone(rows, DatedIn(lo, hi));
  }

  /** No row picked after the window of `end` lies in that window. */
  lemma LaterWindowsMiss(pool: seq<Sale>, end: int, cutoff: int, span: int, k: nat)
    requires span > 0
    ensures Where(WindowPicks(pool, end - span, cutoff, span, k), DatedIn(end - span, end)) == []
  {
    var rest := WindowPicks(pool, end - span, cutoff, span, k);
    forall x | x in rest
      ensures x.dealDate.Some? && x.dealDate.value <= end - span
    {
      PicksNoLaterThan(pool, end - span, cutoff, span, k, x);
    }
    WhereMissesLater(rest, end - span, end);
  }

  /** The rows of a window's pick lie in no later window. */
  lemma PickMissesLater(pool: seq<Sale>, end: int, span: int, k: nat, e: int)
    requires e <= end - span
    ensures Where(WindowPick(pool, end, span, k), DatedIn(e - span, e)) == []
  {
    var here := WindowPick(pool, end, span, k);
    forall x | x in here
      ensures !Keeps(DatedIn(e - span, e), x)
    {
      PickWithin(pool, end, span, k, x);
    }
    WhereNone(here, DatedIn(e - span, e));
  }

  /** A window's pick lies wholly in its window. */
  lemma PickInWindow(pool: seq<Sale>, end: int, span: int, k: nat)
    ensures Where(WindowPick(pool, end, span, k), DatedIn(end - span, end)) == WindowPick(pool, end, span, k)
  {
    var here := WindowPick(pool, end, span, k);
    forall x | x in here
      ensures Keeps(DatedIn(end - span, end), x)
    {
      PickWithin(pool, end, span, k, x);
    }
    WhereAll(here, DatedIn(end - span, end));
  }

  /** Read back one visited window, the picks hold exactly that window's pick. */
  lemma {:induction false} WindowPicksAt(pool: seq<Sale>, end: int, cutoff: int, span: int, k: nat, e: int)
    requires span > 0
    requires e in WindowEnds(end, cutoff, span)
    ensures Where(WindowPicks(pool, end, cutoff, span, k), DatedIn(e - span, e)) == WindowPick(pool, e, span, k)
    decreases if end > cutoff then end - cutoff else 0
  {
    EndsSplit(end, cutoff, span, e);
    var here := Where(WindowPicks(pool, end, cutoff, span, k), DatedIn(e - span, e));
    if e == end {
      FirstWindowAt(pool, e, cutoff, span, k);
      assert here == WindowPick(pool, e, span, k);
    } else {
      var later := Where(WindowPicks(pool, end - span, cutoff, span, k), DatedIn(e - span, e));
      WindowPicksAt(pool, end - span, cutoff, span, k, e);
      LaterWindowAt(pool, end, cutoff, span, k, e);
      assert here == later == WindowPick(pool, e, span, k);
    }
  }

  lemma FirstWindowAt(pool: seq<Sale>, end: int, cutoff: int, span: int, k: nat)
    requires span > 0 && end > cutoff
    ensures Where(WindowPicks(pool, end, cutoff, span, k), DatedIn(end - span, end)) == WindowPick(pool, end, span, k)
  {
    var here := WindowPick(pool, end, span, k);
    var rest := WindowPicks(pool, end - span, cutoff, span, k);
    WindowPicksStep(pool, end, cutoff, span, k);
    PickInWindow(pool, end, span, k);
    LaterWindowsMiss(pool, end, cutoff, span, k);
    WhereConcatFirst(here, rest, DatedIn(end - span, end));
  }

  lemma LaterWindowAt(pool: seq<Sale>, end: int, cutoff: int, span: int, k: nat, e: int)
    requires span > 0 && end > cutoff && e <= end - span
    ensures Where(WindowPicks(pool, end, cutoff, span, k), DatedIn(e - span, e))
         == Where(WindowPicks(pool, end - span, cutoff, span, k), DatedIn(e - span, e))
  {
    var here := WindowPick(pool, end, span, k);
    var rest := WindowPicks(pool, end - span, cutoff, span, k);
    WindowPicksStep(pool, end, cutoff, span, k);
    PickMissesLater(pool, end, span, k, e);
    WhereConcatSecond(here, rest, DatedIn(e - span, e));
  }

  /**
   * Per window, the long-term set holds BUCKET_SAMPLES_PER_BUCKET of the
   * pool's rows in that window (all of them when there are fewer), and none
   * of them is older than a row of that window left out.
   */
  lemma LongtermPerWindow(cfg: Settings, norm: string -> string, table: seq<Sale>, q: Listing, today: int, e: int)
    requires cfg.bucketSpanDays > 0
    requires e in WindowEnds(today, YearsBack(today, cfg.longtermYears), Days(cfg.bucketSpanDays))
    ensures var w := DatedIn(e - Days(cfg.bucketSpanDays), e);
            NewestOf(Where(LongtermSelection(cfg, norm, table, q, today), w),
                     Where(LongtermPool(cfg, norm, table, q, today), w),
                     cfg.bucketSamplesPerBucket)
  {
    var pool := LongtermPool(cfg, norm, table, q, today);
    WindowNewestOf(pool, today, YearsBack(today, cfg.longtermYears), Days(cfg.bucketSpanDays), cfg.bucketSamplesPerBucket, e);
  }

  lemma WindowNewestOf(pool: seq<Sale>, end: int, cutoff: int, span: int, k: nat, e: int)
    requires span > 0
    requires e in WindowEnds(end, cutoff, span)
    ensures NewestOf(Where(NewestFirst(WindowPicks(pool, end, cutoff, span, k)), DatedIn(e - span, e)),
                     Where(pool, DatedIn(e - span, e)), k)
  {
    var picks := WindowPicks(pool, end, cutoff, span, k);
    var w := DatedIn(e - span, e);
    WindowPicksAt(pool, end, cutoff, span, k, e);
    NewestFirstPermutes(picks);
    WherePermutation(NewestFirst(picks), picks, w);
    assert multiset(Where(NewestFirst(picks), w)) == multiset(Take(NewestFirst(Where(pool, w)), k));
    NewestPickIsFirst(Where(pool, w), k, Where(NewestFirst(picks), w));
  }

  /**
   * Every long-term comparable passes the match filters, is dated on or
   * after the long-term cutoff and no later than `today`, and lies in a
   * visited window.
   */
  lemma LongtermRows(cfg: Settings, norm: string -> string, table: seq<Sale>, q: Listing, today: int, x: Sale)
    requires cfg.bucketSpanDays > 0
    requires x in LongtermSelection(cfg, norm, table, q, today)
    ensures x in MatchFilters(cfg, norm, table, q)
    ensures x.dealDate.Some?
    ensures YearsBack(today, cfg.longtermYears) <= x.dealDate.value <= today
    ensures Covered(x.dealDate.value, today, YearsBack(today, cfg.longtermYears), Days(cfg.bucketSpanDays))
  {
    var cutoff := YearsBack(today, cfg.longtermYears);
    var span := Days(cfg.bucketSpanDays);
    var pool := LongtermPool(cfg, norm, table, q, today);
    var picks := WindowPicks(pool, today, cutoff, span, cfg.bucketSamplesPerBucket);
    NewestFirstPermutes(picks);
    assert x in multiset(NewestFirst(picks));
    WindowPicksWithin(pool, today, cutoff, span, cfg.bucketSamplesPerBucket, x);
    WindowsCover(x.dealDate.value, today, cutoff, span);
    PoolRow(cfg, norm, table, q, today, x);
  }

  lemma PoolRow(cfg: Settings, norm: string -> string, table: seq<Sale>, q: Listing, today: int, x: Sale)
    requires x in LongtermPool(cfg, norm, table, q, today)
    ensures x in MatchFilters(cfg, norm, table, q)
    ensures x.dealDate.Some? && x.dealDate.value >= YearsBack(today, cfg.longtermYears)
  {
    DatedSinceRow(MatchFilters(cfg, norm, table, q), YearsBack(today, cfg.longtermYears), x);
  }

  lemma DatedSinceRow(rows: seq<Sale>, cutoff: int, x: Sale)
    requires x in DatedSince(rows, cutoff)
    ensures x in rows && x.dealDate.Some? && x.dealDate.value >= cutoff
  {
    assert DatedSince(rows, cutoff) == Where(Timeline(rows), DatedFrom(cutoff));
    WhereMember(Timeline(rows), DatedFrom(cutoff), x);
    TimelineMembers(rows, x);
  }

  /** The long-term set is ordered newest first. */
  lemma LongtermSorted(cfg: Settings, norm: string -> string, table: seq<Sale>, q: Listing, today: int)
    requires cfg.bucketSpanDays > 0
    ensures IsNewestFirst(LongtermSelection(cfg, norm, table, q, today))
  {
    var pool := LongtermPool(cfg, norm, table, q, today);
    NewestFirstSorted(WindowPicks(pool, today, YearsBack(today, cfg.longtermYears), Days(cfg.bucketSpanDays), cfg.bucketSamplesPerBucket));
  }

  lemma {:induction false} PicksOfNone(pool: seq<Sale>, end: int, cutoff: int, span: int)
    requires span > 0
    ensures WindowPicks(pool, end, cutoff, span, 0) == []
    decreases if end > cutoff then end - cutoff else 0
  {
    if end > cutoff {
      PicksOfNone(pool, end - span, cutoff, span);
    }
  }

  /**
   * The walk picks something exactly when at least one row is to be kept
   * per window and some pool row lies in a visited window.
   */
  lemma PicksNonEmpty(pool: seq<Sale>, end: int, cutoff: int, span: int, k: nat)
    requires span > 0
    ensures |WindowPicks(pool, end, cutoff, span, k)| > 0 <==>
      k >= 1 && exists x :: x in pool && x.dealDate.Some? && Covered(x.dealDate.value, end, cutoff, span)
  {
    var picks := WindowPicks(pool, end, cutoff, span, k);
    if |picks| > 0 {
      if k == 0 {
        PicksOfNone(pool, end, cutoff, span);
      }
      var x := picks[0];
      WindowPicksWithin(pool, end, cutoff, span, k, x);
    }
    if k >= 1 && exists x :: x in pool && x.dealDate.Some? && Covered(x.dealDate.value, end, cutoff, span) {
      var x :| x in pool && x.dealDate.Some? && Covered(x.dealDate.value, end, cutoff, span);
      var e :| e in WindowEnds(end, cutoff, span) && InWindow(x.dealDate.value, e, span);
      var inWindow := Where(pool, DatedIn(e - span, e));
      WhereMember(pool, DatedIn(e - span, e), x);
      WindowPicksAt(pool, end, cutoff, span, k, e);
      assert |Where(picks, DatedIn(e - span, e))| == |Take(NewestFirst(inWindow), k)| >= 1;
    }
  }

  /**
   * The long-term set is empty exactly when no row is kept per window, or
   * no matching row dated on or after the cutoff lies in a visited window;
   * in particular it is not empty when one is kept per window and a
   * matching row is dated after the cutoff and no later than `today`.
   */
  lemma LongtermEmpty(cfg: Settings, norm: string -> string, table: seq<Sale>, q: Listing, today: int)
    requires cfg.bucketSpanDays > 0
    ensures var cutoff := YearsBack(today, cfg.longtermYears);
            var span := Days(cfg.bucketSpanDays);
            var pool := LongtermPool(cfg, norm, table, q, today);
            && (|LongtermSelection(cfg, norm, table, q, today)| == 0 <==>
                  cfg.bucketSamplesPerBucket == 0 ||
                  forall x :: x in pool && x.dealDate.Some? ==> !Covered(x.dealDate.value, today, cutoff, span))
            && (cfg.bucketSamplesPerBucket >= 1 &&
                (exists x :: x in pool && x.dealDate.Some? && cutoff < x.dealDate.value <= today) ==>
                  |LongtermSelection(cfg, norm, table, q, today)| > 0)
  {
    var cutoff := YearsBack(today, cfg.longtermYears);
    var span := Days(cfg.bucketSpanDays);
    var pool := LongtermPool(cfg, norm, table, q, today);
    PicksNonEmpty(pool, today, cutoff, span, cfg.bucketSamplesPerBucket);
    if exists x :: x in pool && x.dealDate.Some? && cutoff < x.dealDate.value <= today {
      var x :| x in pool && x.dealDate.Some? && cutoff < x.dealDate.value <= today;
      WindowsCover(x.dealDate.value, today, cutoff, span);
    }
  }

  // ---------------------------------------------------------------------
  // Per-window summary
  // ---------------------------------------------------------------------

  /** One entry of `longterm_bucket_summary` (dates as instants; formatting them is left out). */
  datatype Bucket = Bucket(
    start: int,
    end: int,
    center: int,
    yearsAgo: real,
    n: nat,
    meanPpsqm: Option<real>,
    meanPrice: Option<real>
  )

  /** `bucket_start + span / 2`; a span of whole days is an even number of seconds, so the half is exact. */
  function Center(start: int, span: int): int {
    start + span / 2
  }

  /** `(today - center).days / 365.25`. */
  function YearsAgo(today: int, center: int): real {
    WholeDays(today - center) as real / 365.25
  }

  /** The entry for the rows of the window `(start, start + span]`. */
  function Summarise(rows: seq<Sale>, start: int, span: int, today: int): Bucket {
    var center := Center(start, span);
    Bucket(start, start + span, center, YearsAgo(today, center), |rows|, MeanOf(Ppsqms(rows)), MeanOf(Prices(rows)))
  }

  /** The entries of the non-empty windows, walking back from `end` while it is later than `cutoff`. */
  function WindowSummaries(df: seq<Sale>, end: int, cutoff: int, span: int, today: int): seq<Bucket>
    requires span > 0
    decreases if end > cutoff then end - cutoff else 0
  {
    if end <= cutoff then [] else WindowEntry(df, end, span, today) + WindowSummaries(df, end - span, cutoff, span, today)
  }

  /** The entry of the window `(end - span, end]`, none when it is empty. */
  function WindowEntry(df: seq<Sale>, end: int, span: int, today: int): seq<Bucket> {
    var inBucket := Where(df, DatedIn(end - span, end));
    if |inBucket| > 0 then [Summarise(inBucket, end - span, span, today)] else []
  }

  /** The dated rows, newest first. */
  function Timeline(rows: seq<Sale>): seq<Sale> {
    NewestFirst(Where(rows, Dated))
  }

  /**
   * What `longterm_bucket_summary` returns: windows of `spanDays` days
   * walking back from one second after the newest deal, down to the
   * long-term cutoff before `today`. No dated row, no entry.
   */
  function BucketSummary(cfg: Settings, rows: seq<Sale>, today: int, spanDays: nat): seq<Bucket>
    requires spanDays > 0
  {
    if |rows| == 0 then []
    else
      match LatestDate(Timeline(rows))
      case None => []
      case Some(d) => WindowSummaries(Timeline(rows), d + 1, YearsBack(today, cfg.longtermYears), Days(spanDays), today)
  }

  /** The walk of `longterm_bucket_summary`, appending one entry per non-empty window. */
  method SummariseWindows(df: seq<Sale>, first: int, cutoff: int, span: int, today: int) returns (out: seq<Bucket>)
    requires span > 0
    ensures out == WindowSummaries(df, first, cutoff, span, today)
  {
    out := [];
    var bucketEnd := first;
    while bucketEnd > cutoff
      invariant out + WindowSummaries(df, bucketEnd, cutoff, span, today) == WindowSummaries(df, first, cutoff, span, today)
      decreases bucketEnd - cutoff
    {
      var bucketStart := bucketEnd - span;
      var inBucket := Where(df, DatedIn(bucketStart, bucketEnd));
      if |inBucket| > 0 {
        var meanPpsqm := MeanOf(Ppsqms(inBucket));
        var meanPrice := MeanOf(Prices(inBucket));
        var center := Center(bucketStart, span);
        var yearsAgo := YearsAgo(today, center);
        var entry := Bucket(bucketStart, bucketEnd, center, yearsAgo, |inBucket|, meanPpsqm, meanPrice);
        SummaryKept(out, df, bucketEnd, cutoff, span, today, entry);
        out := out + [entry];
      } else {
        SummarySkipped(df, bucketEnd, cutoff, span, today);
      }
      bucketEnd := bucketStart;
    }
  }

  lemma SummaryKept(out: seq<Bucket>, df: seq<Sale>, end: int, cutoff: int, span: int, today: int, entry: Bucket)
    requires span > 0 && end > cutoff && |Where(df, DatedIn(end - span, end))| > 0
    requires entry == Bucket(end - span, end, Center(end - span, span), YearsAgo(today, Center(end - span, span)),
                             |Where(df, DatedIn(end - span, end))|,
                             MeanOf(Ppsqms(Where(df, DatedIn(end - span, end)))),
                             MeanOf(Prices(Where(df, DatedIn(end - span, end)))))
    ensures (out + [entry]) + WindowSummaries(df, end - span, cutoff, span, today)
            == out + WindowSummaries(df, end, cutoff, span, today)
  {
    var rest := WindowSummaries(df, end - span, cutoff, span, today);
    assert WindowEntry(df, end, span, today) == [entry];
    assert (out + [entry]) + rest == out + ([entry] + rest);
  }

  lemma SummarySkipped(df: seq<Sale>, end: int, cutoff: int, span: int, today: int)
    requires span > 0 && end > cutoff && |Where(df, DatedIn(end - span, end))| == 0
    ensures WindowSummaries(df, end - span, cutoff, span, today) == WindowSummaries(df, end, cutoff, span, today)
  {
    assert WindowEntry(df, end, span, today) == [];
  }


  /** `longterm_bucket_summary`. */
  method LongtermBucketSummary(cfg: Settings, rows: seq<Sale>, today: int, spanDays: nat) returns (out: seq<Bucket>)
    requires spanDays > 0
    ensures out == BucketSummary(cfg, rows, today, spanDays)
  {
    if |rows| == 0 {
      return [];
    }
    var df := Timeline(rows);
    var latest := LatestDate(df);
    if latest.None? {
      return [];
    }
    var cutoff := YearsBack(today, cfg.longtermYears);
    out := SummariseWindows(df, latest.value + 1, cutoff, Days(spanDays), today);
    assert BucketSummary(cfg, rows, today, spanDays) == WindowSummaries(df, latest.value + 1, cutoff, Days(spanDays), today);
  }

  /** An entry summarises the rows of its own window, and that window is not empty. */
  ghost predicate SummarisesWindow(b: Bucket, df: seq<Sale>, span: int, today: int) {
    && b.n >= 1
    && b == Summarise(Where(df, DatedIn(b.end - span, b.end)), b.end - span, span, today)
  }

  /**
   * Every entry belongs to a visited window and summarises that window's
   * rows: `start` and `end` bound it, `n` counts its rows, the means are
   * over its rows, `center` is half a span after `start`.
   */
  lemma {:induction false} SummaryEntries(df: seq<Sale>, end: int, cutoff: int, span: int, today: int)
    requires span > 0
    ensures forall b :: b in WindowSummaries(df, end, cutoff, span, today) ==>
              b.end in WindowEnds(end, cutoff, span) && SummarisesWindow(b, df, span, today)
    decreases if end > cutoff then end - cutoff else 0
  {
    if end > cutoff {
      SummaryEntries(df, end - span, cutoff, span, today);
      var head := WindowEntry(df, end, span, today);
      var rest := WindowSummaries(df, end - span, cutoff, span, today);
      assert WindowSummaries(df, end, cutoff, span, today) == head + rest;
      assert WindowEnds(end, cutoff, span) == [end] + WindowEnds(end - span, cutoff, span);
      forall b | b in head
        ensures b.end == end && SummarisesWindow(b, df, span, today)
      {
      }
    }
  }

  /** Some row lies in the window ending at `e`. */
  predicate Occupied(df: seq<Sale>, e: int, span: int) {
    |Where(df, DatedIn(e - span, e))| > 0
  }

  /** Every non-empty visited window has its entry. */
  lemma {:induction false} SummaryComplete(df: seq<Sale>, end: int, cutoff: int, span: int, today: int, e: int)
    requires span > 0
    requires e in WindowEnds(end, cutoff, span) && |Where(df, DatedIn(e - span, e))| > 0
    ensures Summarise(Where(df, DatedIn(e - span, e)), e - span, span, today) in WindowSummaries(df, end, cutoff, span, today)
    decreases if end > cutoff then end - cutoff else 0
  {
    var head := WindowEntry(df, end, span, today);
    var rest := WindowSummaries(df, end - span, cutoff, span, today);
    assert WindowSummaries(df, end, cutoff, span, today) == head + rest;
    assert WindowEnds(end, cutoff, span) == [end] + WindowEnds(end - span, cutoff, span);
    if e != end {
      SummaryComplete(df, end - span, cutoff, span, today, e);
    }
  }

  /** Every entry's window is one span wide and ends after the cutoff and no later than `end`. */
  lemma {:induction false} SummaryBounds(df: seq<Sale>, end: int, cutoff: int, span: int, today: int)
    requires span > 0
    ensures forall b :: b in WindowSummaries(df, end, cutoff, span, today) ==>
              b.start == b.end - span && cutoff < b.end <= end
    decreases if end > cutoff then end - cutoff else 0
  {
    if end > cutoff {
      SummaryBounds(df, end - span, cutoff, span, today);
      var head := WindowEntry(df, end, span, today);
      assert WindowSummaries(df, end, cutoff, span, today) == head + WindowSummaries(df, end - span, cutoff, span, today);
      forall b | b in head
        ensures b.start == end - span && b.end == end
      {
      }
    }
  }

  /** Each entry's window ends no later than the previous entry's window starts. */
  predicate Descending(out: seq<Bucket>) {
    forall i, j :: 0 <= i < j < |out| ==> out[j].end <= out[i].start
  }

  lemma PrependDescending(head: seq<Bucket>, rest: seq<Bucket>, bound: int)
    requires |head| <= 1 && (forall b :: b in head ==> b.start == bound)
    requires Descending(rest) && (forall b :: b in rest ==> b.end <= bound)
    ensures Descending(head + rest)
  {
    var out := head + rest;
    forall i, j | 0 <= i < j < |out|
      ensures out[j].end <= out[i].start
    {
      assert out[j] == rest[j - |head|];
      if i < |head| {
        assert out[i] == head[0];
        assert rest[j - |head|] in rest;
      } else {
        assert out[i] == rest[i - |head|];
      }
    }
  }

  /** Entries come newest first and their windows do not overlap. */
  lemma {:induction false} SummaryOrdered(df: seq<Sale>, end: int, cutoff: int, span: int, today: int)
    requires span > 0
    ensures Descending(WindowSummaries(df, end, cutoff, span, today))
    decreases if end > cutoff then end - cutoff else 0
  {
    if end > cutoff {
      SummaryOrdered(df, end - span, cutoff, span, today);
      SummaryBounds(df, end - span, cutoff, span, today);
      var head := WindowEntry(df, end, span, today);
      var rest := WindowSummaries(df, end - span, cutoff, span, today);
      assert WindowSummaries(df, end, cutoff, span, today) == head + rest;
      PrependDescending(head, rest, end - span);
    }
  }

  /** Exactly one entry's window holds the date `d`. */
  ghost predicate CountedOnce(out: seq<Bucket>, d: int) {
    && (exists i :: 0 <= i < |out| && out[i].start < d <= out[i].end)
    && (forall i, j :: 0 <= i < |out| && 0 <= j < |out| && out[i].start < d <= out[i].end && out[j].start < d <= out[j].end ==> i == j)
  }

  /** A dated row whose date lies in a visited window is counted in exactly one entry. */
  lemma SummaryCountsRow(df: seq<Sale>, end: int, cutoff: int, span: int, today: int, x: Sale)
    requires span > 0
    requires x in df && x.dealDate.Some? && Covered(x.dealDate.value, end, cutoff, span)
    ensures CountedOnce(WindowSummaries(df, end, cutoff, span, today), x.dealDate.value)
  {
    var out := WindowSummaries(df, end, cutoff, span, today);
    var e :| e in WindowEnds(end, cutoff, span) && InWindow(x.dealDate.value, e, span);
    var rows := Where(df, DatedIn(e - span, e));
    WhereMember(df, DatedIn(e - span, e), x);
    SummaryComplete(df, end, cutoff, span, today, e);
    var b := Summarise(rows, e - span, span, today);
    var i :| 0 <= i < |out| && out[i] == b;
    assert out[i].start == e - span && out[i].end == e;
    SummaryOrdered(df, end, cutoff, span, today);
  }

  /** An empty table, or one with no dated row, has no entry. */
  lemma BucketSummaryEmpty(cfg: Settings, rows: seq<Sale>, today: int, spanDays: nat)
    requires spanDays > 0
    requires forall x :: x in rows ==> x.dealDate.None?
    ensures BucketSummary(cfg, rows, today, spanDays) == []
  {
    var df := Timeline(rows);
    forall x | x in df
      ensures x.dealDate.None?
    {
      TimelineMembers(rows, x);
    }
    LatestDateIs(df);
  }

  /** The timeline holds exactly the dated rows. */
  lemma TimelineMembers(rows: seq<Sale>, x: Sale)
    ensures x in Timeline(rows) <==> x in rows && x.dealDate.Some?
  {
    var dated := Where(rows, Dated);
    NewestFirstPermutes(dated);
    assert multiset(Timeline(rows)) == multiset(dated);
    assert x in Timeline(rows) <==> x in multiset(Timeline(rows));
    assert x in dated <==> x in multiset(dated);
    WhereMember(rows, Dated, x);
  }

  /** Every entry is later than the cutoff and summarises its own non-empty window. */
  ghost predicate EntriesSummarise(out: seq<Bucket>, df: seq<Sale>, cutoff: int, span: int, today: int) {
    forall b :: b in out ==> b.end > cutoff && SummarisesWindow(b, df, span, today)
  }

  /** Every non-empty window visited from `first` has its entry. */
  ghost predicate SummarisesAll(out: seq<Bucket>, df: seq<Sale>, first: int, cutoff: int, span: int, today: int)
    requires span > 0
  {
    forall e :: e in WindowEnds(first, cutoff, span) && Occupied(df, e, span) ==>
      Summarise(Where(df, DatedIn(e - span, e)), e - span, span, today) in out
  }

  /**
   * The walk from one second after the newest date: entries newest first
   * with non-overlapping windows, each summarising a non-empty window later
   * than the cutoff, and every non-empty visited window summarised.
   */
  lemma SummaryWalkShape(df: seq<Sale>, cutoff: int, span: int, today: int)
    requires span > 0 && LatestDate(df).Some?
    ensures var first := LatestDate(df).value + 1;
            var out := WindowSummaries(df, first, cutoff, span, today);
            Descending(out) && EntriesSummarise(out, df, cutoff, span, today) && SummarisesAll(out, df, first, cutoff, span, today)
  {
    var first := LatestDate(df).value + 1;
    SummaryOrdered(df, first, cutoff, span, today);
    SummaryEntriesHold(df, first, cutoff, span, today);
    SummaryAllHold(df, first, cutoff, span, today);
  }

  lemma SummaryEntriesHold(df: seq<Sale>, first: int, cutoff: int, span: int, today: int)
    requires span > 0
    ensures EntriesSummarise(WindowSummaries(df, first, cutoff, span, today), df, cutoff, span, today)
  {
    SummaryEntries(df, first, cutoff, span, today);
    SummaryBounds(df, first, cutoff, span, today);
  }

  lemma SummaryAllHold(df: seq<Sale>, first: int, cutoff: int, span: int, today: int)
    requires span > 0
    ensures SummarisesAll(WindowSummaries(df, first, cutoff, span, today), df, first, cutoff, span, today)
  {
    forall e | e in WindowEnds(first, cutoff, span) && Occupied(df, e, span)
      ensures Summarise(Where(df, DatedIn(e - span, e)), e - span, span, today) in WindowSummaries(df, first, cutoff, span, today)
    {
      SummaryComplete(df, first, cutoff, span, today, e);
    }
  }

  /**
   * The first window ends one second after the newest deal, so when that
   * deal is no earlier than the cutoff and a window is longer than a
   * second (a window is whole days), the deal is counted in the first entry.
   */
  lemma SummaryWalkCountsNewest(df: seq<Sale>, cutoff: int, span: int, today: int, x: Sale)
    requires span > 1
    requires x in df && x.dealDate.Some? && LatestDate(df) == x.dealDate && x.dealDate.value >= cutoff
    ensures var out := WindowSummaries(df, LatestDate(df).value + 1, cutoff, span, today);
            |out| > 0 && out[0].end == x.dealDate.value + 1 && out[0].start < x.dealDate.value <= out[0].end
  {
    var first := LatestDate(df).value + 1;
    NewestInFirstWindow(df, first, span, x);
    FirstEntry(df, first, cutoff, span, today);
  }

  /** An occupied first window gives the first entry, ending at `first`. */
  lemma FirstEntry(df: seq<Sale>, first: int, cutoff: int, span: int, today: int)
    requires span > 0 && first > cutoff && Occupied(df, first, span)
    ensures var out := WindowSummaries(df, first, cutoff, span, today);
            |out| > 0 && out[0].start == first - span && out[0].end == first
  {
    var inBucket := Where(df, DatedIn(first - span, first));
    var b := Summarise(inBucket, first - span, span, today);
    assert WindowEntry(df, first, span, today) == [b];
    var out := WindowSummaries(df, first, cutoff, span, today);
    assert out == [b] + WindowSummaries(df, first - span, cutoff, span, today);
    assert out[0] == b;
  }

  lemma NewestInFirstWindow(df: seq<Sale>, first: int, span: int, x: Sale)
    requires span > 1 && x in df && x.dealDate == Some(first - 1)
    ensures x in Where(df, DatedIn(first - span, first)) && Occupied(df, first, span)
  {
    assert Keeps(DatedIn(first - span, first), x);
    WhereMember(df, DatedIn(first - span, first), x);
  }

  /** Every dated row whose date lies in a visited window is counted in exactly one entry. */
  lemma SummaryWalkCountsRows(df: seq<Sale>, cutoff: int, span: int, today: int, x: Sale)
    requires span > 0
    requires x in df && x.dealDate.Some? && LatestDate(df).Some?
    requires Covered(x.dealDate.value, LatestDate(df).value + 1, cutoff, span)
    ensures CountedOnce(WindowSummaries(df, LatestDate(df).value + 1, cutoff, span, today), x.dealDate.value)
  {
    SummaryCountsRow(df, LatestDate(df).value + 1, cutoff, span, today, x);
  }
}
