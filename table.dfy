/**
 * The transactions table the pipeline reads, the listing it evaluates, and
 * the row-wise operations every stage is built from: boolean masks
 * (`df[mask]`), the newest-first ordering (`sort_values('deal_date',
 * ascending=False)`), `head(k)` and column extraction.
 */
module Table {

  import opened Wrappers

  /**
   * One past sale. Cells the loader may leave missing are options: the deal
   * date, the room count, the price and the price per m². The city and
   * neighbourhood are stored already normalised.
   */
  datatype Sale = Sale(
    id: int,
    dealDate: Option<int>,
    cityNorm: string,
    neighNorm: string,
    size: real,
    rooms: Option<real>,
    price: Option<real>,
    ppsqm: Option<real>
  )

  /** The listing under evaluation, as the caller gives it. */
  datatype Listing = Listing(city: string, neighborhood: string, rooms: real, size: real, askingPrice: real)

  /** What the CSV loader guarantees of every row it keeps. */
  predicate CleanRow(r: Sale) {
    && r.dealDate.Some?
    && r.size > 0.0
    && r.price.Some? && r.price.value > 0.0
    && r.ppsqm == Some(r.price.value / r.size)
  }

  predicate Cleaned(table: seq<Sale>) {
    forall r :: r in table ==> CleanRow(r)
  }

  /** The row conditions the pipeline filters by. A missing cell fails every comparison. */
  datatype Mask =
    | CityIs(city: string)
    | NeighborhoodIs(neighborhood: string)
    | SizeBetween(low: real, high: real)
    | RoomsEqual(rooms: real)
    | RoomsBetween(lowRooms: real, highRooms: real)
    | Dated
    | DatedFrom(cutoff: int)
    | DatedIn(start: int, end: int)
    | PpsqmPresent

  predicate Keeps(m: Mask, r: Sale) {
    match m
    case CityIs(c) => r.cityNorm == c
    case NeighborhoodIs(n) => r.neighNorm == n
    case SizeBetween(lo, hi) => lo <= r.size <= hi
    case RoomsEqual(q) => r.rooms == Some(q)
    case RoomsBetween(lo, hi) => r.rooms.Some? && lo <= r.rooms.value <= hi
    case Dated => r.dealDate.Some?
    case DatedFrom(c) => r.dealDate.Some? && r.dealDate.value >= c
    case DatedIn(s, e) => r.dealDate.Some? && s < r.dealDate.value <= e
    case PpsqmPresent => r.ppsqm.Some?
  }

  /** `df[mask]`: the rows that satisfy `m`, in their original order. */
  function Where(s: seq<Sale>, m: Mask): (r: seq<Sale>)
    ensures |r| <= |s|
  {
    if s == [] then [] else (if Keeps(m, s[0]) then [s[0]] else []) + Where(s[1..], m)
  }

  /** A row is kept exactly when it is a row of `s` and satisfies `m`. */
  lemma WhereMember(s: seq<Sale>, m: Mask, x: Sale)
    ensures x in Where(s, m) <==> x in s && Keeps(m, x)
  {
    WhereMembers(s, m);
  }

  /** The rows kept are exactly the rows of `s` that satisfy `m`. */
  lemma {:induction false} WhereMembers(s: seq<Sale>, m: Mask)
    ensures forall x {:trigger x in Where(s, m)} :: x in Where(s, m) <==> x in s && Keeps(m, x)
  {
    if s != [] {
      WhereMembers(s[1..], m);
      assert forall x :: x in s <==> x == s[0] || x in s[1..];
    }
  }

  lemma {:induction false} WhereMultiset(s: seq<Sale>, m: Mask, x: Sale)
    ensures multiset(Where(s, m))[x] == if Keeps(m, x) then multiset(s)[x] else 0
  {
    if s != [] {
      WhereMultiset(s[1..], m, x);
      assert s == [s[0]] + s[1..];
    }
  }

  /** A filtered table holds no row more often than the table does. */
  lemma WhereSubMultiset(s: seq<Sale>, m: Mask)
    ensures multiset(Where(s, m)) <= multiset(s)
  {
    forall x ensures multiset(Where(s, m))[x] <= multiset(s)[x] {
      WhereMultiset(s, m, x);
    }
  }

  /** Filtering commutes with reordering: it sees the rows, not their order. */
  lemma WherePermutation(a: seq<Sale>, b: seq<Sale>, m: Mask)
    requires multiset(a) == multiset(b)
    ensures multiset(Where(a, m)) == multiset(Where(b, m))
    ensures |Where(a, m)| == |Where(b, m)|
  {
    forall x ensures multiset(Where(a, m))[x] == multiset(Where(b, m))[x] {
      WhereMultiset(a, m, x);
      WhereMultiset(b, m, x);
    }
    assert multiset(Where(a, m)) == multiset(Where(b, m));
    assert |Where(a, m)| == |multiset(Where(a, m))| == |multiset(Where(b, m))| == |Where(b, m)|;
  }

  lemma {:induction false} WhereConcat(a: seq<Sale>, b: seq<Sale>, m: Mask)
    ensures Where(a + b, m) == Where(a, m) + Where(b, m)
  {
    if a != [] {
      var head := if Keeps(m, a[0]) then [a[0]] else [];
      WhereConcat(a[1..], b, m);
      assert (a + b)[0] == a[0] && (a + b)[1..] == a[1..] + b;
      assert Where(a + b, m) == head + Where(a[1..] + b, m);
      assert Where(a, m) == head + Where(a[1..], m);
    } else {
      assert a + b == b;
    }
  }

  /** Filtering `a + b` when `b` contributes nothing. */
  lemma WhereConcatFirst(a: seq<Sale>, b: seq<Sale>, m: Mask)
    requires Where(b, m) == []
    ensures Where(a + b, m) == Where(a, m)
  {
    WhereConcat(a, b, m);
  }

  /** Filtering `a + b` when `a` contributes nothing. */
  lemma WhereConcatSecond(a: seq<Sale>, b: seq<Sale>, m: Mask)
    requires Where(a, m) == []
    ensures Where(a + b, m) == Where(b, m)
  {
    WhereConcat(a, b, m);
  }

  lemma {:induction false} WhereAll(s: seq<Sale>, m: Mask)
    requires forall x :: x in s ==> Keeps(m, x)
    ensures Where(s, m) == s
  {
    if s != [] {
      assert s[0] in s;
      assert forall x :: x in s[1..] ==> x in s;
      WhereAll(s[1..], m);
    }
  }

  lemma {:induction false} WhereNone(s: seq<Sale>, m: Mask)
    requires forall x :: x in s ==> !Keeps(m, x)
    ensures Where(s, m) == []
  {
    if s != [] {
      assert s[0] in s;
      assert forall x :: x in s[1..] ==> x in s;
      WhereNone(s[1..], m);
    }
  }

  /** `a` may precede `b` newest first; a row without a date sorts last, as pandas puts NaT. */
  predicate NotOlder(a: Sale, b: Sale) {
    match b.dealDate
    case None => true
    case Some(d) => a.dealDate.Some? && a.dealDate.value >= d
  }

  /** Puts `x` in front of the first row it may precede. */
  function InsertNewest(x: Sale, s: seq<Sale>): (r: seq<Sale>)
    ensures |r| == |s| + 1
  {
    if s == [] then [x]
    else if NotOlder(x, s[0]) then [x] + s
    else [s[0]] + InsertNewest(x, s[1..])
  }

  /**
   * `sort_values('deal_date', ascending=False)`, as an insertion sort; of
   * two rows with the same date the earlier stays first.
   */
  function NewestFirst(s: seq<Sale>): (r: seq<Sale>)
    ensures |r| == |s|
  {
    if s == [] then [] else InsertNewest(s[0], NewestFirst(s[1..]))
  }

  lemma {:induction false} InsertNewestPermutes(x: Sale, s: seq<Sale>)
    ensures multiset(InsertNewest(x, s)) == multiset(s) + multiset{x}
  {
    if s != [] && !NotOlder(x, s[0]) {
      InsertNewestPermutes(x, s[1..]);
      assert s == [s[0]] + s[1..];
    }
  }

  /** Sorting newest first only reorders the rows. */
  lemma {:induction false} NewestFirstPermutes(s: seq<Sale>)
    ensures multiset(NewestFirst(s)) == multiset(s)
  {
    if s != [] {
      NewestFirstPermutes(s[1..]);
      InsertNewestPermutes(s[0], NewestFirst(s[1..]));
      assert s == [s[0]] + s[1..];
    }
  }

  ghost predicate IsNewestFirst(s: seq<Sale>) {
    forall i, j :: 0 <= i < j < |s| ==> NotOlder(s[i], s[j])
  }

  lemma {:induction false} InsertNewestSorted(x: Sale, s: seq<Sale>)
    requires IsNewestFirst(s)
    ensures IsNewestFirst(InsertNewest(x, s))
  {
    if s != [] && !NotOlder(x, s[0]) {
      var t := s[1..];
      InsertNewestSorted(x, t);
      var r := InsertNewest(x, t);
      InsertNewestPermutes(x, t);
      forall k | 0 <= k < |r|
        ensures NotOlder(s[0], r[k])
      {
        assert r[k] in multiset(r);
        if r[k] != x {
          assert r[k] in multiset(t);
          assert r[k] in t;
        }
      }
    }
  }

  lemma {:induction false} NewestFirstSorted(s: seq<Sale>)
    ensures IsNewestFirst(NewestFirst(s))
  {
    if s != [] {
      NewestFirstSorted(s[1..]);
      InsertNewestSorted(s[0], NewestFirst(s[1..]));
    }
  }

  /** `head(k)`: the first `k` rows, or all of them when there are fewer. */
  function Take(s: seq<Sale>, k: nat): (r: seq<Sale>)
    ensures |r| == if k < |s| then k else |s|
    ensures r == s[..|r|]
  {
    if k < |s| then s[..k] else s
  }

  lemma TakeWithin(s: seq<Sale>, k: nat, x: Sale)
    requires x in Take(s, k)
    ensures x in s
  {
    var i :| 0 <= i < |Take(s, k)| && Take(s, k)[i] == x;
    assert s[i] == x;
  }

  /** A newest-first prefix holds rows of the table only. */
  lemma NewestPrefixWithin(s: seq<Sale>, k: nat, x: Sale)
    requires x in Take(NewestFirst(s), k)
    ensures x in s
  {
    TakeWithin(NewestFirst(s), k, x);
    NewestFirstPermutes(s);
    assert x in multiset(NewestFirst(s));
  }

  /**
   * `picks` are `k` rows of `pool` (all of them when there are fewer), and
   * none of them is older than a row left out.
   */
  ghost predicate NewestOf(picks: seq<Sale>, pool: seq<Sale>, k: nat) {
    && multiset(picks) <= multiset(pool)
    && |picks| == (if k < |pool| then k else |pool|)
    && forall x, y :: x in multiset(picks) && y in multiset(pool) - multiset(picks) ==> NotOlder(x, y)
  }

  lemma TakeIsNewestOf(s: seq<Sale>, k: nat)
    requires IsNewestFirst(s)
    ensures NewestOf(Take(s, k), s, k)
  {
    var p := Take(s, k);
    var m := |p|;
    assert s == p + s[m..];
    assert multiset(s) == multiset(p) + multiset(s[m..]);
    forall x, y | x in multiset(p) && y in multiset(s) - multiset(p)
      ensures NotOlder(x, y)
    {
      assert x in p;
      assert y in multiset(s[m..]);
      assert y in s[m..];
      var i :| 0 <= i < m && p[i] == x;
      var j :| 0 <= j < |s| - m && s[m..][j] == y;
      assert s[i] == x && s[m + j] == y;
    }
  }

  /** NewestOf depends on the two multisets only, not on the order of either sequence. */
  lemma NewestOfPermutation(picks: seq<Sale>, picks': seq<Sale>, pool: seq<Sale>, pool': seq<Sale>, k: nat)
    requires NewestOf(picks, pool, k)
    requires multiset(picks') == multiset(picks)
    requires multiset(pool') == multiset(pool)
    ensures NewestOf(picks', pool', k)
  {
    assert |picks'| == |multiset(picks')| == |multiset(picks)| == |picks|;
    assert |pool'| == |multiset(pool')| == |multiset(pool)| == |pool|;
  }

  /** Any reordering of the `k` newest rows of `rows` is a NewestOf them. */
  lemma NewestPickIsFirst(rows: seq<Sale>, k: nat, picks: seq<Sale>)
    requires multiset(picks) == multiset(Take(NewestFirst(rows), k))
    ensures NewestOf(picks, rows, k)
  {
    var sorted := NewestFirst(rows);
    NewestFirstSorted(rows);
    NewestFirstPermutes(rows);
    TakeIsNewestOf(sorted, k);
    NewestOfPermutation(Take(sorted, k), picks, sorted, rows, k);
  }

  /** The `price_per_sqm` column. */
  function Ppsqms(s: seq<Sale>): (c: seq<Option<real>>)
    ensures |c| == |s|
  {
    if s == [] then [] else [s[0].ppsqm] + Ppsqms(s[1..])
  }

  /** The `price_ils` column. */
  function Prices(s: seq<Sale>): (c: seq<Option<real>>)
    ensures |c| == |s|
  {
    if s == [] then [] else [s[0].price] + Prices(s[1..])
  }

  /** `deal_date.max()`: the newest date, missing when no row has one. */
  function LatestDate(s: seq<Sale>): Option<int> {
    if s == [] then None
    else
      var rest := LatestDate(s[1..]);
      match s[0].dealDate
      case None => rest
      case Some(d) => if rest.None? || rest.value <= d then Some(d) else rest
  }

  /** `deal_date.min()`: the oldest date, missing when no row has one. */
  function EarliestDate(s: seq<Sale>): Option<int> {
    if s == [] then None
    else
      var rest := EarliestDate(s[1..]);
      match s[0].dealDate
      case None => rest
      case Some(d) => if rest.None? || d <= rest.value then Some(d) else rest
  }

  /** The latest date is missing exactly when no row is dated; otherwise some row has it and no dated row is later. */
  lemma {:induction false} LatestDateIs(s: seq<Sale>)
    ensures LatestDate(s).None? <==> forall x :: x in s ==> x.dealDate.None?
    ensures LatestDate(s).Some? ==> exists x :: x in s && x.dealDate == LatestDate(s)
    ensures LatestDate(s).Some? ==> forall x :: x in s && x.dealDate.Some? ==> x.dealDate.value <= LatestDate(s).value
  {
    if s != [] {
      LatestDateIs(s[1..]);
      assert forall x :: x in s <==> x == s[0] || x in s[1..];
    }
  }

  /** The earliest date is missing exactly when no row is dated; otherwise some row has it and no dated row is earlier. */
  lemma {:induction false} EarliestDateIs(s: seq<Sale>)
    ensures EarliestDate(s).None? <==> forall x :: x in s ==> x.dealDate.None?
    ensures EarliestDate(s).Some? ==> exists x :: x in s && x.dealDate == EarliestDate(s)
    ensures EarliestDate(s).Some? ==> forall x :: x in s && x.dealDate.Some? ==> EarliestDate(s).value <= x.dealDate.value
  {
    if s != [] {
      EarliestDateIs(s[1..]);
      assert forall x :: x in s <==> x == s[0] || x in s[1..];
    }
  }
}
