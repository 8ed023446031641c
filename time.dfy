/**
 * Timestamps are whole seconds on one time line (UTC, seconds since
 * 1970-01-01). A `timedelta(days = n)` is `n * 86400` seconds, so the
 * year-based cutoffs and the "one second after the newest deal" window end
 * are exact.
 */
module Time {

  /** `today - timedelta(days = years * 365)`. */
  function YearsBack(today: int, years: nat): (t: int)
    ensures t <= today
    ensures today - t == Days(365 * years)
  {
    today - Days(365 * years)
  }

  /** `timedelta(days = n)` in seconds. */
  function Days(n: int): (t: int)
    ensures n > 0 ==> t > 0
    ensures n >= 0 ==> t >= 0
  {
    n * 86400
  }

  /** `timedelta.days`: the whole days in a duration, rounded down. */
  function WholeDays(seconds: int): (d: int)
    ensures 86400 * d <= seconds < 86400 * d + 86400
  {
    seconds / 86400
  }

  lemma WholeDaysMonotone(a: int, b: int)
    requires a <= b
    ensures WholeDays(a) <= WholeDays(b)
  {
  }

  /**
   * The proleptic Gregorian calendar year of an instant (what pandas'
   * `.dt.year` reads off a timestamp), by the days-to-civil conversion of
   * the Gregorian 400-year cycle.
   */
  function CalendarYear(t: int): int {
    CivilYear(WholeDays(t))
  }

  /** The year of the day `days` after 1970-01-01. */
  function CivilYear(days: int): int {
    var z := days + 719468;
    var era := z / 146097;
    var doe := z - era * 146097;
    var yoe := (doe - doe / 1460 + doe / 36524 - doe / 146096) / 365;
    var doy := doe - (365 * yoe + yoe / 4 - yoe / 100);
    var mp := (5 * doy + 2) / 153;
    var month := if mp < 10 then mp + 3 else mp - 9;
    yoe + era * 400 + (if month <= 2 then 1 else 0)
  }

  /** Leap years of the proleptic Gregorian calendar. */
  predicate Leap(y: int) {
    y % 4 == 0 && (y % 100 != 0 || y % 400 == 0)
  }

  /** Days from 1970-01-01 to 1 January of year `y` (proleptic Gregorian, year 0 included). */
  function YearStart(y: int): int {
    var p := y - 1;
    365 * p + p / 4 - p / 100 + p / 400 - 719162
  }

  /**
   * Days from the start of a 400-year era (1 March of its year 0) to
   * 1 March of its year `y`.
   */
  function EraYearStart(y: int): int {
    365 * y + y / 4 - y / 100 + y / 400
  }

  /** A year has 366 days when it is a leap year and 365 otherwise. */
  lemma YearLength(y: int)
    ensures YearStart(y + 1) - YearStart(y) == if Leap(y) then 366 else 365
  {
    var p := y - 1;
    assert y / 4 - p / 4 == if y % 4 == 0 then 1 else 0;
    assert y / 100 - p / 100 == if y % 100 == 0 then 1 else 0;
    assert y / 400 - p / 400 == if y % 400 == 0 then 1 else 0;
    assert y % 100 == 0 ==> y % 4 == 0;
    assert y % 400 == 0 ==> y % 100 == 0;
  }

  /** 1 January moves strictly forward with the year. */
  lemma {:induction false} YearStartIncreasing(a: int, b: int)
    requires a < b
    ensures YearStart(a) < YearStart(b)
    decreases b - a
  {
    YearLength(a);
    if a + 1 < b {
      YearStartIncreasing(a + 1, b);
    }
  }

  /** The start of year `400 * era + y + 1` is 306 days (March to December) after 1 March of era year `y`. */
  lemma YearStartInEra(era: int, y: int)
    ensures YearStart(400 * era + y + 1) + 719468 == 146097 * era + EraYearStart(y) + 306
  {
    var p := 400 * era + y;
    assert p / 4 == 100 * era + y / 4;
    assert p / 100 == 4 * era + y / 100;
    assert p / 400 == era + y / 400;
  }

  /**
   * Era year `100 * c + 4 * q + s` (century `c`, four-year group `q`, year
   * `s` in its group) starts `36524 * c + 1461 * q + 365 * s` days into the era.
   */
  lemma EraYearParts(c: int, q: int, s: int)
    requires 0 <= c <= 3 && 0 <= q <= 24 && 0 <= s <= 3
    ensures EraYearStart(100 * c + 4 * q + s) == 36524 * c + 1461 * q + 365 * s
  {
    var y := 100 * c + 4 * q + s;
    assert y / 4 == 25 * c + q;
    assert y / 100 == c;
    assert y / 400 == 0;
  }

  /** The era year after it starts 365 days later, 366 when it ends in a 29 February inside its century. */
  lemma EraYearNext(c: int, q: int, s: int)
    requires 0 <= c <= 3 && 0 <= q <= 24 && 0 <= s <= 3
    ensures var y := 100 * c + 4 * q + s;
            EraYearStart(y + 1) >= EraYearStart(y) + 365 + (if s == 3 && q <= 23 then 1 else 0)
  {
    var y := 100 * c + 4 * q + s;
    EraYearParts(c, q, s);
    if s < 3 {
      assert (y + 1) / 4 == 25 * c + q;
      assert (y + 1) / 100 == c;
      assert (y + 1) / 400 == 0;
    } else if q < 24 {
      assert (y + 1) / 4 == 25 * c + q + 1;
      assert (y + 1) / 100 == c;
      assert (y + 1) / 400 == 0;
    } else {
      assert (y + 1) / 4 == 25 * c + 25;
      assert (y + 1) / 100 == c + 1;
      assert (y + 1) / 400 >= 0;
    }
  }

  /** The year-of-era formula on a day given by its parts. */
  lemma YearOfEraParts(c: int, q: int, s: int, k: int)
    requires 0 <= c <= 3 && 0 <= q <= 24 && 0 <= s <= 3 && 0 <= k <= 365
    requires k == 365 ==> s == 3 && q <= 23
    requires 36524 * c + 1461 * q + 365 * s + k <= 146095
    ensures var doe := 36524 * c + 1461 * q + 365 * s + k;
            (doe - doe / 1460 + doe / 36524 - doe / 146096) / 365 == 100 * c + 4 * q + s
  {
    var doe := 36524 * c + 1461 * q + 365 * s + k;
    assert doe / 146096 == 0;
    assert doe / 36524 == c;
    var low := 24 * c + q + 365 * s + k;
    assert doe == 1460 * (25 * c + q) + low;
    assert 0 <= low < 2920;
    var extra := if low >= 1460 then 1 else 0;
    assert doe / 1460 == 25 * c + q + extra;
    assert extra == 1 ==> k >= 1;
    assert doe - doe / 1460 + doe / 36524 - doe / 146096 == 365 * (100 * c + 4 * q + s) + k - extra;
  }

  /**
   * The year-of-era step of the days-to-civil conversion: for day `doe` of
   * a 400-year era, the computed year is the March-based year that holds it.
   */
  lemma YearOfEra(doe: int)
    requires 0 <= doe <= 146096
    ensures var yoe := (doe - doe / 1460 + doe / 36524 - doe / 146096) / 365;
            && 0 <= yoe <= 399
            && EraYearStart(yoe) <= doe < EraYearStart(yoe + 1)
            && doe - EraYearStart(yoe) <= 365
  {
    if doe == 146096 {
      assert (doe - doe / 1460 + doe / 36524 - doe / 146096) / 365 == 399;
      assert EraYearStart(399) == 145731;
      assert EraYearStart(400) == 146097;
    } else {
      var c := doe / 36524;
      var r1 := doe % 36524;
      var q := r1 / 1461;
      var r2 := r1 % 1461;
      var s := if r2 == 1460 then 3 else r2 / 365;
      var k := r2 - 365 * s;
      assert 0 <= c <= 3 && 0 <= q <= 24 && 0 <= s <= 3 && 0 <= k <= 365;
      assert doe == 36524 * c + 1461 * q + 365 * s + k;
      assert k == 365 ==> s == 3 && q <= 23;
      YearOfEraParts(c, q, s, k);
      var y := 100 * c + 4 * q + s;
      assert (doe - doe / 1460 + doe / 36524 - doe / 146096) / 365 == y;
      EraYearParts(c, q, s);
      EraYearNext(c, q, s);
      assert EraYearStart(y) <= doe < EraYearStart(y + 1);
    }
  }

  /**
   * Day `doe` of era `era` lies in calendar year `400 * era + yoe + 1` from
   * day-of-year 306 (1 January) on, and in `400 * era + yoe` before it.
   */
  lemma CivilDay(era: int, doe: int)
    requires 0 <= doe <= 146096
    ensures var yoe := (doe - doe / 1460 + doe / 36524 - doe / 146096) / 365;
            var doy := doe - (365 * yoe + yoe / 4 - yoe / 100);
            var m := 400 * era + yoe;
            && 0 <= doy <= 365
            && (doy >= 306 ==> YearStart(m + 1) + 719468 <= 146097 * era + doe < YearStart(m + 2) + 719468)
            && (doy < 306 ==> YearStart(m) + 719468 <= 146097 * era + doe < YearStart(m + 1) + 719468)
  {
    YearOfEra(doe);
    var yoe := (doe - doe / 1460 + doe / 36524 - doe / 146096) / 365;
    assert 365 * yoe + yoe / 4 - yoe / 100 == EraYearStart(yoe);
    YearStartInEra(era, yoe - 1);
    YearStartInEra(era, yoe);
    YearStartInEra(era, yoe + 1);
    assert EraYearStart(yoe) - EraYearStart(yoe - 1) >= 306;
  }

  /** The year `CivilYear` gives is the one whose 1 January to 31 December holds the day. */
  lemma CivilYearBounds(days: int)
    ensures YearStart(CivilYear(days)) <= days < YearStart(CivilYear(days) + 1)
  {
    var z := days + 719468;
    var era := z / 146097;
    var doe := z - era * 146097;
    CivilDay(era, doe);
    var yoe := (doe - doe / 1460 + doe / 36524 - doe / 146096) / 365;
    var doy := doe - (365 * yoe + yoe / 4 - yoe / 100);
    var mp := (5 * doy + 2) / 153;
    assert mp >= 10 <==> doy >= 306;
    assert mp <= 11;
    var m := 400 * era + yoe;
    if doy >= 306 {
      assert CivilYear(days) == m + 1;
    } else {
      assert CivilYear(days) == m;
    }
  }

  /**
   * `.dt.year`: an instant falls in year `y` exactly when it lies from
   * 1 January of `y` (inclusive) to 1 January of `y + 1` (exclusive).
   */
  lemma CalendarYearExactly(t: int, y: int)
    ensures CalendarYear(t) == y <==> Days(YearStart(y)) <= t < Days(YearStart(y + 1))
  {
    CivilYearBounds(WholeDays(t));
    var c := CalendarYear(t);
    if Days(YearStart(y)) <= t < Days(YearStart(y + 1)) {
      if c < y {
        if c + 1 < y {
          YearStartIncreasing(c + 1, y);
        }
      } else if y < c {
        if y + 1 < c {
          YearStartIncreasing(y + 1, c);
        }
      }
    }
  }

  /** Later instants never fall in an earlier year. */
  lemma CalendarYearMonotone(a: int, b: int)
    requires a <= b
    ensures CalendarYear(a) <= CalendarYear(b)
  {
    CivilYearBounds(WholeDays(a));
    CivilYearBounds(WholeDays(b));
    WholeDaysMonotone(a, b);
    if CalendarYear(b) < CalendarYear(a) {
      if CalendarYear(b) + 1 < CalendarYear(a) {
        YearStartIncreasing(CalendarYear(b) + 1, CalendarYear(a));
      }
    }
  }

  /** 2025-10-24 00:00:00 UTC falls in 2025. */
  lemma CalendarYearExamples()
    ensures CalendarYear(1761264000) == 2025
    ensures YearStart(1970) == 0 && YearStart(2025) == 20089
  {
    var z := WholeDays(1761264000) + 719468;
    assert z == 739853;
    assert z / 146097 == 5;
    var doe := z - 5 * 146097;
    assert doe == 9368;
    assert (doe - doe / 1460 + doe / 36524 - doe / 146096) / 365 == 25;
    assert doe - (365 * 25 + 25 / 4 - 25 / 100) == 237;
    assert (5 * 237 + 2) / 153 == 7;
  }
}
