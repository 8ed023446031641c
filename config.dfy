/** The matching thresholds and windows of `src/config.py`, as one record passed in. */
module Config {

  /** How room counts are compared: exactly, or within an absolute tolerance. */
  datatype RoomsMode = Exact | Tolerance

  datatype Settings = Settings(
    sizeTol: real,                 // SIZE_TOL: relative size band, both sides
    roomsMode: RoomsMode,          // ROOMS_MATCH_MODE
    roomsTol: real,                // ROOMS_TOL
    requireSameNeighborhood: bool, // REQUIRE_SAME_NEIGHBORHOOD
    recentYears: nat,              // RECENT_YEARS
    recentMin: nat,                // RECENT_MIN
    recentMax: nat,                // RECENT_MAX
    longtermYears: nat,            // LONGTERM_YEARS
    bucketSpanDays: nat,           // BUCKET_SPAN_DAYS
    bucketSamplesPerBucket: nat,   // BUCKET_SAMPLES_PER_BUCKET
    longtermMin: nat,              // LONGTERM_MIN
    marginPct: real                // MARGIN_PCT
  )

  /** The values the repository ships with. */
  const Defaults: Settings := Settings(
    sizeTol := 0.08,
    roomsMode := Exact,
    roomsTol := 0.0,
    requireSameNeighborhood := true,
    recentYears := 2,
    recentMin := 10,
    recentMax := 12,
    longtermYears := 10,
    bucketSpanDays := 720,
    bucketSamplesPerBucket := 5,
    longtermMin := 3,
    marginPct := 0.04
  )
}
