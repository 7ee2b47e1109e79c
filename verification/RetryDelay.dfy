/** Retry-After arithmetic: GitHub's delay as a 64-bit nanosecond duration, and the whole seconds the
    handler emits from it. */
module RetryDelay {
  import opened Durations
  import opened Wrappers
  import opened GoText
  import opened Forge

  /** The largest whole number of seconds a duration can hold. */
  const MAX_SECONDS: int := 9_223_372_036

  /** 64-bit two's-complement wrap-around. */
  function Wrap(n: int): int64 {
    var m := n % 0x1_0000_0000_0000_0000;
    if m > MAX_INT64 then m - 0x1_0000_0000_0000_0000 else m
  }

  function Saturate(n: int): int64 {
    if n < MIN_INT64 then MIN_INT64 else if n > MAX_INT64 then MAX_INT64 else n
  }

  /** Seconds from year 1, Go's internal zero time, to the Unix epoch. */
  const UNIX_TO_INTERNAL: int := 62_135_596_800

  /** time.Until(time.Unix(reset, 0)): the internal second count wraps, the difference saturates.
      `now` is nanoseconds since the Unix epoch. */
  function Until(reset: int64, now: int): int64 {
    Saturate((Wrap(reset + UNIX_TO_INTERNAL) - UNIX_TO_INTERNAL) * SECOND - now)
  }

  /** retryAfterError: the delay from the two response headers. */
  function GitHubDelay(retryAfter: string, rateLimitReset: string, now: int): int64 {
    match ParseInt(retryAfter)
    case Some(seconds) => if seconds > 0 then Wrap(seconds * SECOND) else ResetDelay(rateLimitReset, now)
    case None => ResetDelay(rateLimitReset, now)
  }

  function ResetDelay(rateLimitReset: string, now: int): int64 {
    match ParseInt(rateLimitReset)
    case Some(reset) => if Until(reset, now) > 0 then Until(reset, now) else MINUTE
    case None => MINUTE
  }

  /** Duration.Round(time.Second) for a positive duration: halves round up, overflow saturates. */
  function RoundToSecond(d: int64): int64
    requires d > 0
  {
    var r := d % SECOND;
    if r + r < SECOND then d - r
    else if d + SECOND - r <= MAX_INT64 then d + SECOND - r
    else MAX_INT64
  }

  /** The number of seconds writeForgeError puts into Retry-After; a delay that is not positive, or
      absent, counts as a minute. */
  function EmittedSeconds(delay: Option<int64>): int {
    var d: int64 := if delay.Some? && delay.value > 0 then delay.value else MINUTE;
    var seconds := RoundToSecond(d) / SECOND;
    if seconds < 1 then 1 else seconds
  }

  /** Every emitted value is a positive number of seconds that fits a duration. */
  lemma EmittedRange(delay: Option<int64>)
    ensures 1 <= EmittedSeconds(delay) <= MAX_SECONDS
  {}

  /** A Retry-After of n seconds from GitHub is re-emitted as n exactly when n seconds fit a 64-bit
      duration; beyond that the multiplication wraps and some other value is emitted. */
  lemma RelayedExactly(n: int64, rateLimitReset: string, now: int)
    requires n > 0
    ensures EmittedSeconds(Some(GitHubDelay(FormatInt(n), rateLimitReset, now))) == n <==> n <= MAX_SECONDS
  {
    ParseFormat(n);
    EmittedRange(Some(GitHubDelay(FormatInt(n), rateLimitReset, now)));
  }

  /** The whole number of seconds nearest to a positive delay, halves up, within 1 and the maximum; a
      minute for any other delay. */
  function NearestSeconds(d: int64): int {
    var nearest := (2 * d + SECOND) / (2 * SECOND);
    if d <= 0 then 60 else if nearest < 1 then 1 else if nearest <= 9_223_372_036 then nearest else 9_223_372_036
  }

  lemma WholeSecondsNearest(n: int)
    requires 0 < n <= 9_223_372_036
    ensures NearestSeconds(n * SECOND) == n
  {}

  /** A delay is emitted rounded to whole seconds; without one a minute is. */
  lemma EmittedRounded(d: int64)
    ensures EmittedSeconds(Some(d)) == NearestSeconds(d) && EmittedSeconds(None) == 60
  {
    var r := d % SECOND;
    assert d == d / SECOND * SECOND + r;
  }

  /** A Retry-After that is a positive number is multiplied modulo 2^64, whatever its size. */
  lemma DelayIsProduct(retryAfter: string, rateLimitReset: string, now: int)
    requires ParseInt(retryAfter).Some? && ParseInt(retryAfter).value > 0
    ensures var seconds := ParseInt(retryAfter).value;
            (GitHubDelay(retryAfter, rateLimitReset, now) - seconds * 1_000_000_000) % 0x1_0000_0000_0000_0000 == 0
  {
    WrapIsCongruent(ParseInt(retryAfter).value * SECOND);
  }

  lemma WrapIsCongruent(n: int)
    ensures (Wrap(n) - n) % 0x1_0000_0000_0000_0000 == 0
  {
    var q := n / 0x1_0000_0000_0000_0000;
    assert n == q * 0x1_0000_0000_0000_0000 + n % 0x1_0000_0000_0000_0000;
    MultipleHasNoRest(if n % 0x1_0000_0000_0000_0000 > MAX_INT64 then -1 - q else -q);
  }

  lemma MultipleHasNoRest(k: int)
    ensures (k * 0x1_0000_0000_0000_0000) % 0x1_0000_0000_0000_0000 == 0
  {}

  /** The emitted seconds are within half a second of a positive delay exactly when the delay is at
      least half a second and at most half a second past the largest whole one. */
  lemma EmittedClosely(d: int64)
    requires d > 0
    ensures var error := EmittedSeconds(Some(d)) * SECOND - d;
            -SECOND <= error + error <= SECOND <==> SECOND <= d + d <= 2 * MAX_SECONDS * SECOND + SECOND
  {}

  /** Without a usable Retry-After, a reset time that is ahead is waited for in full, up to the longest
      duration there is; one that is not ahead counts as a minute. */
  lemma ResetRelayed(retryAfter: string, rateLimitReset: string, now: int)
    requires ParseInt(retryAfter) == None || ParseInt(retryAfter).value <= 0
    requires ParseInt(rateLimitReset).Some? && ParseInt(rateLimitReset).value <= MAX_INT64 - 62_135_596_800
    ensures GitHubDelay(retryAfter, rateLimitReset, now)
         == var wait := ParseInt(rateLimitReset).value * 1_000_000_000 - now;
            if wait <= 0 then 60_000_000_000 else if wait <= MAX_INT64 then wait else MAX_INT64
  {
    var reset := ParseInt(rateLimitReset).value;
    assert Wrap(reset + UNIX_TO_INTERNAL) == reset + UNIX_TO_INTERNAL;
  }

  /** Without either header in usable form the delay is a minute. */
  lemma NothingToRelay(retryAfter: string, rateLimitReset: string, now: int)
    requires ParseInt(retryAfter) == None || ParseInt(retryAfter).value <= 0
    requires ParseInt(rateLimitReset) == None
    ensures GitHubDelay(retryAfter, rateLimitReset, now) == 60_000_000_000
  {}

  /** A reset so large that the second count wraps lands in the past and yields the default minute. */
  lemma ResetWraps(retryAfter: string, rateLimitReset: string, now: int)
    requires ParseInt(retryAfter) == None || ParseInt(retryAfter).value <= 0
    requires ParseInt(rateLimitReset).Some? && ParseInt(rateLimitReset).value > MAX_INT64 - 62_135_596_800 && now >= 0
    ensures GitHubDelay(retryAfter, rateLimitReset, now) == 60_000_000_000
  {
    assert Until(ParseInt(rateLimitReset).value, now) < 0;
  }
}
