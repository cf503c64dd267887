/** Retry and refresh delays of the remote sources, in milliseconds. */
module RemoteDelay {
  import opened Numbers
  import opened LuaHeap
  import opened Decimal

  const MAX_METADATA_DELAY_MS: int := 86400000

  /** Lua integer arithmetic wraps around modulo 2^64. */
  function Wrap64(n: int): (r: int)
    ensures MIN_INTEGER <= r <= MAX_INTEGER
    ensures MIN_INTEGER <= n <= MAX_INTEGER ==> r == n
  {
    (n - MIN_INTEGER) % 0x1_0000_0000_0000_0000 + MIN_INTEGER
  }

  function Pow2(k: nat): (n: nat)
    ensures n >= 1
  {
    if k == 0 then 1 else 2 * Pow2(k - 1)
  }

  // ---- exponential backoff ------------------------------------------------

  /** The delay a failure count asks for. */
  function Backoff(failures: int, minimum: int, maximum: int): int {
    Min(maximum, minimum * Pow2(if failures > 1 then failures - 1 else 0))
  }

  lemma {:induction false} Pow2Grows(j: nat, k: nat)
    requires j <= k
    ensures Pow2(j) <= Pow2(k)
  {
    if j == k {
    } else {
      Pow2Grows(j, k - 1);
    }
  }

  lemma PastMaximum(minimum: int, maximum: int, j: nat, k: nat)
    requires 1 <= minimum && j <= k && minimum * Pow2(j) >= maximum
    ensures minimum * Pow2(k) >= maximum
  {
    Pow2Grows(j, k);
    assert minimum * (Pow2(k) - Pow2(j)) >= 0;
  }

  /** `exponential_delay`: doubling, stopped before a product could pass the maximum. */
  method ExponentialDelay(failures: int, minimum: int, maximum: int) returns (delay: int)
    requires 1 <= minimum <= maximum
    ensures delay == Backoff(failures, minimum, maximum)
  {
    delay := minimum;
    var k := 2;
    while k <= failures
      invariant 2 <= k && (k <= failures + 1 || k == 2)
      invariant delay == minimum * Pow2(k - 2)
      invariant 1 <= delay <= maximum
    {
      if delay >= maximum || delay > maximum / 2 {
        assert minimum * Pow2(k - 1) == 2 * delay;
        PastMaximum(minimum, maximum, k - 1, failures - 1);
        return maximum;
      }
      assert minimum * Pow2(k - 1) == 2 * delay;
      delay := delay * 2;
      k := k + 1;
    }
    delay := Min(delay, maximum);
  }

  /** The first failure waits for the minimum, each further one twice as long, up to the maximum. */
  lemma BackoffDoubles(failures: int, minimum: int, maximum: int)
    requires 1 <= minimum <= maximum
    ensures failures <= 1 ==> Backoff(failures, minimum, maximum) == minimum
    ensures failures >= 1 ==> Backoff(failures + 1, minimum, maximum) == Min(2 * Backoff(failures, minimum, maximum), maximum)
  {
    if failures >= 1 {
      TwiceProduct(minimum, Pow2(failures - 1));
    }
  }

  lemma TwiceProduct(m: int, p: int)
    ensures m * (2 * p) == 2 * (m * p)
  {
  }

  // ---- response metadata ------------------------------------------------------

  datatype Headers = Headers(
    etag: Option<string>,
    retryAfter: Option<string>,
    pollInterval: Option<string>,
    rateLimitRemaining: Option<string>,
    rateLimitReset: Option<string>)

  const NO_HEADERS := Headers(None, None, None, None, None)

  /** A header made of digits only, when the number fits a Lua integer. */
  function ReadSeconds(value: Option<string>): (r: Option<int>)
    ensures r.Some? ==> 0 <= r.value <= MAX_INTEGER
  {
    if value.None? || value.value == "" || !AllDigits(value.value) then None
    else if DigitsValue(value.value) > MAX_INTEGER then None
    else Some(DigitsValue(value.value))
  }

  /** Plain decimal digits and nothing else, up to the largest Lua integer. */
  lemma ReadSecondsMeaning(n: nat, text: string, i: nat)
    ensures ReadSeconds(Some(PrintNat(n))) == if n <= 0x7fff_ffff_ffff_ffff then Some(n) else None
    ensures ReadSeconds(Some(text)).Some? ==> ReadSeconds(Some("0" + text)) == ReadSeconds(Some(text))
    ensures i < |text| && text[i] !in "0123456789" ==> ReadSeconds(Some(text)) == None
    ensures ReadSeconds(Some("")) == None && ReadSeconds(None) == None
  {
    PrintedValue(n);
    if ReadSeconds(Some(text)).Some? {
      LeadingZero(text);
    }
    if i < |text| {
      IsDigitMeaning(text[i]);
    }
  }

  /** The wait a rate-limited response asks for, if its reset lies ahead of `now`. */
  function ResetWait(headers: Headers, now: int): Option<int> {
    if headers.rateLimitRemaining == Some("0") then
      match ReadSeconds(headers.rateLimitReset)
      case Some(reset) => if reset > now then Some(Wrap64(Wrap64(reset - now) * 1000)) else None
      case None => None
    else None
  }

  method FailureDelay(headers: Headers, failures: int, retryMin: int, retryMax: int, now: int) returns (delay: int)
    requires 1 <= retryMin <= retryMax
    ensures delay == FailureWait(headers, failures, retryMin, retryMax, now)
    // The longest wait asked for, up to one day. A reset counts when nothing remains and it lies ahead.
    ensures
      var backoff := Backoff(failures, retryMin, retryMax);
      var after, reset := ReadSeconds(headers.retryAfter), ReadSeconds(headers.rateLimitReset);
      var ahead := headers.rateLimitRemaining == Some("0") && reset.Some? && reset.value > now;
      && (after.None? && !ahead ==> delay == Min(backoff, 86400000))
      && (after.Some? && !ahead && after.value * 1000 <= MAX_INTEGER ==>
            delay == Min(Max(backoff, after.value * 1000), 86400000))
      && (after.None? && ahead && (reset.value - now) * 1000 <= MAX_INTEGER ==>
            delay == Min(Max(backoff, (reset.value - now) * 1000), 86400000))
      && (after.Some? && ahead && after.value * 1000 <= MAX_INTEGER && (reset.value - now) * 1000 <= MAX_INTEGER ==>
            delay == Min(Max(Max(backoff, after.value * 1000), (reset.value - now) * 1000), 86400000))
  {
    delay := ExponentialDelay(failures, retryMin, retryMax);
    var retryAfter := ReadSeconds(headers.retryAfter);
    if retryAfter.Some? {
      delay := Max(delay, Wrap64(retryAfter.value * 1000));
    }
    if headers.rateLimitRemaining == Some("0") {
      var reset := ReadSeconds(headers.rateLimitReset);
      if reset.Some? && reset.value > now {
        delay := Max(delay, Wrap64(Wrap64(reset.value - now) * 1000));
      }
    }
    delay := Min(delay, MAX_METADATA_DELAY_MS);
  }

  /** The longest of the waits asked for, up to one day. */
  ghost function FailureWait(headers: Headers, failures: int, retryMin: int, retryMax: int, now: int): int {
    var backoff := Backoff(failures, retryMin, retryMax);
    var retryAfter := ReadSeconds(headers.retryAfter);
    var reset := ResetWait(headers, now);
    var asked := if retryAfter.Some? then Max(backoff, Wrap64(retryAfter.value * 1000)) else backoff;
    Min(if reset.Some? then Max(asked, reset.value) else asked, MAX_METADATA_DELAY_MS)
  }

  /** With validated limits the delay lies between the backoff and one day. */
  lemma FailureWaitBounds(headers: Headers, failures: int, retryMin: int, retryMax: int, now: int)
    requires 1 <= retryMin <= retryMax <= MAX_METADATA_DELAY_MS
    ensures Backoff(failures, retryMin, retryMax) <= FailureWait(headers, failures, retryMin, retryMax, now) <= MAX_METADATA_DELAY_MS
    ensures FailureWait(headers, failures, retryMin, retryMax, now) >= retryMin
  {
    var k := if failures > 1 then failures - 1 else 0;
    assert AtLeastOnce(retryMin, Pow2(k)) >= retryMin;
  }

  function AtLeastOnce(m: int, p: nat): (r: int)
    requires m >= 1 && p >= 1
    ensures r == m * p && r >= m
  {
    assert m * (p - 1) >= 0;
    m * p
  }

  /** The delay that the response asks for in Retry-After, honoured up to one day. */
  ghost predicate HonoursRetryAfter(headers: Headers, failures: int, retryMin: int, retryMax: int, now: int)
    requires ReadSeconds(headers.retryAfter).Some?
  {
    FailureWait(headers, failures, retryMin, retryMax, now)
      >= Min(ReadSeconds(headers.retryAfter).value * 1000, MAX_METADATA_DELAY_MS)
  }

  /** Retry-After is honoured exactly when its milliseconds fit 64 bits, or the delay
      reaches one day by another way: the wrapped product, the backoff, or the reset. */
  lemma RetryAfterHonouredIff(headers: Headers, failures: int, retryMin: int, retryMax: int, now: int)
    requires 1 <= retryMin <= retryMax <= MAX_METADATA_DELAY_MS && ReadSeconds(headers.retryAfter).Some?
    ensures
      var seconds := ReadSeconds(headers.retryAfter).value;
      HonoursRetryAfter(headers, failures, retryMin, retryMax, now) <==>
        || seconds * 1000 <= MAX_INTEGER
        || Wrap64(seconds * 1000) >= MAX_METADATA_DELAY_MS
        || Backoff(failures, retryMin, retryMax) >= MAX_METADATA_DELAY_MS
        || (ResetWait(headers, now).Some? && ResetWait(headers, now).value >= MAX_METADATA_DELAY_MS)
  {
  }

  /** A concrete Retry-After whose milliseconds wrap to a negative number and are lost. */
  lemma RetryAfterOverflowIsLost(headers: Headers, digits: string)
    requires digits != "" && AllDigits(digits) && DigitsValue(digits) == 9223372036854776
    requires headers.retryAfter == Some(digits) && headers.rateLimitRemaining.None?
    ensures ReadSeconds(headers.retryAfter) == Some(9223372036854776)
    ensures FailureWait(headers, 1, 100, 800, 0) == 100
  {
    assert Wrap64(9223372036854776 * 1000) == -9223372036854775616;
    assert Pow2(0) == 1;
  }

  method SuccessDelay(headers: Headers, intervalMs: int) returns (delay: int)
    ensures delay <= MAX_METADATA_DELAY_MS
    ensures intervalMs <= MAX_METADATA_DELAY_MS ==> intervalMs <= delay
    ensures ReadSeconds(headers.pollInterval).None? ==> delay == Min(intervalMs, MAX_METADATA_DELAY_MS)
    ensures ReadSeconds(headers.pollInterval).Some? && ReadSeconds(headers.pollInterval).value * 1000 <= MAX_INTEGER ==>
      delay == Min(Max(intervalMs, ReadSeconds(headers.pollInterval).value * 1000), MAX_METADATA_DELAY_MS)
    ensures delay == SuccessWait(headers, intervalMs)
  {
    delay := intervalMs;
    var interval := ReadSeconds(headers.pollInterval);
    if interval.Some? {
      delay := Max(delay, Wrap64(interval.value * 1000));
    }
    delay := Min(delay, MAX_METADATA_DELAY_MS);
  }

  ghost function SuccessWait(headers: Headers, intervalMs: int): int {
    var interval := ReadSeconds(headers.pollInterval);
    Min(if interval.Some? then Max(intervalMs, Wrap64(interval.value * 1000)) else intervalMs, MAX_METADATA_DELAY_MS)
  }

  /** The poll interval a server asks for is kept up to one day when it fits 64 bits. */
  lemma SuccessWaitBounds(headers: Headers, intervalMs: int)
    requires 1 <= intervalMs <= MAX_METADATA_DELAY_MS
    ensures intervalMs <= SuccessWait(headers, intervalMs) <= MAX_METADATA_DELAY_MS
    ensures ReadSeconds(headers.pollInterval).Some? && ReadSeconds(headers.pollInterval).value * 1000 <= MAX_INTEGER ==>
      SuccessWait(headers, intervalMs) == Min(Max(intervalMs, ReadSeconds(headers.pollInterval).value * 1000), MAX_METADATA_DELAY_MS)
  {
  }

  /** The poll interval asked for is kept, up to one day, exactly when its milliseconds fit
      64 bits or one day is reached another way. */
  lemma PollIntervalHonouredIff(headers: Headers, intervalMs: int)
    requires ReadSeconds(headers.pollInterval).Some?
    ensures
      var seconds := ReadSeconds(headers.pollInterval).value;
      SuccessWait(headers, intervalMs) >= Min(seconds * 1000, MAX_METADATA_DELAY_MS) <==>
        || seconds * 1000 <= MAX_INTEGER
        || Wrap64(seconds * 1000) >= MAX_METADATA_DELAY_MS
        || intervalMs >= MAX_METADATA_DELAY_MS
  {
  }

  // ---- the clock ------------------------------------------------------------------

  /** `schedule`: the clock counts centiseconds. */
  function Deadline(delayMs: int, nowCentiseconds: int): int
    requires 0 <= delayMs
  {
    nowCentiseconds + (delayMs + 9) / 10
  }

  /** The deadline is never early and less than 10 ms late. */
  lemma DeadlineIsTight(delayMs: int, nowCentiseconds: int)
    requires 0 <= delayMs
    ensures delayMs <= (Deadline(delayMs, nowCentiseconds) - nowCentiseconds) * 10 < delayMs + 10
  {
  }
}
