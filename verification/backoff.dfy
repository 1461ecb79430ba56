/** Exponential backoff: the delay arithmetic and the configuration that feeds it. */
module Backoff {
  import opened Common

  /** Durations are nanoseconds in a signed 64-bit integer. */
  const DURATION_LIMIT: int := 0x8000_0000_0000_0000
  const SECOND: int := 1_000_000_000

  function Pow(m: real, n: nat): real {
    if n == 0 then 1.0 else m * Pow(m, n - 1)
  }

  /** time.Duration(float64): truncation in range; out of range the result depends on the platform. */
  function ToDuration(x: real, overflow: int): int {
    if x < DURATION_LIMIT as real then x.Floor else overflow
  }

  function Product(base: int, mult: real, count: nat): real {
    base as real * Pow(mult, count)
  }

  predicate InRange(base: int, mult: real, count: nat) {
    Product(base, mult, count) < DURATION_LIMIT as real
  }

  /** The delay of the count-th churn Add. */
  function BackoffDelay(base: int, mult: real, max: int, count: nat, overflow: int): int {
    var d := ToDuration(Product(base, mult, count), overflow);
    if d > max then max else d
  }

  lemma {:induction false} PowAtLeastOne(m: real, n: nat)
    requires m >= 1.0
    ensures Pow(m, n) >= 1.0
  {
    if n > 0 { PowAtLeastOne(m, n - 1); }
  }

  lemma {:induction false} PowMonotone(m: real, i: nat, j: nat)
    requires m >= 1.0 && i <= j
    ensures Pow(m, i) <= Pow(m, j)
  {
    if i < j {
      PowMonotone(m, i, j - 1);
      PowAtLeastOne(m, j - 1);
      assert m * Pow(m, j - 1) >= 1.0 * Pow(m, j - 1);
    }
  }

  /** Bernoulli's inequality. */
  lemma {:induction false} PowLinear(m: real, n: nat)
    requires m >= 1.0
    ensures Pow(m, n) >= 1.0 + n as real * (m - 1.0)
  {
    if n > 0 {
      PowLinear(m, n - 1);
      var p, d := Pow(m, n - 1), m - 1.0;
      PowAtLeastOne(m, n - 1);
      assert d * p >= d * 1.0;
      assert m * p == p + d * p;
      assert n as real * d == (n - 1) as real * d + d;
    }
  }

  lemma ProductMonotone(base: int, mult: real, i: nat, j: nat)
    requires 0 < base && mult >= 1.0 && i <= j
    ensures base as real <= Product(base, mult, i) <= Product(base, mult, j)
  {
    PowAtLeastOne(mult, i);
    PowMonotone(mult, i, j);
    assert base as real * Pow(mult, i) >= base as real * 1.0;
    assert base as real * Pow(mult, j) >= base as real * Pow(mult, i);
  }

  /** The delay lies between base and max exactly when the product fits or the platform's overflow value does no harm. */
  lemma DelayBounds(base: int, mult: real, max: int, count: nat, overflow: int)
    requires 0 < base <= max && mult > 1.0
    ensures base <= BackoffDelay(base, mult, max, count, overflow) <= max <==> InRange(base, mult, count) || overflow >= base
    ensures InRange(base, mult, count) ==>
              BackoffDelay(base, mult, max, count, overflow) ==
                if Product(base, mult, count) >= (max + 1) as real then max else Product(base, mult, count).Floor
  {
    ProductMonotone(base, mult, count, count);
  }

  lemma DelayNondecreasing(base: int, mult: real, max: int, i: nat, j: nat, overflow: int)
    requires 0 < base <= max && mult > 1.0 && i <= j && InRange(base, mult, j)
    ensures BackoffDelay(base, mult, max, i, overflow) <= BackoffDelay(base, mult, max, j, overflow)
  {
    ProductMonotone(base, mult, i, j);
  }

  /** A number of churn Adds after which the delay must have reached max. */
  predicate EnoughAdds(base: int, mult: real, max: int, n: nat) {
    n as real * (mult - 1.0) * base as real >= (max - base) as real
  }

  lemma Scale(b: real, x: real, p: real, rise: real)
    requires b > 0.0 && p >= 1.0 + x && x * b >= rise
    ensures b * p >= b + rise
  {
    var slack := p - 1.0 - x;
    assert b * slack >= 0.0;
    assert p == 1.0 + x + slack;
    assert b * p == b + x * b + b * slack;
  }

  lemma ProductGrowsLinearly(base: int, mult: real, max: int, n: nat)
    requires 0 < base <= max && mult > 1.0 && EnoughAdds(base, mult, max, n)
    ensures Product(base, mult, n) >= max as real
  {
    PowLinear(mult, n);
    Scale(base as real, n as real * (mult - 1.0), Pow(mult, n), (max - base) as real);
  }

  lemma DelayReachesMax(base: int, mult: real, max: int, n: nat, count: nat, overflow: int)
    requires 0 < base <= max && mult > 1.0 && EnoughAdds(base, mult, max, n)
    requires n <= count && InRange(base, mult, count)
    ensures BackoffDelay(base, mult, max, count, overflow) == max
  {
    ProductGrowsLinearly(base, mult, max, n);
    ProductMonotone(base, mult, n, count);
    FloorAtLeast(Product(base, mult, count), max);
  }

  lemma FloorAtLeast(x: real, m: int)
    requires x >= m as real
    ensures x.Floor >= m
  {
  }

  lemma {:induction false} PowSum(m: real, i: nat, j: nat)
    ensures Pow(m, i + j) == Pow(m, i) * Pow(m, j)
  {
    if i > 0 {
      PowSum(m, i - 1, j);
      assert m * (Pow(m, i - 1) * Pow(m, j)) == (m * Pow(m, i - 1)) * Pow(m, j);
    }
  }

  /** With the default settings the 29th churn Add in a row overflows; where that yields a negative number the timer fires at once. */
  lemma DefaultsOverflow()
    ensures !InRange(30 * SECOND, 2.0, 29) && InRange(30 * SECOND, 2.0, 28)
    ensures BackoffDelay(30 * SECOND, 2.0, 300 * SECOND, 29, -DURATION_LIMIT) < 0
  {
    assert Pow(2.0, 7) == 128.0;
    PowSum(2.0, 7, 7);
    PowSum(2.0, 14, 14);
    PowSum(2.0, 1, 28);
  }

  /*---------- From the configuration file to the debouncer ----------*/

  datatype BackoffSettings = BackoffSettings(
    enabled: bool,
    maxDelaySeconds: int,
    multiplier: real,
    churnThreshold: int,
    churnWindowSeconds: int,
    decayResetSeconds: int,
    manualSyncTimeoutSeconds: int
  )

  datatype SyncSettings = SyncSettings(pullIntervalSeconds: int, debounceSeconds: int, backoff: Option<BackoffSettings>)

  const MIN_PULL_INTERVAL_SECONDS := 60

  datatype DebouncerConfig = DebouncerConfig(
    baseDelay: int,
    maxDelay: int,
    backoffEnabled: bool,
    backoffMultiplier: real,
    churnThreshold: int,
    churnWindow: int,
    decayResetDuration: int,
    manualSyncTimeout: int
  )

  const DEFAULTS := DebouncerConfig(30 * SECOND, 300 * SECOND, true, 2.0, 10, 60 * SECOND, 300 * SECOND, 10 * SECOND)

  /** The sync and backoff checks of Validate. */
  predicate Validate(s: SyncSettings) {
    && 0 < s.pullIntervalSeconds && MIN_PULL_INTERVAL_SECONDS <= s.pullIntervalSeconds
    && 0 < s.debounceSeconds <= s.pullIntervalSeconds
    && (s.backoff.Some? ==>
          var b := s.backoff.value;
          && (b.enabled ==>
                && 0 < b.maxDelaySeconds && s.debounceSeconds <= b.maxDelaySeconds
                && b.multiplier > 1.0
                && 0 < b.churnThreshold
                && 0 < b.churnWindowSeconds
                && 0 < b.decayResetSeconds)
          && b.manualSyncTimeoutSeconds >= 0)
  }

  /** time.Duration(n) * time.Second with the wrap-around of 64-bit multiplication. */
  function Seconds(n: int): int {
    (n * SECOND + DURATION_LIMIT) % (2 * DURATION_LIMIT) - DURATION_LIMIT
  }

  function ToDebouncerConfig(s: SyncSettings): Option<DebouncerConfig> {
    match s.backoff
    case None => None
    case Some(b) =>
      Some(DebouncerConfig(
        Seconds(s.debounceSeconds), Seconds(b.maxDelaySeconds), b.enabled, b.multiplier, b.churnThreshold,
        Seconds(b.churnWindowSeconds), Seconds(b.decayResetSeconds),
        if b.manualSyncTimeoutSeconds > 0 then Seconds(b.manualSyncTimeoutSeconds) else 10 * SECOND))
  }

  /** NewAdvanced: every parameter that makes no sense is replaced by its default. */
  function WithDefaults(c: DebouncerConfig): DebouncerConfig {
    DebouncerConfig(
      if c.baseDelay <= 0 then DEFAULTS.baseDelay else c.baseDelay,
      if c.maxDelay <= 0 then DEFAULTS.maxDelay else c.maxDelay,
      c.backoffEnabled,
      if c.backoffMultiplier <= 1.0 then DEFAULTS.backoffMultiplier else c.backoffMultiplier,
      if c.churnThreshold <= 0 then DEFAULTS.churnThreshold else c.churnThreshold,
      if c.churnWindow <= 0 then DEFAULTS.churnWindow else c.churnWindow,
      if c.decayResetDuration <= 0 then DEFAULTS.decayResetDuration else c.decayResetDuration,
      if c.manualSyncTimeout <= 0 then DEFAULTS.manualSyncTimeout else c.manualSyncTimeout)
  }

  /** Each parameter that makes sense is kept on its own, and the others become what the documentation names. */
  lemma DefaultsFillIn(c: DebouncerConfig)
    ensures var w := WithDefaults(c);
            && w.baseDelay == (if c.baseDelay > 0 then c.baseDelay else 30 * SECOND)
            && w.maxDelay == (if c.maxDelay > 0 then c.maxDelay else 5 * 60 * SECOND)
            && w.backoffEnabled == c.backoffEnabled
            && w.backoffMultiplier == (if c.backoffMultiplier > 1.0 then c.backoffMultiplier else 2.0)
            && w.churnThreshold == (if c.churnThreshold > 0 then c.churnThreshold else 10)
            && w.churnWindow == (if c.churnWindow > 0 then c.churnWindow else 60 * SECOND)
            && w.decayResetDuration == (if c.decayResetDuration > 0 then c.decayResetDuration else 5 * 60 * SECOND)
            && w.manualSyncTimeout == (if c.manualSyncTimeout > 0 then c.manualSyncTimeout else 10 * SECOND)
  {
  }

  /** Settings that name the defaults are valid and give the default configuration. */
  lemma DefaultSettings()
    ensures var s := SyncSettings(300, 30, Some(BackoffSettings(true, 300, 2.0, 10, 60, 300, 10)));
            Validate(s) && ToDebouncerConfig(s) == Some(DEFAULTS) && WithDefaults(DEFAULTS) == DEFAULTS
  {
  }

  /** Where validation draws its lines. */
  lemma ValidationBoundaries(s: SyncSettings, b: BackoffSettings)
    requires s == SyncSettings(300, 30, Some(b)) && b == BackoffSettings(true, 300, 2.0, 10, 60, 300, 10)
    ensures Validate(s.(pullIntervalSeconds := 60)) && !Validate(s.(pullIntervalSeconds := 59))
    ensures Validate(s.(debounceSeconds := 300)) && !Validate(s.(debounceSeconds := 301)) && !Validate(s.(debounceSeconds := 0))
    ensures !Validate(s.(debounceSeconds := 31, backoff := Some(b.(maxDelaySeconds := 30))))
    ensures !Validate(s.(backoff := Some(b.(multiplier := 1.0)))) && !Validate(s.(backoff := Some(b.(churnThreshold := 0))))
    ensures !Validate(s.(backoff := Some(b.(churnWindowSeconds := 0)))) && !Validate(s.(backoff := Some(b.(decayResetSeconds := 0))))
    ensures !Validate(s.(backoff := Some(b.(manualSyncTimeoutSeconds := -1)))) && Validate(s.(backoff := None))
    ensures Validate(s.(backoff := Some(b.(enabled := false, multiplier := 0.0, churnThreshold := 0))))
  {
  }

  /** The waiting time for a manual sync arrives as written, ten seconds standing for none. */
  lemma TimeoutSurvives(s: SyncSettings)
    requires Validate(s) && s.backoff.Some? && s.backoff.value.manualSyncTimeoutSeconds < DURATION_LIMIT
    requires Fits(s.backoff.value.manualSyncTimeoutSeconds)
    ensures var n := s.backoff.value.manualSyncTimeoutSeconds;
            WithDefaults(ToDebouncerConfig(s).value).manualSyncTimeout == if n == 0 then 10 * SECOND else n * SECOND
  {
    var n := s.backoff.value.manualSyncTimeoutSeconds;
    if n > 0 { SecondsExact(n); }
  }

  /** The largest number of seconds a duration can hold. */
  const MAX_SECONDS: int := DURATION_LIMIT / SECOND

  predicate Fits(n: int) {
    n <= MAX_SECONDS
  }

  lemma SecondsExact(n: int)
    requires 0 < n < DURATION_LIMIT
    ensures Seconds(n) == n * SECOND <==> Fits(n)
  {
    if Fits(n) {
      assert 0 <= n * SECOND + DURATION_LIMIT < 2 * DURATION_LIMIT;
    } else {
      assert n * SECOND >= DURATION_LIMIT;
      assert Seconds(n) < DURATION_LIMIT;
    }
  }

  /**
   * For a validated configuration with backoff enabled every parameter arrives at the debouncer as
   * written exactly when all numbers of seconds fit a duration, and then base <= max.
   */
  lemma ValidatedConfigSurvives(s: SyncSettings)
    requires Validate(s) && s.backoff.Some? && s.backoff.value.enabled
    requires s.debounceSeconds < DURATION_LIMIT && s.backoff.value.maxDelaySeconds < DURATION_LIMIT
    requires s.backoff.value.churnWindowSeconds < DURATION_LIMIT && s.backoff.value.decayResetSeconds < DURATION_LIMIT
    ensures var b := s.backoff.value;
            var c := ToDebouncerConfig(s).value;
            (c.baseDelay == s.debounceSeconds * SECOND && c.maxDelay == b.maxDelaySeconds * SECOND
             && c.churnWindow == b.churnWindowSeconds * SECOND && c.decayResetDuration == b.decayResetSeconds * SECOND)
            <==> Fits(s.debounceSeconds) && Fits(b.maxDelaySeconds) && Fits(b.churnWindowSeconds) && Fits(b.decayResetSeconds)
    ensures var b := s.backoff.value;
            Fits(b.maxDelaySeconds) && Fits(b.churnWindowSeconds) && Fits(b.decayResetSeconds) ==>
              var c := ToDebouncerConfig(s).value;
              && WithDefaults(c).(manualSyncTimeout := c.manualSyncTimeout) == c
              && 0 < c.baseDelay <= c.maxDelay && c.backoffMultiplier > 1.0
  {
    var b := s.backoff.value;
    SecondsExact(s.debounceSeconds);
    SecondsExact(b.maxDelaySeconds);
    SecondsExact(b.churnWindowSeconds);
    SecondsExact(b.decayResetSeconds);
  }
}
