/** Retry and circuit-breaker settings (remote/config.go) and the backoff between
    attempts (remote/resilience.go). Durations are int64 nanoseconds. */
module Policies {

  const TWO_62 := 0x4000_0000_0000_0000
  const TWO_63 := 0x8000_0000_0000_0000
  const TWO_64 := 0x1_0000_0000_0000_0000

  const MILLISECOND := 1_000_000
  const SECOND := 1_000_000_000

  predicate Int64(x: int) {
    -TWO_63 <= x < TWO_63
  }

  /** What a 64-bit register holds after an operation whose exact result is x. */
  function Wrap64(x: int): int {
    (x + TWO_63) % TWO_64 - TWO_63
  }

  datatype RetryPolicy = RetryPolicy(maxAttempts: int, initialBackoff: int, maxBackoff: int) {
    predicate Valid() {
      && Int64(initialBackoff) && Int64(maxBackoff)
      && 1 <= maxAttempts && 0 < initialBackoff <= maxBackoff
    }
  }

  datatype BreakerPolicy = BreakerPolicy(failureThreshold: int, openDuration: int) {
    predicate Valid() {
      1 <= failureThreshold && 0 < openDuration
    }
  }

  datatype HttpClient = NoClient | FreshClient | Client(id: nat)

  datatype Config = Config(
    baseURL: string,
    serviceCredential: string,
    httpClient: HttpClient,
    requestTimeout: int,
    retry: RetryPolicy,
    breaker: BreakerPolicy)

  function Min(a: int, b: int): int {
    if a <= b then a else b
  }

  function Max(a: int, b: int): int {
    if a <= b then b else a
  }

  /** A setting is kept when it is positive and replaced by its default otherwise. */
  function Positive(value: int, default: int): int {
    if value <= 0 then default else value
  }

  predicate Kept(c: Config, n: Config) {
    n.baseURL == c.baseURL && n.serviceCredential == c.serviceCredential
  }

  /** n is c with defaults filled in, setting by setting and independently of the order of filling. */
  ghost predicate Normalizes(c: Config, n: Config) {
    && Kept(c, n)
    && n.requestTimeout == Positive(c.requestTimeout, 10 * SECOND)
    && n.retry.maxAttempts == Positive(c.retry.maxAttempts, 2)
    && n.retry.initialBackoff == Positive(c.retry.initialBackoff, 50 * MILLISECOND)
    && n.retry.maxBackoff == Max(Positive(c.retry.maxBackoff, 500 * MILLISECOND), n.retry.initialBackoff)
    && n.breaker.failureThreshold == Positive(c.breaker.failureThreshold, 5)
    && n.breaker.openDuration == Positive(c.breaker.openDuration, 5 * SECOND)
    && n.httpClient == (if c.httpClient.NoClient? then FreshClient else c.httpClient)
  }

  method NormalizedConfig(config: Config) returns (c: Config)
    ensures Normalizes(config, c)
  {
    c := config;
    if c.requestTimeout <= 0 {
      c := c.(requestTimeout := 10 * SECOND);
    }
    if c.retry.maxAttempts <= 0 {
      c := c.(retry := c.retry.(maxAttempts := 2));
    }
    if c.retry.initialBackoff <= 0 {
      c := c.(retry := c.retry.(initialBackoff := 50 * MILLISECOND));
    }
    if c.retry.maxBackoff <= 0 {
      c := c.(retry := c.retry.(maxBackoff := 500 * MILLISECOND));
    }
    if c.retry.maxBackoff < c.retry.initialBackoff {
      c := c.(retry := c.retry.(maxBackoff := c.retry.initialBackoff));
    }
    if c.breaker.failureThreshold <= 0 {
      c := c.(breaker := c.breaker.(failureThreshold := 5));
    }
    if c.breaker.openDuration <= 0 {
      c := c.(breaker := c.breaker.(openDuration := 5 * SECOND));
    }
    if c.httpClient.NoClient? {
      c := c.(httpClient := FreshClient);
    }
  }

  /** Normalisation supplies the bounds the breaker and the retry loop rely on, and a second
      normalisation changes nothing. */
  lemma NormalizedIsValidAndStable(c: Config, n: Config, again: Config)
    requires Int64(c.retry.initialBackoff) && Int64(c.retry.maxBackoff)
    requires Normalizes(c, n) && Normalizes(n, again)
    ensures n.retry.Valid() && n.breaker.Valid() && n.requestTimeout > 0
    ensures again == n
    ensures c.retry.Valid() && c.breaker.Valid() ==> n.retry == c.retry && n.breaker == c.breaker
  {
    assert again.retry == n.retry && again.breaker == n.breaker;
  }

  /** A configuration without settings: 10 s, two attempts, backoff from 50 to 500 ms, and five failures
      open the breaker for 5 s. */
  lemma Defaults(c: Config, n: Config)
    requires c.requestTimeout == 0 && c.httpClient == NoClient
    requires c.retry == RetryPolicy(0, 0, 0) && c.breaker == BreakerPolicy(0, 0) && Normalizes(c, n)
    ensures n == Config(c.baseURL, c.serviceCredential, FreshClient, 10_000_000_000,
      RetryPolicy(2, 50_000_000, 500_000_000), BreakerPolicy(5, 5_000_000_000))
  {
  }

  // ---- backoff ----

  /** d * 2^n */
  function Doubled(d: int, n: nat): (r: int)
    ensures d > 0 ==> r >= d
  {
    if n == 0 then d else 2 * Doubled(d, n - 1)
  }

  lemma {:induction false} DoubledCommutes(d: int, n: nat)
    ensures Doubled(2 * d, n) == Doubled(d, n + 1)
  {
    if n == 0 {
    } else {
      DoubledCommutes(d, n - 1);
    }
  }

  lemma {:induction false} DoubledScales(d: int, n: nat)
    ensures Doubled(d, n) == d * Doubled(1, n)
  {
    if n == 0 {
    } else {
      DoubledScales(d, n - 1);
    }
  }

  /** The doubling loop: the delay after n rounds, in 64-bit arithmetic. */
  function DelayAfter(policy: RetryPolicy, n: nat): int {
    if n == 0 then policy.initialBackoff
    else
      var delay := DelayAfter(policy, n - 1);
      if delay >= policy.maxBackoff then delay else Min(Wrap64(delay * 2), policy.maxBackoff)
  }

  lemma {:induction false} DelayStays(policy: RetryPolicy, n: nat, m: nat)
    requires n <= m && DelayAfter(policy, n) >= policy.maxBackoff
    ensures DelayAfter(policy, m) == DelayAfter(policy, n)
    decreases m
  {
    if n == m {
    } else {
      DelayStays(policy, n, m - 1);
    }
  }

  method RetryDelay(policy: RetryPolicy, attempt: int) returns (delay: int)
    ensures delay == DelayAfter(policy, Max(attempt - 1, 0))
  {
    delay := policy.initialBackoff;
    var n := 1;
    while n < attempt && delay < policy.maxBackoff
      invariant 1 <= n <= Max(attempt, 1)
      invariant delay == DelayAfter(policy, n - 1)
    {
      delay := Wrap64(delay * 2);
      if delay > policy.maxBackoff {
        delay := policy.maxBackoff;
      }
      n := n + 1;
    }
    if n < attempt {
      DelayStays(policy, n - 1, attempt - 1);
    }
  }

  /** min(initial * 2^(attempt-1), max) over the mathematical integers. */
  function CappedDoubling(policy: RetryPolicy, attempt: nat): int
    requires attempt >= 1
  {
    Min(Doubled(policy.initialBackoff, attempt - 1), policy.maxBackoff)
  }

  lemma {:induction false} DelayWithoutWrap(policy: RetryPolicy, n: nat)
    requires policy.Valid()
    requires forall k: nat | k < n ::
      Doubled(policy.initialBackoff, k) >= policy.maxBackoff || Doubled(policy.initialBackoff, k) < TWO_62
    ensures DelayAfter(policy, n) == CappedDoubling(policy, n + 1)
  {
    if n == 0 {
    } else {
      DelayWithoutWrap(policy, n - 1);
    }
  }

  /** The first doubling of d that reaches 2^62: the last one that 64 bits can hold. */
  function LastDoubling(d: int): (r: int)
    requires d > 0
    ensures r >= d && r >= TWO_62
    ensures d < TWO_63 ==> r < TWO_63
    decreases TWO_62 - d
  {
    if d >= TWO_62 then d else LastDoubling(2 * d)
  }

  lemma {:induction false} DoublingGap(d: int, k: nat)
    requires d > 0
    ensures Doubled(d, k) < TWO_62 || Doubled(d, k) >= LastDoubling(d)
    decreases k
  {
    if d >= TWO_62 || k == 0 {
    } else {
      DoublingGap(2 * d, k - 1);
      DoubledCommutes(d, k - 1);
    }
  }

  lemma {:induction false} LastDoublingReached(d: int) returns (n: nat)
    requires d > 0
    ensures Doubled(d, n) == LastDoubling(d)
    ensures forall k: nat | k < n :: Doubled(d, k) < TWO_62
    decreases TWO_62 - d
  {
    if d >= TWO_62 {
      n := 0;
    } else {
      var m := LastDoublingReached(2 * d);
      n := m + 1;
      DoubledCommutes(d, m);
      forall k: nat | k < n ensures Doubled(d, k) < TWO_62 {
        if k > 0 {
          DoubledCommutes(d, k - 1);
        }
      }
    }
  }

  ghost predicate ExactBackoff(policy: RetryPolicy) {
    forall n: nat :: DelayAfter(policy, n) == CappedDoubling(policy, n + 1)
  }

  /** The 64-bit loop computes min(initial * 2^(attempt-1), max) on every attempt exactly when the
      maximum does not lie above the first doubling that reaches 2^62. */
  lemma BackoffExactness(policy: RetryPolicy)
    requires policy.Valid()
    ensures ExactBackoff(policy) <==> policy.maxBackoff <= LastDoubling(policy.initialBackoff)
    ensures policy.maxBackoff <= TWO_62 ==> ExactBackoff(policy)
  {
    var d := policy.initialBackoff;
    if policy.maxBackoff <= LastDoubling(d) {
      forall n: nat ensures DelayAfter(policy, n) == CappedDoubling(policy, n + 1) {
        forall k: nat | k < n ensures Doubled(d, k) >= policy.maxBackoff || Doubled(d, k) < TWO_62 {
          DoublingGap(d, k);
        }
        DelayWithoutWrap(policy, n);
      }
    } else {
      var n := LastDoublingReached(d);
      DelayWithoutWrap(policy, n);
      assert DelayAfter(policy, n) == LastDoubling(d);
      assert DelayAfter(policy, n + 1) < 0 < CappedDoubling(policy, n + 2);
    }
  }

  /** An overflowing policy: the delay becomes negative and its timer fires at once. */
  lemma BackoffCanWrap()
    ensures var policy := RetryPolicy(3, TWO_62, TWO_63 - 1);
      policy.Valid() && DelayAfter(policy, 1) == -TWO_63
  {
    var policy := RetryPolicy(3, TWO_62, TWO_63 - 1);
    assert DelayAfter(policy, 0) == TWO_62;
  }

  lemma {:induction false} CappedDoublingMonotone(policy: RetryPolicy, a: nat, b: nat)
    requires policy.Valid() && 1 <= a <= b
    ensures 0 < CappedDoubling(policy, a) <= CappedDoubling(policy, b) <= policy.maxBackoff
    decreases b
  {
    if a == b {
    } else {
      CappedDoublingMonotone(policy, a, b - 1);
    }
  }

  /** The delays are positive, never shrink and stay within the maximum exactly when the maximum does not
      lie above the first doubling that reaches 2^62. */
  lemma BackoffMonotone(policy: RetryPolicy)
    requires policy.Valid()
    ensures
      (forall a: nat, b: nat | a <= b ::
         0 < DelayAfter(policy, a) <= DelayAfter(policy, b) <= policy.maxBackoff) <==>
      policy.maxBackoff <= LastDoubling(policy.initialBackoff)
  {
    var d := policy.initialBackoff;
    if policy.maxBackoff <= LastDoubling(d) {
      BackoffExactness(policy);
      forall a: nat, b: nat | a <= b
        ensures 0 < DelayAfter(policy, a) <= DelayAfter(policy, b) <= policy.maxBackoff
      {
        CappedDoublingMonotone(policy, a + 1, b + 1);
      }
    } else {
      var n := LastDoublingReached(d);
      DelayWithoutWrap(policy, n);
      assert DelayAfter(policy, n) == LastDoubling(d);
      assert DelayAfter(policy, n + 1) < 0;
    }
  }

  /** Time spent waiting by a call that makes the given number of attempts. The timer of a negative delay
      fires at once. */
  function TotalBackoff(policy: RetryPolicy, attempts: nat): (r: int)
    ensures r >= 0
  {
    if attempts <= 1 then 0
    else TotalBackoff(policy, attempts - 1) + Max(DelayAfter(policy, attempts - 2), 0)
  }

  /** For every policy, also one whose doubling wraps: a delay is the capped doubling, unless doubling has
      left the 64-bit range, and never above the maximum. */
  lemma {:induction false} DelayCapped(policy: RetryPolicy, n: nat)
    requires policy.Valid()
    ensures DelayAfter(policy, n) <= policy.maxBackoff
    ensures DelayAfter(policy, n) == CappedDoubling(policy, n + 1) || Doubled(policy.initialBackoff, n) >= TWO_63
  {
    if n == 0 {
    } else {
      DelayCapped(policy, n - 1);
    }
  }

  /** A call with k attempts waits at most min(initial * (2^(k-1) - 1), (k-1) * max). */
  lemma {:induction false} TotalBackoffBound(policy: RetryPolicy, attempts: nat)
    requires policy.Valid() && attempts >= 1
    ensures 0 <= TotalBackoff(policy, attempts)
    ensures TotalBackoff(policy, attempts) <= policy.initialBackoff * (Doubled(1, attempts - 1) - 1)
    ensures TotalBackoff(policy, attempts) <= (attempts - 1) * policy.maxBackoff
  {
    TotalBackoffLinear(policy, attempts);
    DoubledScales(policy.initialBackoff, attempts - 1);
    TimesLess1(policy.initialBackoff, Doubled(1, attempts - 1));
  }

  lemma DelayUncapped(policy: RetryPolicy, n: nat)
    requires policy.Valid() && policy.maxBackoff <= LastDoubling(policy.initialBackoff)
    requires Doubled(policy.initialBackoff, n) <= policy.maxBackoff
    ensures DelayAfter(policy, n) == Doubled(policy.initialBackoff, n)
  {
    BackoffExactness(policy);
    hide DelayAfter, Doubled, LastDoubling;
    assert DelayAfter(policy, n) == CappedDoubling(policy, n + 1);
  }

  /** As long as no delay is cut to the maximum, the first bound is the exact time: initial * 2^(k-1) less
      initial. */
  lemma {:induction false} TotalBackoffExactly(policy: RetryPolicy, attempts: nat)
    requires policy.Valid() && attempts >= 1 && policy.maxBackoff <= LastDoubling(policy.initialBackoff)
    requires attempts >= 2 ==> Doubled(policy.initialBackoff, attempts - 2) <= policy.maxBackoff
    ensures TotalBackoff(policy, attempts) == Doubled(policy.initialBackoff, attempts - 1) - policy.initialBackoff
  {
    hide DelayAfter, LastDoubling;
    if attempts == 1 {
    } else {
      var d := policy.initialBackoff;
      assert attempts > 2 ==> Doubled(d, attempts - 2) == 2 * Doubled(d, attempts - 3);
      assert Doubled(d, attempts - 1) == 2 * Doubled(d, attempts - 2);
      DelayUncapped(policy, attempts - 2);
      TotalBackoffExactly(policy, attempts - 1);
    }
  }

  lemma TimesLess1(a: int, b: int)
    ensures a * (b - 1) == a * b - a
  {
  }

  lemma {:induction false} TotalBackoffLinear(policy: RetryPolicy, attempts: nat)
    requires policy.Valid() && attempts >= 1
    ensures TotalBackoff(policy, attempts) <= Doubled(policy.initialBackoff, attempts - 1) - policy.initialBackoff
    ensures TotalBackoff(policy, attempts) <= (attempts - 1) * policy.maxBackoff
  {
    if attempts == 1 {
    } else {
      TotalBackoffLinear(policy, attempts - 1);
      DelayCapped(policy, attempts - 2);
      assert Max(DelayAfter(policy, attempts - 2), 0) <= Doubled(policy.initialBackoff, attempts - 2);
      assert (attempts - 1) * policy.maxBackoff == (attempts - 2) * policy.maxBackoff + policy.maxBackoff;
    }
  }
}
