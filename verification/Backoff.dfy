/**
 Retry policies and waiting times (`client.go`), over exact reals. Durations are whole nanoseconds, as
 `time.Duration` has them; conversions from floating point truncate.
 */
module Backoff {
  import opened Bytes

  datatype Policy = Policy(maxAttempts: int, initial: int, max: int, multiplier: real, jitter: real)

  const DEFAULT_ATTEMPTS: int := 3
  const DEFAULT_INITIAL: int := 100_000_000
  const DEFAULT_MAX: int := 1_000_000_000
  const DEFAULT_MULTIPLIER: real := 2.0
  const DEFAULT_JITTER: real := 0.2

  predicate Normal(p: Policy) {
    p.maxAttempts >= 1 && 1 <= p.initial <= p.max && p.multiplier >= 1.0 && 0.0 < p.jitter <= 1.0
  }

  /** `normalizeRetryPolicy`: tests on the given values, defaults for zeros, tests on the result. */
  method Normalize(policy: Policy) returns (r: Option<Policy>)
    ensures r.Some? ==> Normal(r.value)
    ensures r == NormalForm(policy)
  {
    if policy.maxAttempts < 0 || policy.initial < 0 || policy.max < 0 || policy.multiplier < 0.0 {
      return None;
    }
    if policy.jitter < 0.0 || policy.jitter > 1.0 {
      return None;
    }
    var p := policy;
    if p.maxAttempts == 0 { p := p.(maxAttempts := DEFAULT_ATTEMPTS); }
    if p.initial == 0 { p := p.(initial := DEFAULT_INITIAL); }
    if p.max == 0 { p := p.(max := DEFAULT_MAX); }
    if p.multiplier == 0.0 { p := p.(multiplier := DEFAULT_MULTIPLIER); }
    if p.jitter == 0.0 { p := p.(jitter := DEFAULT_JITTER); }
    if p.max < p.initial || p.multiplier < 1.0 {
      return None;
    }
    return Some(p);
  }

  function Defaulted(p: Policy): Policy {
    Policy(if p.maxAttempts == 0 then DEFAULT_ATTEMPTS else p.maxAttempts,
           if p.initial == 0 then DEFAULT_INITIAL else p.initial,
           if p.max == 0 then DEFAULT_MAX else p.max,
           if p.multiplier == 0.0 then DEFAULT_MULTIPLIER else p.multiplier,
           if p.jitter == 0.0 then DEFAULT_JITTER else p.jitter)
  }

  /** A policy is usable exactly when it is normal once its zeros are filled in. */
  function NormalForm(p: Policy): Option<Policy> {
    if Normal(Defaulted(p)) then Some(Defaulted(p)) else None
  }

  /**
   What is accepted, in numbers, and what becomes of it: zeros stand for 3 attempts, 0.1 s, 1 s, doubling and 20%
   jitter; nothing may be negative, jitter is at most 1, a multiplier at least 1, MaxBackoff at least InitialBackoff.
   */
  lemma NormalFormIff(p: Policy, q: Policy)
    ensures NormalForm(p) == Some(q) <==>
            && p.maxAttempts >= 0 && p.initial >= 0 && p.max >= 0 && p.multiplier >= 0.0 && 0.0 <= p.jitter <= 1.0
            && (p.multiplier == 0.0 || p.multiplier >= 1.0) && q.initial <= q.max
            && q.maxAttempts == (if p.maxAttempts == 0 then 3 else p.maxAttempts)
            && q.initial == (if p.initial == 0 then 100_000_000 else p.initial)
            && q.max == (if p.max == 0 then 1_000_000_000 else p.max)
            && q.multiplier == (if p.multiplier == 0.0 then 2.0 else p.multiplier)
            && q.jitter == (if p.jitter == 0.0 then 0.2 else p.jitter)
  {
  }

  /** Products, kept apart so that proofs can treat them as atoms. */
  function Times(a: real, b: real): real { a * b }

  lemma TimesMonotone(a: real, b: real, c: real)
    requires a <= b && c >= 0.0
    ensures Times(a, c) <= Times(b, c) && Times(c, a) <= Times(c, b)
  {
  }

  lemma TimesSum(a: real, b: real, c: real)
    ensures Times(a, b + c) == Times(a, b) + Times(a, c) && Times(b + c, a) == Times(b, a) + Times(c, a)
    ensures Times(a, b - c) == Times(a, b) - Times(a, c)
    ensures Times(a, 1.0) == a && Times(1.0, a) == a && Times(0.0, a) == 0.0 && Times(a, 0.0) == 0.0 && Times(a, 2.0) == a + a
  {
  }

  function NextBackoff(current: int, p: Policy): (next: int)
    requires current >= 1
  {
    if current >= p.max then p.max
    else if p.multiplier >= p.max as real / current as real then p.max
    else Times(current as real, p.multiplier).Floor
  }

  /** `rand` is the random number in [0, 1). */
  function Jittered(backoff: int, jitter: real, rand: real): int {
    if jitter <= 0.0 || backoff <= 1 then backoff
    else (Times(backoff as real, 1.0 - jitter) + Times(rand, Times(Times(backoff as real, jitter), 2.0))).Floor
  }

  lemma NextBackoffBounds(current: int, p: Policy)
    requires Normal(p) && p.initial <= current <= p.max
    ensures current <= NextBackoff(current, p) <= p.max
  {
    hide Times;
    if current < p.max && p.multiplier < p.max as real / current as real {
      ScaleUp(current as real, p.multiplier, p.max as real);
    }
  }

  /** The next backoff is the current one times the multiplier, truncated, or MaxBackoff if that is less. */
  lemma NextBackoffIsCapped(current: int, p: Policy)
    requires Normal(p) && p.initial <= current <= p.max
    ensures var product := Times(current as real, p.multiplier).Floor;
            NextBackoff(current, p) == if product < p.max then product else p.max
  {
    hide Times;
    var c, x := current as real, p.max as real;
    if current == p.max {
      TimesSum(c, 0.0, 0.0);
      TimesMonotone(1.0, p.multiplier, c);
    } else if p.multiplier >= x / c {
      Reaches(c, p.multiplier, x);
    } else {
      ScaleUp(c, p.multiplier, x);
    }
  }

  lemma Reaches(c: real, m: real, x: real)
    requires c > 0.0 && m >= x / c
    ensures Times(c, m) >= x
  {
    assert c * m >= c * (x / c);
    assert c * (x / c) == x;
  }

  lemma ScaleUp(c: real, m: real, x: real)
    requires c > 0.0 && 1.0 <= m < x / c
    ensures c <= Times(c, m) < x
  {
    assert c * m < c * (x / c);
    assert c * (x / c) == x;
    assert c * 1.0 <= c * m;
  }

  lemma JitteredBounds(b: int, jitter: real, rand: real)
    requires b >= 0 && 0.0 <= jitter <= 1.0 && 0.0 <= rand < 1.0
    ensures Times(b as real, 1.0 - jitter).Floor <= Jittered(b, jitter, rand)
    ensures Jittered(b, jitter, rand) as real <= Times(b as real, 1.0 + jitter)
  {
    hide Times;
    var r := b as real;
    var x := Times(r, jitter);
    TimesSum(r, 1.0, jitter);
    TimesMonotone(0.0, jitter, r);
    TimesSum(x, 0.0, 0.0);
    TimesMonotone(0.0, rand, x + x);
    TimesMonotone(rand, 1.0, x + x);
    TimesSum(x + x, 0.0, 0.0);
  }

  // ---------------------------------------------------------------- a whole run

  /** The backoff before the k-th retry. */
  function BackoffAt(p: Policy, k: nat): (b: int)
    requires Normal(p)
    ensures p.initial <= b <= p.max
  {
    if k == 0 then p.initial else NextBackoffBounds(BackoffAt(p, k - 1), p); NextBackoff(BackoffAt(p, k - 1), p)
  }

  /** Backoffs never shrink. */
  lemma {:induction false} BackoffGrows(p: Policy, j: nat, k: nat)
    requires Normal(p) && j <= k
    ensures BackoffAt(p, j) <= BackoffAt(p, k)
    decreases k
  {
    if j < k {
      BackoffGrows(p, j, k - 1);
      NextBackoffBounds(BackoffAt(p, k - 1), p);
    }
  }

  /** The first backoff is InitialBackoff, each further one the multiple of the one before, truncated and capped. */
  lemma BackoffRule(p: Policy, k: nat)
    requires Normal(p)
    ensures BackoffAt(p, 0) == p.initial
    ensures var product := (BackoffAt(p, k) as real * p.multiplier).Floor;
            BackoffAt(p, k + 1) == if product < p.max then product else p.max
  {
    hide NextBackoff;
    NextBackoffIsCapped(BackoffAt(p, k), p);
  }

  /** The wait for a backoff: the backoff times 1 + jitter * x for x evenly in [-1, 1), truncated. */
  lemma JitterRule(b: int, jitter: real, rand: real)
    ensures b > 1 && jitter > 0.0 ==> Jittered(b, jitter, rand) == (b as real * (1.0 + jitter * (2.0 * rand - 1.0))).Floor
    ensures b <= 1 || jitter <= 0.0 ==> Jittered(b, jitter, rand) == b
  {
    SpreadOut(b as real, jitter, rand);
  }

  lemma SpreadOut(b: real, j: real, r: real)
    ensures Times(b, 1.0 - j) + Times(r, Times(Times(b, j), 2.0)) == b * (1.0 + j * (2.0 * r - 1.0))
  {
    var x := b * j;
    assert Times(b, 1.0 - j) == b - x;
    assert Times(r, Times(Times(b, j), 2.0)) == 2.0 * (r * x);
    Associate(b, j, 2.0 * r - 1.0);
    assert b * (1.0 + j * (2.0 * r - 1.0)) == b + b * (j * (2.0 * r - 1.0));
    assert x * (2.0 * r - 1.0) == 2.0 * (r * x) - x;
  }

  lemma Associate(a: real, b: real, c: real)
    ensures a * (b * c) == (a * b) * c
  {
  }

  function Sum(ws: seq<int>): int { if ws == [] then 0 else Sum(ws[..|ws| - 1]) + ws[|ws| - 1] }

  /** `waits` are the jittered backoffs of one run, in order. */
  ghost predicate IsSchedule(p: Policy, rand: nat -> real, base: nat, waits: seq<int>)
    requires Normal(p)
  {
    forall k | 0 <= k < |waits| :: waits[k] == Jittered(BackoffAt(p, k), p.jitter, rand(base + k))
  }

  /** The first `n` waits of a run. */
  function Schedule(p: Policy, rand: nat -> real, base: nat, n: nat): (ws: seq<int>)
    requires Normal(p)
    ensures |ws| == n
  {
    seq(n, k requires 0 <= k < n => Jittered(BackoffAt(p, k), p.jitter, rand(base + k)))
  }

  ghost predicate Unit(rand: nat -> real) { forall k: nat :: 0.0 <= rand(k) < 1.0 }

  /** Each wait lies between b(1-j), truncated, and b(1+j), so below MaxBackoff * (1+j). */
  lemma WaitBound(p: Policy, k: nat, rand: real)
    requires Normal(p) && 0.0 <= rand < 1.0
    ensures Times(BackoffAt(p, k) as real, 1.0 - p.jitter).Floor <= Jittered(BackoffAt(p, k), p.jitter, rand)
    ensures Jittered(BackoffAt(p, k), p.jitter, rand) as real <= Times(BackoffAt(p, k) as real, 1.0 + p.jitter)
    ensures Jittered(BackoffAt(p, k), p.jitter, rand) as real <= Times(p.max as real, 1.0 + p.jitter)
  {
    hide Jittered, Times;
    var b := BackoffAt(p, k);
    JitteredBounds(b, p.jitter, rand);
    TimesMonotone(b as real, p.max as real, 1.0 + p.jitter);
  }

  lemma {:induction false} SumBound(ws: seq<int>, bound: real)
    requires forall k | 0 <= k < |ws| :: ws[k] as real <= bound
    ensures Sum(ws) as real <= Times(|ws| as real, bound)
  {
    hide Times;
    TimesSum(bound, 0.0, 0.0);
    if ws != [] {
      var front := ws[..|ws| - 1];
      SumBound(front, bound);
      TimesSum(bound, |front| as real, 1.0);
      assert |front| as real + 1.0 == |ws| as real;
    }
  }

  /**
   Total waiting in a run is at most (MaxAttempts-1) * MaxBackoff * (1+jitter). One wait may exceed
   MaxBackoff: the jitter is applied after the cap.
   */
  lemma TotalWait(p: Policy, rand: nat -> real, base: nat, waits: seq<int>)
    requires Normal(p) && Unit(rand) && IsSchedule(p, rand, base, waits) && |waits| <= p.maxAttempts - 1
    ensures Sum(waits) as real <= Times((p.maxAttempts - 1) as real, Times(p.max as real, 1.0 + p.jitter))
  {
    hide Jittered, BackoffAt, Sum, Times;
    var bound := Times(p.max as real, 1.0 + p.jitter);
    TimesSum(1.0 + p.jitter, 0.0, 0.0);
    TimesMonotone(0.0, p.max as real, 1.0 + p.jitter);
    forall k | 0 <= k < |waits| ensures waits[k] as real <= bound {
      WaitBound(p, k, rand(base + k));
    }
    SumBound(waits, bound);
    TimesMonotone(|waits| as real, (p.maxAttempts - 1) as real, bound);
  }

  // ---------------------------------------------------------------- when a wait can pass MaxBackoff

  /** Every wait a run under the policy can make, whatever the random numbers, is at most MaxBackoff. */
  ghost predicate WaitsStayBelowMax(p: Policy)
    requires Normal(p)
  {
    forall k: nat, rand: real | k < p.maxAttempts - 1 && 0.0 <= rand < 1.0 ::
      Jittered(BackoffAt(p, k), p.jitter, rand) <= p.max
  }

  /** The largest value the jitter of backoff `b` stays below does not reach the next whole number after `max`. */
  predicate JitterFits(b: int, jitter: real, max: int) { b <= 1 || Times(b as real, 1.0 + jitter) <= max as real + 1.0 }

  lemma JitteredStrictly(b: int, jitter: real, rand: real)
    requires b > 1 && 0.0 < jitter <= 1.0 && 0.0 <= rand < 1.0
    ensures Jittered(b, jitter, rand) as real < Times(b as real, 1.0 + jitter)
  {
    hide Times;
    var r := b as real;
    var x := Times(r, jitter);
    TimesSum(r, 1.0, jitter);
    TimesSum(x, 0.0, 0.0);
    assert x > 0.0 by { Positive(r, jitter); }
    assert Times(rand, x + x) < x + x by { Shrinks(rand, x + x); }
  }

  lemma Positive(a: real, b: real)
    requires a > 0.0 && b > 0.0
    ensures Times(a, b) > 0.0
  {
  }

  lemma Shrinks(a: real, b: real)
    requires a < 1.0 && b > 0.0
    ensures Times(a, b) < b
  {
  }

  lemma Quotient(a: real, b: real)
    requires b > 0.0
    ensures Times(a / b, b) == a
    ensures a >= 0.0 ==> a / b >= 0.0
    ensures a < b ==> a / b < 1.0
  {
    var q := a / b;
    assert q * b == a;
    assert q >= 1.0 ==> q * b >= 1.0 * b;
  }

  lemma FitsBelow(b: int, b': int, jitter: real, max: int)
    requires b <= b' && 0.0 < jitter && JitterFits(b', jitter, max) && b' <= max
    ensures JitterFits(b, jitter, max)
  {
    hide Times;
    TimesMonotone(b as real, b' as real, 1.0 + jitter);
  }

  /** If the jitter does not fit, some random number makes the wait pass the maximum. */
  lemma SomeWaitPasses(b: int, jitter: real, max: int) returns (rand: real)
    requires 1 <= b <= max && 0.0 < jitter <= 1.0 && !JitterFits(b, jitter, max)
    ensures 0.0 <= rand < 1.0 && Jittered(b, jitter, rand) > max
  {
    hide Times;
    var r, m := b as real, max as real + 1.0;
    var x, low := Times(r, jitter), Times(r, 1.0 - jitter);
    Positive(r, jitter);
    TimesSum(r, 1.0, jitter);
    TimesSum(x, 0.0, 0.0);
    assert low == r - x && Times(r, 1.0 + jitter) == r + x;
    rand := (m - low) / (x + x);
    Quotient(m - low, x + x);
  }

  /**
   No wait of a run passes MaxBackoff exactly when the policy makes no second attempt, or the backoff before the
   last one, the largest, leaves room for its own jitter.
   */
  lemma WaitsStayBelowMaxIff(p: Policy)
    requires Normal(p)
    ensures WaitsStayBelowMax(p) <==> p.maxAttempts == 1 || JitterFits(BackoffAt(p, p.maxAttempts - 2), p.jitter, p.max)
  {
    hide BackoffAt, Jittered, JitterFits;
    if p.maxAttempts > 1 {
      var b := BackoffAt(p, p.maxAttempts - 2);
      if JitterFits(b, p.jitter, p.max) {
        forall k: nat, rand: real | k < p.maxAttempts - 1 && 0.0 <= rand < 1.0
          ensures Jittered(BackoffAt(p, k), p.jitter, rand) <= p.max
        {
          BackoffGrows(p, k, p.maxAttempts - 2);
          FitsBelow(BackoffAt(p, k), b, p.jitter, p.max);
          FittingWait(BackoffAt(p, k), p.jitter, rand, p.max);
        }
      } else {
        var rand := SomeWaitPasses(b, p.jitter, p.max);
      }
    }
  }

  lemma FittingWait(b: int, jitter: real, rand: real, max: int)
    requires 1 <= b <= max && 0.0 < jitter <= 1.0 && 0.0 <= rand < 1.0 && JitterFits(b, jitter, max)
    ensures Jittered(b, jitter, rand) <= max
  {
    hide Times;
    if b > 1 {
      JitteredStrictly(b, jitter, rand);
    }
  }

  lemma DefaultBackoffs(p: Policy)
    requires Normal(p) && p.initial == DEFAULT_INITIAL && p.max == DEFAULT_MAX && p.multiplier == DEFAULT_MULTIPLIER
    ensures BackoffAt(p, 0) == 100_000_000 && BackoffAt(p, 1) == 200_000_000 && BackoffAt(p, 2) == 400_000_000
    ensures BackoffAt(p, 3) == 800_000_000 && BackoffAt(p, 4) == 1_000_000_000
  {
    assert NextBackoff(100_000_000, p) == 200_000_000;
    assert NextBackoff(200_000_000, p) == 400_000_000;
    assert NextBackoff(400_000_000, p) == 800_000_000;
    assert NextBackoff(800_000_000, p) == 1_000_000_000;
    assert BackoffAt(p, 1) == NextBackoff(BackoffAt(p, 0), p);
    assert BackoffAt(p, 2) == NextBackoff(BackoffAt(p, 1), p);
    assert BackoffAt(p, 3) == NextBackoff(BackoffAt(p, 2), p);
    assert BackoffAt(p, 4) == NextBackoff(BackoffAt(p, 3), p);
  }

  /** The default policy makes two waits at most, of at most 0.24 s: no wait comes near its MaxBackoff of 1 s. */
  lemma DefaultPolicyStaysBelowMax(k: nat, rand: real)
    requires 0.0 <= rand < 1.0
    ensures NormalForm(Policy(0, 0, 0, 0.0, 0.0)).Some?
    ensures var p := NormalForm(Policy(0, 0, 0, 0.0, 0.0)).value;
            && WaitsStayBelowMax(p)
            && (k < p.maxAttempts - 1 ==> Jittered(BackoffAt(p, k), p.jitter, rand) <= 240_000_000 < p.max)
  {
    hide Jittered, BackoffAt;
    var p := NormalForm(Policy(0, 0, 0, 0.0, 0.0)).value;
    DefaultBackoffs(p);
    WaitsStayBelowMaxIff(p);
    if k < p.maxAttempts - 1 {
      assert k == 0 || k == 1;
      JitteredBounds(BackoffAt(p, k), p.jitter, rand);
    }
  }

  /** With six attempts and defaults otherwise, the fifth wait can take 1.19 s although MaxBackoff is 1 s. */
  lemma SixAttemptsCanExceedMax()
    ensures NormalForm(Policy(6, 0, 0, 0.0, 0.0)).Some?
    ensures var p := NormalForm(Policy(6, 0, 0, 0.0, 0.0)).value;
            && 4 < p.maxAttempts - 1 && BackoffAt(p, 4) == p.max
            && Jittered(BackoffAt(p, 4), p.jitter, 0.975) == 1_190_000_000 > p.max
            && !WaitsStayBelowMax(p)
  {
    hide BackoffAt;
    DefaultBackoffs(NormalForm(Policy(6, 0, 0, 0.0, 0.0)).value);
  }
}
