/** Retry options and exponential backoff (pkg/retry/options.go).  Durations are
    nanoseconds, float64 arithmetic is exact. */
module Backoff {
  import opened Wrappers

  datatype Decision = Decision(retryable: bool)

  datatype Options = Options(
    maxAttempts: int,
    initial: int,
    max: int,
    factor: real,
    jitter: real,
    disableJitter: bool,
    isRetryable: Option<Error -> bool>,
    registry: Option<Error -> Option<Decision>>)

  const SECOND := 1_000_000_000

  function NeverRetry(): Error -> bool {
    _ => false
  }

  function ByRegistry(registry: Error -> Option<Decision>): Error -> bool {
    e => registry(e).Some? && registry(e).value.retryable
  }

  function Norm(o: Options): Options {
    Options(
      if o.maxAttempts <= 0 then 3 else o.maxAttempts,
      if o.initial <= 0 then SECOND else o.initial,
      if o.max <= 0 then 30 * SECOND else o.max,
      if o.factor <= 0.0 then 2.0 else o.factor,
      if o.jitter == 0.0 && !o.disableJitter then 0.25 else o.jitter,
      o.disableJitter,
      if o.isRetryable.Some? then o.isRetryable
      else if o.registry.Some? then Some(ByRegistry(o.registry.value))
      else Some(NeverRetry()),
      o.registry)
  }

  /** Chosen values stay; what is not chosen becomes three attempts, one second, 30
      seconds, doubling, and a jitter of a quarter unless jitter is disabled. */
  lemma NormKeeps(o: Options)
    ensures Norm(o).maxAttempts == (if o.maxAttempts > 0 then o.maxAttempts else 3)
    ensures Norm(o).initial == (if o.initial > 0 then o.initial else 1_000_000_000)
    ensures Norm(o).max == (if o.max > 0 then o.max else 30_000_000_000)
    ensures Norm(o).factor == (if o.factor > 0.0 then o.factor else 2.0)
    ensures Norm(o).jitter == (if o.jitter != 0.0 || o.disableJitter then o.jitter else 0.25)
    ensures Norm(o).disableJitter == o.disableJitter && Norm(o).registry == o.registry
    ensures o.isRetryable.Some? ==> Norm(o).isRetryable == o.isRetryable
  {}

  /** Everything a retry loop needs is set, and without a predicate or a registry
      nothing is retried. */
  lemma NormIsSound(o: Options)
    ensures var n := Norm(o);
            && n.maxAttempts > 0 && n.initial > 0 && n.max > 0 && n.factor > 0.0 && n.isRetryable.Some?
            && (n.jitter == 0.0 ==> n.disableJitter)
    ensures Norm(Norm(o)) == Norm(o)
    ensures forall e :: o.isRetryable.None? && o.registry.None? ==> !Norm(o).isRetryable.value(e)
    ensures forall e :: o.isRetryable.None? && o.registry.Some? ==>
              (Norm(o).isRetryable.value(e) <==> o.registry.value(e).Some? && o.registry.value(e).value.retryable)
  {
  }

  // ---------------------------------------------------------------- delay without jitter

  function Pow(f: real, n: nat): real {
    if n == 0 then 1.0 else Pow(f, n - 1) * f
  }

  /** The conversion to time.Duration: towards zero. */
  function Trunc(x: real): int {
    if x >= 0.0 then x.Floor else -((-x).Floor)
  }

  function Ideal(o: Options, n: nat): real {
    o.initial as real * Pow(o.factor, n)
  }

  predicate Over(o: Options, n: nat) {
    Trunc(Ideal(o, n)) > o.max
  }

  /** Some product on the way to the n-th exceeds the cap. */
  ghost predicate EverOver(o: Options, n: nat) {
    exists k: nat :: 1 <= k <= n && Over(o, k)
  }

  ghost function Capped(o: Options, n: nat): real {
    if EverOver(o, n) || Over(o, n) then o.max as real else Ideal(o, n)
  }

  function Min(a: int, b: int): int {
    if a <= b then a else b
  }

  /** The growth formula of the documentation. */
  function Documented(o: Options, n: nat): int {
    Min(Trunc(Ideal(o, n)), o.max)
  }

  lemma TruncOfInt(n: int)
    ensures Trunc(n as real) == n
  {
  }

  lemma TruncMonotone(x: real, y: real)
    requires x <= y
    ensures Trunc(x) <= Trunc(y)
  {
  }

  lemma TimesGrows(a: real, f: real)
    requires a >= 0.0 && f >= 1.0
    ensures a * f >= a
  {
  }

  lemma TimesShrinks(a: real, f: real)
    requires a >= 0.0 && 0.0 <= f <= 1.0
    ensures 0.0 <= a * f <= a
  {
  }

  lemma Regroup(i: real, p: real, f: real)
    ensures i * (p * f) == (i * p) * f
  {
  }

  lemma NextIdeal(o: Options, n: nat)
    ensures Ideal(o, n + 1) == Ideal(o, n) * o.factor
  {
    Regroup(o.initial as real, Pow(o.factor, n), o.factor);
  }

  lemma {:induction false} IdealNonNegative(o: Options, n: nat)
    requires o.initial >= 0 && o.factor >= 0.0
    ensures Ideal(o, n) >= 0.0
  {
    if n > 0 {
      IdealNonNegative(o, n - 1);
      NextIdeal(o, n - 1);
      NonNegativeProduct(Ideal(o, n - 1), o.factor);
    }
  }

  lemma NonNegativeProduct(a: real, b: real)
    requires a >= 0.0 && b >= 0.0
    ensures a * b >= 0.0
  {
  }

  lemma {:induction false} IdealGrows(o: Options, k: nat, n: nat)
    requires o.initial >= 0 && o.factor >= 1.0 && k <= n
    ensures Ideal(o, k) <= Ideal(o, n)
  {
    if k < n {
      IdealGrows(o, k, n - 1);
      IdealNonNegative(o, n - 1);
      NextIdeal(o, n - 1);
      TimesGrows(Ideal(o, n - 1), o.factor);
    }
  }

  lemma {:induction false} IdealShrinks(o: Options, k: nat, n: nat)
    requires o.initial >= 0 && 0.0 <= o.factor <= 1.0 && k <= n
    ensures Ideal(o, n) <= Ideal(o, k)
  {
    if k < n {
      IdealShrinks(o, k, n - 1);
      IdealNonNegative(o, n - 1);
      NextIdeal(o, n - 1);
      TimesShrinks(Ideal(o, n - 1), o.factor);
    }
  }

  lemma GrowingCap(o: Options, n: nat)
    requires o.initial >= 0 && o.factor >= 1.0
    ensures Trunc(Capped(o, n)) == Documented(o, n)
  {
    TruncOfInt(o.max);
    if EverOver(o, n) {
      var k: nat :| 1 <= k <= n && Over(o, k);
      IdealGrows(o, k, n);
      TruncMonotone(Ideal(o, k), Ideal(o, n));
      assert Over(o, n);
    }
    assert Over(o, n) ==> Capped(o, n) == o.max as real;
  }

  lemma ShrinkingCap(o: Options, n: nat)
    requires o.initial >= 0 && 0.0 < o.factor < 1.0 && n > 0
    ensures EverOver(o, n) || Over(o, n) <==> Over(o, 1)
  {
    if EverOver(o, n) {
      var k: nat :| 1 <= k <= n && Over(o, k);
      IdealShrinks(o, 1, k);
      TruncMonotone(Ideal(o, k), Ideal(o, 1));
    }
    if Over(o, n) {
      IdealShrinks(o, 1, n);
      TruncMonotone(Ideal(o, n), Ideal(o, 1));
    }
  }

  /** The early exit computes the documented delay exactly when the factor does not
      shrink it, or the first product is not over the cap, or the last one still is
      at the cap: a shrinking delay that starts over the cap stays there. */
  lemma DocumentedExactly(o: Options, n: nat)
    requires o.initial >= 0 && o.factor > 0.0
    ensures Trunc(Capped(o, n)) == Documented(o, n)
            <==> o.factor >= 1.0 || n == 0 || Trunc(Ideal(o, 1)) <= o.max || Trunc(Ideal(o, n)) >= o.max
  {
    TruncOfInt(o.max);
    if o.factor >= 1.0 {
      GrowingCap(o, n);
    } else if n > 0 {
      ShrinkingCap(o, n);
    }
  }

  /** Halving four times from 100 under a cap of 10 waits 10, not 6. */
  lemma ShrinkingDelayIsStuck(o: Options)
    requires o.initial == 100 && o.max == 10 && o.factor == 0.5
    ensures Trunc(Capped(o, 4)) == 10 && Documented(o, 4) == 6
  {
    assert Pow(0.5, 1) == 0.5 && Pow(0.5, 2) == 0.25 && Pow(0.5, 3) == 0.125 && Pow(0.5, 4) == 0.0625;
    assert Ideal(o, 1) == 50.0;
    assert Over(o, 1);
    TruncOfInt(10);
  }

  // ---------------------------------------------------------------- jitter

  /** The jitter fraction in force, clamped to 0..1. */
  function Fraction(o: Options): (f: real)
    ensures 0.0 <= f <= 1.0
  {
    if o.disableJitter || o.jitter < 0.0 then 0.0 else if o.jitter > 1.0 then 1.0 else o.jitter
  }

  /** The fraction asked for, if it is one. */
  lemma FractionExactly(o: Options)
    ensures o.disableJitter ==> Fraction(o) == 0.0
    ensures !o.disableJitter && 0.0 <= o.jitter <= 1.0 ==> Fraction(o) == o.jitter
    ensures !o.disableJitter && o.jitter > 1.0 ==> Fraction(o) == 1.0
    ensures o.jitter < 0.0 ==> Fraction(o) == 0.0
  {}

  function Spread(delay: real, f: real, rand: real): real {
    Jittered(delay, delay * f, rand)
  }

  function Jittered(delay: real, jitter: real, rand: real): real {
    delay - jitter + jitter * 2.0 * rand
  }

  function Least(delay: real, f: real): real {
    delay * (1.0 - f)
  }

  function Most(delay: real, f: real): real {
    delay * (1.0 + f)
  }

  /** The draw moves the delay evenly from the least to the most. */
  lemma SpreadIsEven(delay: real, f: real, rand: real)
    ensures Spread(delay, f, rand) == Least(delay, f) + rand * (Most(delay, f) - Least(delay, f))
  {
    var j := delay * f;
    assert Least(delay, f) == delay - j && Most(delay, f) == delay + j;
    assert j * 2.0 * rand == rand * (2.0 * j);
  }

  lemma SpreadStays(delay: real, f: real, rand: real)
    requires delay >= 0.0 && 0.0 <= f <= 1.0 && 0.0 <= rand < 1.0
    ensures Least(delay, f) <= Spread(delay, f, rand) <= Most(delay, f)
  {
    var j := delay * f;
    NonNegativeProduct(delay, f);
    NonNegativeProduct(j, rand);
    NonNegativeProduct(j, 1.0 - rand);
    assert j * (1.0 - rand) == j - j * rand;
    assert j * 2.0 * rand == 2.0 * (j * rand);
  }

  /** BackoffFor, with the random draw as an argument. */
  method BackoffFor(attempt: int, o: Options, rand: real) returns (delay: int)
    requires 0.0 <= rand < 1.0
    ensures delay == Wait(o, Retries(attempt), rand)
  {
    var d := CappedDelay(attempt, o);
    var f := o.jitter;
    if o.disableJitter {
      f := 0.0;
    }
    if f < 0.0 {
      f := 0.0;
    }
    if f > 1.0 {
      f := 1.0;
    }
    ghost var capped := d;
    NoSpread(d, rand);
    if f > 0.0 {
      var jitter := d * f;
      d := Jittered(d, jitter, rand);
    }
    assert d == Spread(capped, f, rand);
    assert f == Fraction(o);
    delay := Trunc(d);
  }

  lemma NoSpread(d: real, rand: real)
    ensures Spread(d, 0.0, rand) == d
  {
  }

  /** A negative attempt count is no retry. */
  function Retries(attempt: int): (n: nat)
    ensures n == if attempt <= 0 then 0 else attempt
  {
    if attempt > 0 then attempt else 0
  }

  /** The loop of BackoffFor, with its early exit. */
  method CappedDelay(attempt: int, o: Options) returns (delay: real)
    ensures delay == Capped(o, Retries(attempt))
  {
    var n := Retries(attempt);
    delay := o.initial as real;
    var i := 0;
    while i < n
      invariant 0 <= i <= n
      invariant delay == Ideal(o, i) && forall k: nat :: 1 <= k <= i ==> !Over(o, k)
    {
      NextIdeal(o, i);
      delay := delay * o.factor;
      if Trunc(delay) > o.max {
        assert Over(o, i + 1);
        assert EverOver(o, n);
        delay := o.max as real;
        TruncOfInt(o.max);
        return;
      }
      i := i + 1;
    }
    if Trunc(delay) > o.max {
      delay := o.max as real;
    }
  }

  ghost function Wait(o: Options, n: nat, rand: real): int {
    Trunc(Spread(Capped(o, n), Fraction(o), rand))
  }

  /** With a cap and an initial delay that make sense the wait stays within the
      clamped fraction around the capped delay. */
  lemma JitterEnvelope(o: Options, n: nat, rand: real)
    requires o.initial >= 0 && o.max >= 0 && o.factor >= 0.0 && 0.0 <= rand < 1.0
    ensures Trunc(Least(Capped(o, n), Fraction(o))) <= Wait(o, n, rand) <= Trunc(Most(Capped(o, n), Fraction(o)))
    ensures Wait(o, n, rand) >= 0
    ensures Fraction(o) == 0.0 ==> Wait(o, n, rand) == Trunc(Capped(o, n))
  {
    IdealNonNegative(o, n);
    var d, f := Capped(o, n), Fraction(o);
    assert d >= 0.0;
    SpreadWithin(d, f, rand);
    NoSpread(d, rand);
  }

  lemma SpreadWithin(d: real, f: real, rand: real)
    requires d >= 0.0 && 0.0 <= f <= 1.0 && 0.0 <= rand < 1.0
    ensures 0 <= Trunc(Least(d, f)) <= Trunc(Spread(d, f, rand)) <= Trunc(Most(d, f))
  {
    SpreadStays(d, f, rand);
    NonNegativeProduct(d, 1.0 - f);
    TruncMonotone(0.0, Least(d, f));
    TruncMonotone(Least(d, f), Spread(d, f, rand));
    TruncMonotone(Spread(d, f, rand), Most(d, f));
  }
}
