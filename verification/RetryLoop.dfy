/** The generic retry loop DoWithValue (pkg/retry/retry.go). */
module RetryLoop {
  import opened Backoff
  import opened Wrappers

  /** What the world does: the outcome of the i-th call, whether the context is
      found cancelled before it or during the sleep after it, the random draws, and
      the Retry-After hint errors.As finds in an error. */
  datatype World = World(
    call: nat -> Outcome,
    cancelledBefore: nat -> Option<Error>,
    cancelledAsleep: nat -> Option<Error>,
    draw: nat -> real,
    retryAfter: Error -> Option<int>)

  ghost predicate Plausible(w: World) {
    forall i :: 0.0 <= w.draw(i) < 1.0
  }

  datatype Stop = Succeeded | Refused | Exhausted | StoppedBefore | StoppedAsleep

  /** The sleep after the i-th failure: the jittered backoff, or the hint if that is
      longer. */
  ghost function Pause(w: World, o: Options, i: nat, e: Error): int {
    var backoff := Wait(o, i, w.draw(i));
    if w.retryAfter(e).Some? && w.retryAfter(e).value > backoff then w.retryAfter(e).value else backoff
  }

  predicate Retryable(o: Options, e: Error) {
    o.isRetryable.Some? ==> o.isRetryable.value(e)
  }

  /** The first n calls failed with retryable errors and the loop slept in between. */
  ghost predicate WentOn(w: World, o: Options, n: nat, sleeps: seq<int>) {
    && |sleeps| == n
    && forall i :: 0 <= i < n ==>
         && w.call(i).Err? && Retryable(o, w.call(i).error)
         && w.cancelledBefore(i).None? && w.cancelledAsleep(i).None?
         && sleeps[i] == Pause(w, o, i, w.call(i).error)
  }

  /** Why the loop ended after so many calls, with this reply. */
  ghost predicate Ended(w: World, o: Options, why: Stop, calls: nat, sleeps: seq<int>, r: Outcome) {
    match why
    case Succeeded =>
      && calls > 0 && WentOn(w, o, calls - 1, sleeps) && w.cancelledBefore(calls - 1).None?
      && w.call(calls - 1).Ok? && r == w.call(calls - 1)
    case Refused =>
      && calls > 0 && WentOn(w, o, calls - 1, sleeps) && w.cancelledBefore(calls - 1).None?
      && w.call(calls - 1).Err? && !Retryable(o, w.call(calls - 1).error) && r == w.call(calls - 1)
    case Exhausted =>
      && calls > 0 && calls == o.maxAttempts && WentOn(w, o, calls - 1, sleeps) && w.cancelledBefore(calls - 1).None?
      && w.call(calls - 1).Err? && Retryable(o, w.call(calls - 1).error) && r == w.call(calls - 1)
    case StoppedBefore =>
      && calls < o.maxAttempts && WentOn(w, o, calls, sleeps)
      && w.cancelledBefore(calls).Some? && r == Err(w.cancelledBefore(calls).value)
    case StoppedAsleep =>
      && calls > 0 && calls < o.maxAttempts && |sleeps| == calls && WentOn(w, o, calls - 1, sleeps[..calls - 1])
      && w.cancelledBefore(calls - 1).None? && w.call(calls - 1).Err? && Retryable(o, w.call(calls - 1).error)
      && sleeps[calls - 1] == Pause(w, o, calls - 1, w.call(calls - 1).error)
      && w.cancelledAsleep(calls - 1).Some? && r == Err(w.cancelledAsleep(calls - 1).value)
  }

  method DoWithValue(w: World, options: Options) returns (r: Outcome, calls: nat, sleeps: seq<int>, why: Stop)
    requires Plausible(w)
    ensures calls <= if options.maxAttempts > 0 then options.maxAttempts else 3
    ensures Ended(w, Norm(options), why, calls, sleeps, r)
  {
    var o := Norm(options);
    NormIsSound(options);
    NormKeeps(options);
    sleeps := [];
    calls := 0;
    var lastErr := Error(0);
    for i := 0 to o.maxAttempts
      invariant calls == i
      invariant i < o.maxAttempts ==> WentOn(w, o, i, sleeps)
      invariant i == o.maxAttempts ==> Ended(w, o, Exhausted, calls, sleeps, Err(lastErr))
    {
      var err := w.cancelledBefore(i);
      if err.Some? {
        return Err(err.value), calls, sleeps, StoppedBefore;
      }
      var outcome := w.call(i);
      calls := calls + 1;
      if outcome.Ok? {
        return outcome, calls, sleeps, Succeeded;
      }
      lastErr := outcome.error;
      if o.isRetryable.Some? && !o.isRetryable.value(lastErr) {
        return outcome, calls, sleeps, Refused;
      }
      if i < o.maxAttempts - 1 {
        var sleep := BackoffFor(i, o, w.draw(i));
        var hint := w.retryAfter(lastErr);
        if hint.Some? && hint.value > sleep {
          sleep := hint.value;
        }
        sleeps := sleeps + [sleep];
        var cancelled := w.cancelledAsleep(i);
        if cancelled.Some? {
          assert sleeps[..i] + [sleep] == sleeps;
          return Err(cancelled.value), calls, sleeps, StoppedAsleep;
        }
      }
    }
    return Err(lastErr), calls, sleeps, Exhausted;
  }

  // ---------------------------------------------------------------- what this amounts to

  lemma Made(w: World, o: Options, why: Stop, calls: nat, sleeps: seq<int>, r: Outcome, i: nat)
    requires Ended(w, o, why, calls, sleeps, r) && i < calls
    ensures w.cancelledBefore(i).None?
    ensures i + 1 < calls || why == StoppedBefore ==>
              w.call(i).Err? && Retryable(o, w.call(i).error) && w.cancelledAsleep(i).None?
    ensures i + 1 < calls ==> i < |sleeps| && sleeps[i] == Pause(w, o, i, w.call(i).error)
  {
    if why == StoppedAsleep && i + 1 < calls {
      assert sleeps[..calls - 1][i] == sleeps[i];
    }
  }

  /** Nothing is called again after a success or an error that must not be retried. */
  lemma StopsAtOnce(w: World, o: Options, why: Stop, calls: nat, sleeps: seq<int>, r: Outcome, i: nat)
    requires Ended(w, o, why, calls, sleeps, r) && i < calls
    requires w.call(i).Ok? || !Retryable(o, w.call(i).error)
    ensures calls == i + 1 && r == w.call(i)
  {
    Made(w, o, why, calls, sleeps, r, i);
  }

  /** Every call but the first is preceded by one sleep: the backoff, or the hint of
      the error before it where that is longer. */
  lemma SleepsLongEnough(w: World, o: Options, why: Stop, calls: nat, sleeps: seq<int>, r: Outcome, i: nat)
    requires Ended(w, o, why, calls, sleeps, r) && i + 1 < calls
    ensures calls - 1 <= |sleeps| <= calls && w.call(i).Err?
    ensures var backoff, hint := Wait(o, i, w.draw(i)), w.retryAfter(w.call(i).error);
            && sleeps[i] >= backoff && (hint.Some? ==> sleeps[i] >= hint.value)
            && (sleeps[i] == backoff || (hint.Some? && sleeps[i] == hint.value))
  {
    Made(w, o, why, calls, sleeps, r, i);
  }

  /** Attempts are given up early only for a success, an error that must not be
      retried, or a cancelled context. */
  lemma GivesUpOnlyFor(w: World, o: Options, why: Stop, calls: nat, sleeps: seq<int>, r: Outcome)
    requires Ended(w, o, why, calls, sleeps, r) && calls < o.maxAttempts
    ensures || w.cancelledBefore(calls).Some?
            || (calls > 0 && w.cancelledAsleep(calls - 1).Some?)
            || (calls > 0 && (w.call(calls - 1).Ok? || !Retryable(o, w.call(calls - 1).error)))
  {
  }

  /** The reply is the outcome of the last call, or the error of the context. */
  lemma RepliesLast(w: World, o: Options, why: Stop, calls: nat, sleeps: seq<int>, r: Outcome)
    requires Ended(w, o, why, calls, sleeps, r)
    ensures (calls > 0 && r == w.call(calls - 1))
            || (w.cancelledBefore(calls).Some? && r == Err(w.cancelledBefore(calls).value))
            || (calls > 0 && w.cancelledAsleep(calls - 1).Some? && r == Err(w.cancelledAsleep(calls - 1).value))
    ensures (forall i :: w.cancelledBefore(i).None? && w.cancelledAsleep(i).None?) ==>
              calls > 0 && r == w.call(calls - 1)
  {
  }

  /** Without a predicate and without a registry there is at most one call. */
  lemma FailClosed(w: World, options: Options, why: Stop, calls: nat, sleeps: seq<int>, r: Outcome)
    requires options.isRetryable.None? && options.registry.None?
    requires Ended(w, Norm(options), why, calls, sleeps, r)
    ensures calls <= 1 && sleeps == []
  {
    NormIsSound(options);
    assert w.call(0).Err? ==> !Retryable(Norm(options), w.call(0).error);
    if calls > 0 {
      Made(w, Norm(options), why, calls, sleeps, r, 0);
    }
  }

  /** The end is determined: one reason to stop, one number of calls, one reply. */
  lemma EndsOneWay(w: World, o: Options, x: Stop, n: nat, ss: seq<int>, r: Outcome,
                   y: Stop, m: nat, ts: seq<int>, s: Outcome)
    requires Ended(w, o, x, n, ss, r) && Ended(w, o, y, m, ts, s) && n <= m <= o.maxAttempts
    ensures n == m && x == y && r == s
  {
    if n < m {
      Made(w, o, y, m, ts, s, n);
    }
    if n > 0 {
      Made(w, o, y, m, ts, s, n - 1);
      Made(w, o, x, n, ss, r, n - 1);
    }
  }

  // ---------------------------------------------------------------- jitter and the hint

  function Longer(x: real, y: real): real {
    if y > x then y else x
  }

  /** The pause as retry.go:135-137 documents it: the larger of backoff and hint,
      then the jitter. */
  ghost function DocumentedPause(o: Options, i: nat, rand: real, hint: nat): int {
    Trunc(Spread(Longer(Capped(o, i), hint as real), Fraction(o), rand))
  }

  /** The two orders agree on this draw. */
  ghost predicate OrderIrrelevant(w: World, o: Options, i: nat, e: Error, hint: nat) {
    Pause(w, o, i, e) == DocumentedPause(o, i, w.draw(i), hint)
  }

  lemma TruncOfLonger(d: real, hint: nat)
    requires d >= 0.0
    ensures Trunc(Longer(d, hint as real)) == if hint > Trunc(d) then hint else Trunc(d)
  {
    TruncOfInt(hint);
  }

  lemma HintWithoutJitter(w: World, o: Options, i: nat, e: Error, hint: nat)
    requires o.initial >= 0 && o.max >= 0 && o.factor >= 0.0 && w.retryAfter(e) == Some(hint)
    requires Fraction(o) == 0.0
    ensures OrderIrrelevant(w, o, i, e, hint)
  {
    IdealNonNegative(o, i);
    NoSpread(Capped(o, i), w.draw(i));
    NoSpread(Longer(Capped(o, i), hint as real), w.draw(i));
    TruncOfLonger(Capped(o, i), hint);
  }

  lemma ShortHint(d: real, f: real, hint: nat)
    requires d >= 0.0 && 0.0 <= f <= 1.0 && hint <= Trunc(Least(d, f))
    ensures Longer(d, hint as real) == d
  {
    NonNegativeProduct(d, f);
    NonNegativeProduct(d, 1.0 - f);
    assert Least(d, f) == d - d * f;
  }

  lemma HintBelowJitter(w: World, o: Options, i: nat, e: Error, hint: nat)
    requires o.initial >= 0 && o.max >= 0 && o.factor >= 0.0 && Plausible(w) && w.retryAfter(e) == Some(hint)
    requires hint <= Trunc(Least(Capped(o, i), Fraction(o)))
    ensures OrderIrrelevant(w, o, i, e, hint)
  {
    IdealNonNegative(o, i);
    ShortHint(Capped(o, i), Fraction(o), hint);
    JitterEnvelope(o, i, w.draw(i));
  }

  lemma HintAboveJitter(w: World, o: Options, i: nat, e: Error, hint: nat)
    requires o.initial >= 0 && o.max >= 0 && o.factor >= 0.0 && w.draw(i) == 0.0 && w.retryAfter(e) == Some(hint)
    requires Fraction(o) > 0.0 && hint > Trunc(Least(Capped(o, i), Fraction(o)))
    ensures !OrderIrrelevant(w, o, i, e, hint)
  {
    var d, f, h := Capped(o, i), Fraction(o), hint as real;
    IdealNonNegative(o, i);
    SpreadStays(d, f, 0.0);
    NonNegativeProduct(d, 1.0 - f);
    LowestSpread(d, f);
    LowestSpread(h, f);
    LessThanHint(hint, f);
  }

  lemma LowestSpread(d: real, f: real)
    ensures Spread(d, f, 0.0) == Least(d, f)
  {}

  lemma LessThanHint(hint: nat, f: real)
    requires 0.0 < f <= 1.0 && 0 < hint
    ensures Trunc(Least(hint as real, f)) < hint
  {
    var h := hint as real;
    assert h * f > 0.0;
    NonNegativeProduct(h, 1.0 - f);
    assert h * (1.0 - f) == h - h * f;
  }

  /** Whatever is drawn, the pause is the documented one exactly when there is no
      jitter or the hint is no longer than the shortest jittered backoff. */
  lemma HintOrderExactly(o: Options, i: nat, e: Error, hint: nat, w: World)
    requires o.initial >= 0 && o.max >= 0 && o.factor >= 0.0
    requires w.retryAfter(e) == Some(hint)
    ensures (forall draw: nat -> real :: Plausible(w.(draw := draw)) ==>
               OrderIrrelevant(w.(draw := draw), o, i, e, hint))
            <==> Fraction(o) == 0.0 || hint <= Trunc(Least(Capped(o, i), Fraction(o)))
  {
    if Fraction(o) == 0.0 || hint <= Trunc(Least(Capped(o, i), Fraction(o))) {
      forall draw: nat -> real | Plausible(w.(draw := draw))
        ensures OrderIrrelevant(w.(draw := draw), o, i, e, hint)
      {
        if Fraction(o) == 0.0 {
          HintWithoutJitter(w.(draw := draw), o, i, e, hint);
        } else {
          HintBelowJitter(w.(draw := draw), o, i, e, hint);
        }
      }
    } else {
      var lowest := w.(draw := (n: nat) => 0.0);
      HintAboveJitter(lowest, o, i, e, hint);
      assert Plausible(lowest);
    }
  }
}
