/** What a provider lane promises over whole runs (pkg/providerbudget/budget.go),
    for every interleaving of Reserve, ObserveRateLimit and Remaining calls on a
    lane whose settings stay as they are. */
module RateGuarantees {
  import opened TokenLane

  datatype Event = Call(now: nat) | Limited(now: nat, retryAfter: int) | Peek(now: nat)

  /** Clock readings never go back. */
  predicate Ordered(es: seq<Event>, from: nat) {
    es == [] || (from <= es[0].now && Ordered(es[1..], es[0].now))
  }

  // ---------------------------------------------------------------- runs

  function Step(l: Lane, e: Event): (r: Lane)
    requires Bounded(l)
    ensures Bounded(r) && r.cfg == l.cfg
  {
    OperationsBounded(l, e.now, if e.Limited? then e.retryAfter else 0, l.cfg);
    match e
    case Call(now) => Reserve(l, now).lane
    case Limited(now, retryAfter) => Observe(l, now, retryAfter)
    case Peek(_) => l
  }

  /** The lane before event k. */
  function Before(l: Lane, es: seq<Event>, k: nat): (r: Lane)
    requires Bounded(l) && k <= |es|
    ensures Bounded(r) && r.cfg == l.cfg
    decreases k
  {
    if k == 0 then l else Step(Before(l, es, k - 1), es[k - 1])
  }

  /** Grants among the events whose time lies in [t1, t2]. */
  function GrantsIn(l: Lane, es: seq<Event>, t1: nat, t2: nat): nat
    requires Bounded(l)
    decreases |es|
  {
    if es == [] then 0
    else
      (if es[0].Call? && t1 <= es[0].now <= t2 && Granted(l, es[0].now) then 1 else 0)
      + GrantsIn(Step(l, es[0]), es[1..], t1, t2)
  }

  // ---------------------------------------------------------------- runs of the meter

  ghost function StepMeter(m: Meter, e: Event): Meter {
    match e
    case Call(now) => Ask(m, now).meter
    case Limited(now, retryAfter) =>
      var asked := if retryAfter <= 0 then m.cooldown as int else retryAfter;
      var pause := if asked <= 0 then DEFAULT_COOLDOWN else asked;
      if now + pause > m.cooldownUntil then m.(cooldownUntil := now + pause) else m
    case Peek(_) => m
  }

  ghost function SpentIn(m: Meter, es: seq<Event>, t1: nat, t2: nat): nat
    decreases |es|
  {
    if es == [] then 0
    else
      (if es[0].Call? && t1 <= es[0].now <= t2 && Ask(m, es[0].now).granted then m.interval else 0)
      + SpentIn(StepMeter(m, es[0]), es[1..], t1, t2)
  }

  /** What the credit would be at time t. */
  ghost function Level(m: Meter, t: nat): int {
    Fill(m, t).credit
  }

  ghost predicate Sound(m: Meter) {
    m.credit <= m.cap && 0 < m.interval
  }

  lemma StepLevel(m: Meter, e: Event, t: nat)
    requires Sound(m) && t <= e.now
    ensures Sound(StepMeter(m, e))
    ensures Level(StepMeter(m, e), e.now) + (if e.Call? && Ask(m, e.now).granted then m.interval else 0)
              == Level(m, e.now)
    ensures Level(m, e.now) <= Level(m, t) + (e.now - t)
    ensures StepMeter(m, e).cap == m.cap && StepMeter(m, e).interval == m.interval
  {}

  /** From time t on, no more is spent up to t2 than the credit at t and what
      accrues until t2. */
  lemma {:induction false} SpendingFrom(m: Meter, es: seq<Event>, t: nat, t1: nat, t2: nat)
    requires Sound(m) && Ordered(es, t) && t <= t2
    requires 0 <= Level(m, t)
    ensures SpentIn(m, es, t1, t2) <= Level(m, t) + (t2 - t)
    decreases |es|
  {
    if es != [] {
      var e := es[0];
      StepLevel(m, e, t);
      if e.now <= t2 {
        CreditStays(m, e, t);
        SpendingFrom(StepMeter(m, e), es[1..], e.now, t1, t2);
      } else {
        NothingAfter(StepMeter(m, e), es[1..], e.now, t1, t2);
      }
    }
  }

  lemma CreditStays(m: Meter, e: Event, t: nat)
    requires Sound(m) && t <= e.now && 0 <= Level(m, t)
    ensures 0 <= Level(StepMeter(m, e), e.now)
  {}

  lemma {:induction false} NothingAfter(m: Meter, es: seq<Event>, t: nat, t1: nat, t2: nat)
    requires Ordered(es, t) && t2 < t
    ensures SpentIn(m, es, t1, t2) == 0
    decreases |es|
  {
    if es != [] {
      NothingAfter(StepMeter(m, es[0]), es[1..], es[0].now, t1, t2);
    }
  }

  /** In any window no more is spent than the burst and the length of the window. */
  lemma {:induction false} SpendingInWindow(m: Meter, es: seq<Event>, t: nat, t1: nat, t2: nat)
    requires Sound(m) && Ordered(es, t) && t1 <= t2 && 0 <= Level(m, t)
    ensures SpentIn(m, es, t1, t2) <= m.cap + (t2 - t1)
    decreases |es|
  {
    if es != [] {
      var e := es[0];
      StepLevel(m, e, t);
      CreditStays(m, e, t);
      if e.now < t1 {
        SpendingInWindow(StepMeter(m, e), es[1..], e.now, t1, t2);
      } else {
        LevelWithin(m, t, t1);
        OrderedFromWindow(es, t, t1);
        SpendingFrom(m, es, if t < t1 then t1 else t, t1, if t <= t2 then t2 else t);
        if t > t2 {
          NothingAfter(m, es, t, t1, t2);
        }
      }
    }
  }

  lemma LevelWithin(m: Meter, t: nat, t1: nat)
    requires Sound(m) && 0 <= Level(m, t)
    ensures t <= t1 ==> 0 <= Level(m, t1)
    ensures Level(m, t) <= m.cap && Level(m, t1) <= m.cap
  {}

  lemma OrderedFromWindow(es: seq<Event>, t: nat, t1: nat)
    requires Ordered(es, t) && es != [] && t1 <= es[0].now
    ensures Ordered(es, if t < t1 then t1 else t)
  {}

  // ---------------------------------------------------------------- back to tokens

  lemma StepMetered(l: Lane, e: Event)
    requires Bounded(l) && Whole(l)
    ensures Whole(Step(l, e)) && MeterOf(Step(l, e)) == StepMeter(MeterOf(l), e)
    ensures e.Call? ==> (Granted(l, e.now) <==> Ask(MeterOf(l), e.now).granted)
  {
    match e
    case Call(now) => ReserveMetered(l, now);
    case Limited(now, retryAfter) => assert Credit(Observe(l, now, retryAfter)) == Credit(l);
    case Peek(_) =>
  }

  lemma {:induction false} GrantsSpent(l: Lane, es: seq<Event>, t1: nat, t2: nat)
    requires Bounded(l) && Whole(l)
    ensures GrantsIn(l, es, t1, t2) * l.cfg.interval == SpentIn(MeterOf(l), es, t1, t2)
    decreases |es|
  {
    if es != [] {
      StepMetered(l, es[0]);
      GrantsSpent(Step(l, es[0]), es[1..], t1, t2);
      OneMore(GrantsIn(Step(l, es[0]), es[1..], t1, t2), l.cfg.interval);
    }
  }

  lemma OneMore(n: nat, i: int)
    ensures (n + 1) * i == n * i + i && (n + 0) * i == n * i
    ensures (0 + n) * i == n * i && (1 + n) * i == n * i + i
  {}

  lemma CreditNonNegative(l: Lane)
    requires Bounded(l) && Whole(l)
    ensures 0 <= MeterOf(l).credit <= MeterOf(l).cap
  {
    ProductNonNegative(l.tokens, l.cfg.interval as real);
    if 0 < l.cfg.interval {
      ScaleOrder(l.tokens, l.cfg.burst as real, l.cfg.interval);
    }
    assert l.cfg.burst as real * l.cfg.interval as real == (l.cfg.burst * l.cfg.interval) as real;
  }

  /** The rate bound: in any window [t1, t2] of any run, grants take at most the
      burst and the window: grants * interval <= burst * interval + (t2 - t1). */
  lemma RateBound(l: Lane, es: seq<Event>, t: nat, t1: nat, t2: nat)
    requires Bounded(l) && Whole(l) && 0 < l.cfg.interval
    requires Ordered(es, t) && t1 <= t2
    ensures GrantsIn(l, es, t1, t2) * l.cfg.interval <= l.cfg.burst * l.cfg.interval + (t2 - t1)
  {
    CreditNonNegative(l);
    SpendingInWindow(MeterOf(l), es, t, t1, t2);
    GrantsSpent(l, es, t1, t2);
  }

  /** A lane never leaves the whole nanoseconds unless it is reconfigured. */
  lemma {:induction false} StaysWhole(l: Lane, es: seq<Event>, k: nat)
    requires Bounded(l) && Whole(l) && k <= |es|
    ensures Whole(Before(l, es, k))
    decreases k
  {
    if k > 0 {
      StaysWhole(l, es, k - 1);
      StepMetered(Before(l, es, k - 1), es[k - 1]);
    }
  }

  // ---------------------------------------------------------------- grants

  /** Grant soundness: a wait of zero is a counted grant and nothing else is; a
      paced grant costs one interval of credit; a refusal asks for a wait of at
      least a nanosecond and is counted as one. */
  lemma GrantSound(l: Lane, now: nat)
    requires Bounded(l) && Whole(l)
    ensures var r := Reserve(l, now);
            && (r.wait == 0 <==> Granted(l, now))
            && (r.wait == 0 ==> l.cooldownUntil <= now && r.lane.waits == l.waits)
            && (r.wait == 0 && 0 < l.cfg.interval ==>
                  MeterOf(r.lane).credit == Level(MeterOf(l), now) - l.cfg.interval)
            && (r.wait != 0 ==> 1 <= r.wait && r.lane.waits == l.waits + 1)
  {
    ReserveMetered(l, now);
  }

  /** Remaining == 0 means a permit is available now. */
  lemma RemainingZeroGrants(l: Lane, now: nat)
    requires Bounded(l) && Whole(l) && Remaining(l, now) == 0
    ensures Granted(l, now) && Reserve(l, now).wait == 0
  {
    GrantSound(l, now);
    if 0 < l.cfg.interval {
      EnoughCredit(l, Credit(l).Floor);
      RefillBounded(l, now);
    }
  }

  /** A positive Remaining can be wrong the other way, because it does not refill:
      a permit is due although a wait is reported exactly when the lane is paced, out
      of cooldown, and has earned the permit since the last reservation. */
  lemma RemainingIsStaleExactly(l: Lane, now: nat)
    requires Bounded(l) && Whole(l)
    ensures Granted(l, now) && Remaining(l, now) > 0
            <==> l.cooldownUntil <= now && 0 < l.cfg.interval && l.tokens < 1.0 && Refill(l, now).tokens >= 1.0
  {
    GrantSound(l, now);
    if l.cooldownUntil <= now && 0 < l.cfg.interval {
      RefillBounded(l, now);
      EnoughCredit(l, Credit(l).Floor);
    }
  }

  /** After one grant at time 0, at ten nanoseconds a permit, the lane reports ten
      nanoseconds at time 10 and grants at once. */
  lemma RemainingCanBeStale()
    ensures var l := Lane(Config(10, 1, 1), 0.0, 0, 0, 1, 0);
            && l == Before(NewLane(Config(10, 1, 1), 0), [Call(0)], 1)
            && Remaining(l, 10) == 10 && Granted(l, 10)
  {
    assert Before(NewLane(Config(10, 1, 1), 0), [Call(0)], 0) == NewLane(Config(10, 1, 1), 0);
  }

  /** What Remaining reports: the rest of the pause; out of it, nothing for an unpaced
      lane, and what the tokens left at the last reservation lack of one permit. */
  lemma RemainingExactly(l: Lane, now: nat)
    requires Bounded(l) && Whole(l)
    ensures Remaining(l, now) ==
            if now < l.cooldownUntil then l.cooldownUntil - now
            else if l.cfg.interval == 0 || MeterOf(l).credit >= l.cfg.interval then 0
            else l.cfg.interval - MeterOf(l).credit
  {
    if 0 < l.cfg.interval {
      EnoughCredit(l, Credit(l).Floor);
    }
  }

  /** Out of a pause, waiting as long as Remaining reports is enough. */
  lemma RemainingIsEnough(l: Lane, now: nat, later: nat)
    requires Bounded(l) && Whole(l) && l.cooldownUntil <= now && l.last <= now && now + Remaining(l, now) <= later
    ensures Granted(l, later)
  {
    RemainingExactly(l, now);
    GrantedExactly(l, later);
    CreditNonNegative(l);
    CapHoldsOne(l.cfg.burst, l.cfg.interval);
  }

  lemma CapHoldsOne(burst: int, interval: int)
    requires 1 <= burst && 0 <= interval
    ensures interval <= burst * interval
  {
    OneMore(burst - 1, interval);
    ProductAtLeastZero(burst - 1, interval);
  }

  lemma ProductAtLeastZero(x: int, y: int)
    requires 0 <= x && 0 <= y
    ensures 0 <= x * y
  {}

  // ---------------------------------------------------------------- when a call is granted

  /** A call is granted exactly when the pause is over and, on a paced lane, a whole
      interval has been earned. */
  lemma GrantedExactly(l: Lane, now: nat)
    requires Bounded(l) && Whole(l)
    ensures Granted(l, now) <==>
              l.cooldownUntil <= now && (l.cfg.interval == 0 || l.cfg.interval <= Level(MeterOf(l), now))
  {
    ReserveMetered(l, now);
  }

  /** How many intervals fit into a credit. */
  function IntervalsIn(credit: int, interval: int): nat
    requires 0 < interval
    decreases if credit < 0 then 0 else credit
  {
    if credit < interval then 0 else 1 + IntervalsIn(credit - interval, interval)
  }

  lemma {:induction false} IntervalsProduct(k: nat, interval: int)
    requires 0 < interval
    ensures IntervalsIn(k * interval, interval) == k
  {
    if k > 0 {
      OneMore(k - 1, interval);
      ProductAtLeastZero(k - 1, interval);
      IntervalsProduct(k - 1, interval);
    }
  }

  /** Whole intervals earned by now. */
  ghost function Permits(l: Lane, now: nat): nat
    requires IsNormal(l.cfg) && 0 < l.cfg.interval
  {
    IntervalsIn(Level(MeterOf(l), now), l.cfg.interval)
  }

  lemma CallSpendsPermit(l: Lane, at: nat)
    requires Bounded(l) && Whole(l) && 0 < l.cfg.interval && l.cooldownUntil <= at && 0 <= Level(MeterOf(l), at)
    ensures var m := Step(l, Call(at));
            && Whole(m) && m.cooldownUntil == l.cooldownUntil && 0 <= Level(MeterOf(m), at)
            && (Granted(l, at) <==> 1 <= Permits(l, at))
            && Permits(m, at) == if Granted(l, at) then Permits(l, at) - 1 else 0
  {
    StepMetered(l, Call(at));
    GrantedExactly(l, at);
  }

  function AtMost(a: int, b: int): int {
    if a <= b then a else b
  }

  /** Of any number of calls at one instant out of a pause, a paced lane grants as
      many as it has permits, no more and no fewer. */
  lemma {:induction false} RushGrantsExactly(l: Lane, at: nat, n: nat)
    requires Bounded(l) && Whole(l) && 0 < l.cfg.interval && l.cooldownUntil <= at && 0 <= Level(MeterOf(l), at)
    ensures GrantsIn(l, Rush(at, n), at, at) == AtMost(n, Permits(l, at))
    decreases n
  {
    if n > 0 {
      CallSpendsPermit(l, at);
      RushGrantsExactly(Step(l, Call(at)), at, n - 1);
      assert Rush(at, n)[1..] == Rush(at, n - 1);
    }
  }

  /** A new lane grants its whole burst at once, and so does a lane out of a pause that
      was left alone long enough to earn it: the burst is reached as well as kept. */
  lemma BurstIsReached(l: Lane, at: nat, n: nat)
    requires Bounded(l) && Whole(l) && 0 < l.cfg.interval && l.cooldownUntil <= at
    requires l == NewLane(l.cfg, at) || l.last + l.cfg.burst * l.cfg.interval <= at
    ensures GrantsIn(l, Rush(at, n), at, at) == AtMost(n, l.cfg.burst)
  {
    FullLevel(l, at);
    ProductAtLeastZero(l.cfg.burst, l.cfg.interval);
    IntervalsProduct(l.cfg.burst, l.cfg.interval);
    RushGrantsExactly(l, at, n);
  }

  lemma FullLevel(l: Lane, at: nat)
    requires Bounded(l) && Whole(l) && 0 < l.cfg.interval
    requires l == NewLane(l.cfg, at) || l.last + l.cfg.burst * l.cfg.interval <= at
    ensures Level(MeterOf(l), at) == l.cfg.burst * l.cfg.interval
  {
    CreditNonNegative(l);
    BurstWorth(l.cfg.burst, l.cfg.interval);
    if l == NewLane(l.cfg, at) {
      assert Credit(l) == (l.cfg.burst * l.cfg.interval) as real;
    }
  }

  // ---------------------------------------------------------------- reconfiguring

  /** Changing the interval of a live lane reaches a zero that is no grant: nine
      tenths of a permit at ten nanoseconds each, then nine nanoseconds each. */
  lemma ReconfigureCanGrantSilently()
    ensures var l := Lane(Config(10, 1, 1), 0.9, 9, 0, 1, 1);
            var m := Reconfigure(l, Config(9, 1, 1));
            && l == Before(NewLane(Config(10, 1, 1), 0), [Call(0), Call(9)], 2)
            && Bounded(m) && Whole(l) && !Whole(m)
            && Reserve(m, 9).wait == 0 && !Granted(m, 9)
  {
    var start, es := NewLane(Config(10, 1, 1), 0), [Call(0), Call(9)];
    assert Before(start, es, 0) == start;
    assert Before(start, es, 1) == Lane(Config(10, 1, 1), 0.0, 0, 0, 1, 0);
  }

  // ---------------------------------------------------------------- a lane without pacing

  lemma UnpacedAlwaysGrants(l: Lane, now: nat)
    requires Bounded(l) && l.cfg.interval == 0 && l.cooldownUntil <= now
    ensures Granted(l, now) && Reserve(l, now).wait == 0
    ensures Reserve(l, now).lane == l.(acquisitions := l.acquisitions + 1)
  {}

  /** In no run are more calls granted at one instant than the burst. */
  ghost predicate BurstKept(l: Lane)
    requires Bounded(l)
  {
    forall es, t, at: nat :: Ordered(es, t) ==> GrantsIn(l, es, at, at) <= l.cfg.burst
  }

  function Rush(at: nat, n: nat): seq<Event> {
    if n == 0 then [] else [Call(at)] + Rush(at, n - 1)
  }

  lemma {:induction false} RushIsOrdered(at: nat, n: nat)
    ensures Ordered(Rush(at, n), at)
  {
    if n > 0 {
      RushIsOrdered(at, n - 1);
      assert Rush(at, n)[1..] == Rush(at, n - 1);
    }
  }

  lemma {:induction false} RushIsGranted(l: Lane, at: nat, n: nat)
    requires Bounded(l) && l.cfg.interval == 0 && l.cooldownUntil <= at
    ensures GrantsIn(l, Rush(at, n), at, at) == n
    decreases n
  {
    if n > 0 {
      UnpacedAlwaysGrants(l, at);
      RushIsGranted(Step(l, Call(at)), at, n - 1);
      assert Rush(at, n)[1..] == Rush(at, n - 1);
    }
  }

  lemma Cancel(n: int, b: int, i: int)
    requires 0 < i
    ensures n * i <= b * i ==> n <= b
  {
    if n > b {
      assert (n - b) * i > 0;
    }
  }

  /** The burst limits what is granted at once exactly when the lane is paced: an
      interval of zero switches it off. */
  lemma BurstKeptExactly(l: Lane)
    requires Bounded(l) && Whole(l)
    ensures BurstKept(l) <==> 0 < l.cfg.interval
  {
    if 0 < l.cfg.interval {
      forall es, t, at: nat | Ordered(es, t) ensures GrantsIn(l, es, at, at) <= l.cfg.burst {
        RateBound(l, es, t, at, at);
        Cancel(GrantsIn(l, es, at, at), l.cfg.burst, l.cfg.interval);
      }
    } else {
      RushIsOrdered(l.cooldownUntil, l.cfg.burst + 1);
      RushIsGranted(l, l.cooldownUntil, l.cfg.burst + 1);
    }
  }

  // ---------------------------------------------------------------- cooldown

  lemma {:induction false} CooldownGrows(l: Lane, es: seq<Event>, i: nat, j: nat)
    requires Bounded(l) && i <= j <= |es|
    ensures Before(l, es, i).cooldownUntil <= Before(l, es, j).cooldownUntil
    decreases j
  {
    if i < j {
      CooldownGrows(l, es, i, j - 1);
    }
  }

  /** The pause an observation asks for. */
  function Pause(cfg: Config, retryAfter: int): int {
    var asked := if retryAfter <= 0 then cfg.cooldown else retryAfter;
    if asked <= 0 then DEFAULT_COOLDOWN else asked
  }

  /** The hint if it is positive, else the pause of the lane. */
  lemma PauseOfLane(cfg: Config, retryAfter: int)
    requires IsNormal(cfg)
    ensures Pause(cfg, retryAfter) == if retryAfter > 0 then retryAfter else cfg.cooldown
  {}

  /** The pause after any run is the latest that any observation asked for, or the one
      there was before: nothing else opens, extends or ends a pause. */
  lemma {:induction false} PauseIsLatest(l: Lane, es: seq<Event>, k: nat)
    requires Bounded(l) && k <= |es|
    ensures var until := Before(l, es, k).cooldownUntil;
            && l.cooldownUntil <= until
            && (forall i :: 0 <= i < k && es[i].Limited? ==> es[i].now + Pause(l.cfg, es[i].retryAfter) <= until)
            && (until == l.cooldownUntil
                || exists i :: 0 <= i < k && es[i].Limited? && until == es[i].now + Pause(l.cfg, es[i].retryAfter))
    decreases k
  {
    if k > 0 {
      PauseIsLatest(l, es, k - 1);
      PauseStep(Before(l, es, k - 1), es[k - 1]);
    }
  }

  lemma PauseStep(l: Lane, e: Event)
    requires Bounded(l)
    ensures Step(l, e).cooldownUntil ==
            if e.Limited? && l.cooldownUntil < e.now + Pause(l.cfg, e.retryAfter) then
              e.now + Pause(l.cfg, e.retryAfter)
            else l.cooldownUntil
  {}

  lemma ObserveOpensPause(l: Lane, now: nat, retryAfter: int)
    ensures now + Pause(l.cfg, retryAfter) <= Observe(l, now, retryAfter).cooldownUntil
  {}

  lemma PauseRefuses(l: Lane, now: nat)
    requires Bounded(l) && now < l.cooldownUntil
    ensures !Granted(l, now) && 1 <= Reserve(l, now).wait
  {}

  /** After a rate-limit observation nothing is granted until its pause is over,
      and no later, shorter pause can cut it short. */
  lemma NoGrantDuringPause(l: Lane, es: seq<Event>, i: nat, j: nat)
    requires Bounded(l) && i < j < |es| && es[i].Limited? && es[j].Call?
    requires es[j].now < es[i].now + Pause(l.cfg, es[i].retryAfter)
    ensures !Granted(Before(l, es, j), es[j].now)
    ensures 1 <= Reserve(Before(l, es, j), es[j].now).wait
  {
    ObserveOpensPause(Before(l, es, i), es[i].now, es[i].retryAfter);
    CooldownGrows(l, es, i + 1, j);
    PauseRefuses(Before(l, es, j), es[j].now);
  }

  // ---------------------------------------------------------------- an isolated Acquire

  /** After waiting as asked, a lane out of cooldown grants. */
  lemma WaitedEnough(l: Lane, now: nat, later: nat)
    requires Bounded(l) && Whole(l) && l.cooldownUntil <= now
    requires 0 < Reserve(l, now).wait && now + Reserve(l, now).wait <= later
    requires l.last <= now
    ensures Granted(Reserve(l, now).lane, later)
  {
    ReserveMetered(l, now);
    ReserveMetered(Reserve(l, now).lane, later);
    var m, b := MeterOf(l), l.cfg.burst;
    assert b * l.cfg.interval >= l.cfg.interval;
  }

  /** One turn of the Acquire loop: a grant, or a wait that outlasts the cooldown
      or, out of cooldown, is enough for the next turn to grant. */
  lemma AcquireTurn(l: Lane, now: nat)
    requires Bounded(l) && Whole(l) && l.last <= now
    ensures var r := Reserve(l, now);
            && Bounded(r.lane) && Whole(r.lane) && r.lane.last <= now && r.lane.cooldownUntil == l.cooldownUntil
            && 0 <= r.wait
            && (r.wait == 0 ==> Granted(l, now) && l.cooldownUntil <= now)
            && (0 < r.wait ==> r.lane.acquisitions == l.acquisitions)
            && (now < l.cooldownUntil ==> now + r.wait == l.cooldownUntil)
            && (0 < r.wait && l.cooldownUntil <= now ==>
                  forall later: nat :: now + r.wait <= later ==> Granted(r.lane, later))
  {
    GrantSound(l, now);
    ReserveMetered(l, now);
    var r := Reserve(l, now);
    if 0 < r.wait && l.cooldownUntil <= now {
      forall later: nat | now + r.wait <= later
        ensures Granted(r.lane, later)
      {
        WaitedEnough(l, now, later);
      }
    }
  }

  /** Where an undisturbed Acquire loop stands after so many sleeps: the first
      outlasted the cooldown, the second the shortfall. */
  ghost predicate InTurn(first: Lane, l: Lane, now: nat, sleeps: nat) {
    && Bounded(l) && Whole(l) && l.last <= now
    && l.acquisitions == first.acquisitions && l.cooldownUntil == first.cooldownUntil
    && sleeps <= 2
    && (sleeps == 1 ==> l.cooldownUntil <= now)
    && (sleeps == 2 ==> l.cooldownUntil <= now && Granted(l, now))
  }

  lemma NextTurn(first: Lane, l: Lane, now: nat, sleeps: nat, later: nat)
    requires InTurn(first, l, now, sleeps)
    ensures var r := Reserve(l, now);
            && 0 <= r.wait
            && (r.wait == 0 ==> r.lane.acquisitions == first.acquisitions + 1 && first.cooldownUntil <= now)
            && (0 < r.wait && now + r.wait <= later ==> sleeps < 2 && InTurn(first, r.lane, later, sleeps + 1))
  {
    AcquireTurn(l, now);
    GrantSound(l, now);
  }
}
