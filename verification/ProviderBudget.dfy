/** The registry of provider lanes as the source writes it
    (pkg/providerbudget/budget.go): one mutable lane per provider, created on
    first use.  The clock reading of each call is a parameter. */
module ProviderBudget {
  import opened TokenLane
  import opened RateGuarantees

  datatype Provider = Provider(name: string)

  datatype Outcome = Acquired(at: nat) | Cancelled

  class LaneState {
    var cfg: Config
    var tokens: real
    var last: nat
    var cooldownUntil: nat
    var acquisitions: nat
    var waits: nat

    constructor (cfg: Config, now: nat)
      ensures View() == NewLane(cfg, now)
    {
      this.cfg := cfg;
      tokens := cfg.burst as real;
      last := now;
      cooldownUntil := 0;
      acquisitions := 0;
      waits := 0;
    }

    ghost function View(): Lane
      reads this
    {
      Lane(cfg, tokens, last, cooldownUntil, acquisitions, waits)
    }
  }

  class Registry {
    const defaults: Config
    var lanes: map<Provider, LaneState>

    ghost predicate Valid()
      reads this, lanes.Values
    {
      && IsNormal(defaults)
      && (forall p :: p in lanes ==> Bounded(lanes[p].View()))
      && (forall p, q :: p in lanes && q in lanes && p != q ==> lanes[p] != lanes[q])
    }

    constructor (defaults: Config)
      ensures Valid() && lanes == map[] && this.defaults == Normalized(defaults)
    {
      this.defaults := Normalized(defaults);
      lanes := map[];
    }

    /** The lane a call at time now would find. */
    ghost function LaneAt(p: Provider, now: nat): Lane
      reads this, lanes.Values
    {
      if p in lanes then lanes[p].View() else NewLane(defaults, now)
    }

    /** No lane but that of p changed. */
    twostate predicate OnlyLane(p: Provider)
      reads this, lanes.Values
    {
      forall q :: q != p ==>
        && (q in old(lanes) <==> q in lanes)
        && (q in lanes ==> lanes[q] == old(lanes[q]) && lanes[q].View() == old(lanes[q].View()))
    }

    method LaneFor(p: Provider, now: nat) returns (st: LaneState)
      requires Valid()
      modifies this
      ensures Valid() && OnlyLane(p)
      ensures p in lanes && st == lanes[p] && st.View() == old(LaneAt(p, now))
      ensures p in old(lanes) ==> lanes == old(lanes)
      ensures p !in old(lanes) ==> fresh(st)
    {
      if p in lanes {
        st := lanes[p];
      } else {
        NewLaneWhole(defaults, now);
        st := new LaneState(defaults, now);
        lanes := lanes[p := st];
      }
    }

    method Configure(p: Provider, cfg: Config, now: nat)
      requires Valid()
      modifies this, lanes.Values
      ensures Valid()
      ensures p.name == "" ==> lanes == old(lanes) && OnlyLane(p)
      ensures p.name != "" ==> OnlyLane(p) && p in lanes
      ensures p.name != "" && p in old(lanes) ==> lanes[p].View() == Reconfigure(old(lanes[p].View()), cfg)
      ensures p.name != "" && p !in old(lanes) ==> lanes[p].View() == NewLane(Normalized(cfg), now)
    {
      if p.name == "" {
        return;
      }
      var c := Normalized(cfg);
      if p !in lanes {
        NewLaneWhole(c, now);
        var st := new LaneState(c, now);
        lanes := lanes[p := st];
        return;
      }
      var st := lanes[p];
      st.cfg := c;
      if st.tokens > c.burst as real {
        st.tokens := c.burst as real;
      }
    }

    /** Consume a permit or say how long to wait. */
    method ReservePermit(p: Provider, now: nat) returns (wait: int)
      requires Valid()
      modifies this, lanes.Values
      ensures Valid() && OnlyLane(p) && p in lanes
      ensures if p in old(lanes) then lanes == old(lanes) else fresh(lanes[p])
      ensures var r := Reserve(old(LaneAt(p, now)), now);
              lanes[p].View() == r.lane && wait == r.wait
    {
      var st := LaneFor(p, now);
      ghost var before := st.View();
      OperationsBounded(before, now, 0, st.cfg);
      wait := ReserveOn(st, now);
    }

    static method ReserveOn(st: LaneState, now: nat) returns (wait: int)
      requires Bounded(st.View())
      modifies st
      ensures st.View() == Reserve(old(st.View()), now).lane && wait == Reserve(old(st.View()), now).wait
    {
      if now < st.cooldownUntil {
        st.waits := st.waits + 1;
        return st.cooldownUntil - now;
      }
      if st.cfg.interval <= 0 {
        st.acquisitions := st.acquisitions + 1;
        return 0;
      }
      RefillBounded(st.View(), now);
      var elapsed := now - st.last;
      if elapsed > 0 {
        var more := st.tokens + elapsed as real / st.cfg.interval as real;
        st.tokens := if more > st.cfg.burst as real then st.cfg.burst as real else more;
        st.last := now;
      }
      if st.tokens >= 1.0 {
        st.tokens := st.tokens - 1.0;
        st.acquisitions := st.acquisitions + 1;
        return 0;
      }
      st.waits := st.waits + 1;
      var deficit := 1.0 - st.tokens;
      ProductNonNegative(deficit, st.cfg.interval as real);
      wait := Truncate(deficit * st.cfg.interval as real);
    }

    /** One turn of the Acquire loop: the permit, or a sleep that takes the loop one
        step further.  later is when the turn is over. */
    method TakeTurn(p: Provider, now: nat, late: nat, ghost first: Lane, ghost sleeps: nat)
      returns (granted: bool, later: nat)
      requires Valid() && InTurn(first, LaneAt(p, now), now, sleeps)
      modifies this, lanes.Values
      ensures Valid() && OnlyLane(p) && p in lanes
      ensures lanes == old(lanes) || fresh(lanes[p])
      ensures granted ==> lanes[p].acquisitions == first.acquisitions + 1 && first.cooldownUntil <= now
      ensures !granted ==> sleeps < 2 && InTurn(first, lanes[p].View(), later, sleeps + 1)
    {
      ghost var lane := LaneAt(p, now);
      var wait := ReservePermit(p, now);
      granted, later := wait <= 0, now;
      if !granted {
        later := now + wait + late;
      }
      NextTurn(first, lane, now, sleeps, later);
    }

    /** The loop of Acquire on a lane nobody else uses meanwhile.  late says how
        much later than asked a sleep returns; cancelled, whether the context is
        done at the k-th check or during the sleep before it.  It sleeps at most
        twice: once for the cooldown, once for a permit. */
    method Acquire(p: Provider, start: nat, late: nat -> nat, cancelled: nat -> bool)
      returns (outcome: Outcome, sleeps: nat)
      requires Valid()
      requires Whole(LaneAt(p, start)) && LaneAt(p, start).last <= start
      modifies this, lanes.Values
      ensures Valid() && OnlyLane(p) && sleeps <= 2
      ensures outcome == Cancelled <==> exists k: nat :: k <= sleeps && cancelled(k)
      ensures outcome.Acquired? ==>
                && p in lanes && lanes[p].acquisitions == old(LaneAt(p, start)).acquisitions + 1
                && old(LaneAt(p, start)).cooldownUntil <= outcome.at
    {
      ghost var first := LaneAt(p, start);
      var now: nat := start;
      sleeps := 0;
      while true
        invariant Valid() && OnlyLane(p) && (sleeps == 0 ==> now == start)
        invariant p in lanes ==> fresh(lanes[p]) || lanes == old(lanes)
        invariant InTurn(first, LaneAt(p, now), now, sleeps)
        invariant forall k: nat :: k < sleeps ==> !cancelled(k)
        decreases 2 - sleeps
      {
        if cancelled(sleeps) {
          return Cancelled, sleeps;
        }
        var granted, later := TakeTurn(p, now, late(sleeps), first, sleeps);
        if granted {
          return Acquired(now), sleeps;
        }
        now, sleeps := later, sleeps + 1;
      }
    }

    method ObserveRateLimit(p: Provider, retryAfter: int, now: nat)
      requires Valid()
      modifies this, lanes.Values
      ensures Valid() && OnlyLane(p)
      ensures p.name == "" ==> lanes == old(lanes) && (p in lanes ==> lanes[p].View() == old(lanes[p].View()))
      ensures p.name != "" ==> p in lanes && lanes[p].View() == Observe(old(LaneAt(p, now)), now, retryAfter)
    {
      if p.name == "" {
        return;
      }
      var st := LaneFor(p, now);
      var pause := retryAfter;
      if pause <= 0 {
        pause := st.cfg.cooldown;
      }
      if pause <= 0 {
        pause := DEFAULT_COOLDOWN;
      }
      if now + pause > st.cooldownUntil {
        st.cooldownUntil := now + pause;
      }
    }

    /** How long the lane is paused or until its next permit; it reads the tokens as
        they were left, without refilling them. */
    method RemainingFor(p: Provider, now: nat) returns (wait: int)
      requires Valid()
      modifies this
      ensures Valid() && OnlyLane(p) && p in lanes && lanes[p].View() == old(LaneAt(p, now))
      ensures wait == Remaining(old(LaneAt(p, now)), now)
    {
      var st := LaneFor(p, now);
      if now < st.cooldownUntil {
        return st.cooldownUntil - now;
      }
      if st.cfg.interval <= 0 || st.tokens >= 1.0 {
        return 0;
      }
      ProductNonNegative(1.0 - st.tokens, st.cfg.interval as real);
      wait := Truncate((1.0 - st.tokens) * st.cfg.interval as real);
    }
  }
}
