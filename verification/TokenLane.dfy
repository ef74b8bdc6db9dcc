/** One provider lane (pkg/providerbudget/budget.go): a token bucket with a
    cooldown.  Times and durations are whole nanoseconds after the zero time;
    tokens are a real number, without rounding. */
module TokenLane {

  const DEFAULT_COOLDOWN := 30_000_000_000

  datatype Config = Config(interval: int, burst: int, cooldown: int)

  function Normalized(c: Config): Config {
    Config(
      if c.interval < 0 then 0 else c.interval,
      if c.burst < 1 then 1 else c.burst,
      if c.cooldown <= 0 then DEFAULT_COOLDOWN else c.cooldown)
  }

  predicate IsNormal(c: Config) {
    0 <= c.interval && 1 <= c.burst && 0 < c.cooldown
  }

  /** cooldownUntil is 0, the zero time, while no pause was ever asked for. */
  datatype Lane = Lane(
    cfg: Config, tokens: real, last: nat, cooldownUntil: nat, acquisitions: nat, waits: nat)

  function NewLane(cfg: Config, now: nat): Lane {
    Lane(cfg, cfg.burst as real, now, 0, 0, 0)
  }

  /** Conversion of a non-negative float to a Duration. */
  function Truncate(x: real): int
    requires 0.0 <= x
  {
    x.Floor
  }

  predicate Bounded(l: Lane) {
    IsNormal(l.cfg) && 0.0 <= l.tokens <= l.cfg.burst as real
  }

  // ---------------------------------------------------------------- operations

  /** One token per interval, on top of t. */
  function Accrued(t: real, elapsed: int, interval: int): real
    requires 0 < interval
  {
    t + elapsed as real / interval as real
  }

  function Refill(l: Lane, now: nat): (r: Lane)
    requires 0 < l.cfg.interval
  {
    if now > l.last then
      var more := Accrued(l.tokens, now - l.last, l.cfg.interval);
      l.(tokens := if more > l.cfg.burst as real then l.cfg.burst as real else more, last := now)
    else l
  }

  datatype Reserved = Reserved(lane: Lane, wait: int)

  function Reserve(l: Lane, now: nat): Reserved
    requires Bounded(l)
  {
    if now < l.cooldownUntil then
      Reserved(l.(waits := l.waits + 1), l.cooldownUntil - now)
    else if l.cfg.interval <= 0 then
      Reserved(l.(acquisitions := l.acquisitions + 1), 0)
    else
      RefillBounded(l, now);
      Take(Refill(l, now))
  }

  /** Spend a permit, or say how long until there is one. */
  function Take(f: Lane): Reserved
    requires Bounded(f)
  {
    if f.tokens >= 1.0 then
      Reserved(f.(tokens := f.tokens - 1.0, acquisitions := f.acquisitions + 1), 0)
    else
      Reserved(f.(waits := f.waits + 1), Truncate(Shortfall(f)))
  }

  /** What is missing for one permit, in nanoseconds. */
  function Shortfall(l: Lane): (x: real)
    requires Bounded(l) && l.tokens <= 1.0
    ensures 0.0 <= x
  {
    ProductNonNegative(1.0 - l.tokens, l.cfg.interval as real);
    (1.0 - l.tokens) * l.cfg.interval as real
  }

  lemma ProductNonNegative(x: real, y: real)
    requires 0.0 <= x && 0.0 <= y
    ensures 0.0 <= x * y
  {}

  function Observe(l: Lane, now: nat, retryAfter: int): Lane {
    var asked := if retryAfter <= 0 then l.cfg.cooldown else retryAfter;
    var pause := if asked <= 0 then DEFAULT_COOLDOWN else asked;
    if now + pause > l.cooldownUntil then l.(cooldownUntil := now + pause) else l
  }

  function Remaining(l: Lane, now: nat): int
    requires Bounded(l)
  {
    if now < l.cooldownUntil then l.cooldownUntil - now
    else if l.cfg.interval <= 0 || l.tokens >= 1.0 then 0
    else Truncate(Shortfall(l))
  }

  function Reconfigure(l: Lane, cfg: Config): Lane {
    var c := Normalized(cfg);
    l.(cfg := c, tokens := if l.tokens > c.burst as real then c.burst as real else l.tokens)
  }

  lemma RefillBounded(l: Lane, now: nat)
    requires Bounded(l) && 0 < l.cfg.interval
    ensures Bounded(Refill(l, now)) && l.tokens <= Refill(l, now).tokens
  {
    if now > l.last {
      assert (now - l.last) as real / l.cfg.interval as real >= 0.0;
    }
  }

  /** What a configuration asks for is kept where it makes sense; otherwise there is no
      pacing, one permit, and a pause of 30 seconds. */
  lemma NormalizedKeeps(c: Config)
    ensures IsNormal(Normalized(c)) && (IsNormal(c) ==> Normalized(c) == c)
    ensures Normalized(c).interval == (if c.interval >= 0 then c.interval else 0)
    ensures Normalized(c).burst == (if c.burst >= 1 then c.burst else 1)
    ensures Normalized(c).cooldown == if c.cooldown > 0 then c.cooldown else 30_000_000_000
  {}

  /** A lane starts with its whole burst and no pause; reconfiguring changes the
      settings and cuts the tokens down to the new burst, nothing else. */
  lemma SettingsOfLanes(l: Lane, cfg: Config, now: nat)
    ensures NewLane(cfg, now) == Lane(cfg, cfg.burst as real, now, 0, 0, 0)
    ensures var m := Reconfigure(l, cfg);
            && m.cfg == Normalized(cfg) && m.last == l.last && m.cooldownUntil == l.cooldownUntil
            && m.acquisitions == l.acquisitions && m.waits == l.waits
            && m.tokens <= l.tokens && m.tokens <= m.cfg.burst as real
            && (m.tokens == l.tokens || m.tokens == m.cfg.burst as real)
  {}

  /** Every operation keeps the token count between zero and the burst. */
  lemma OperationsBounded(l: Lane, now: nat, retryAfter: int, cfg: Config)
    requires Bounded(l)
    ensures Bounded(Reserve(l, now).lane) && Bounded(Observe(l, now, retryAfter)) && Bounded(Reconfigure(l, cfg))
  {
    if 0 < l.cfg.interval {
      RefillBounded(l, now);
    }
  }

  // ---------------------------------------------------------------- a zero that is no grant

  /** A Reserve that counted an acquisition. */
  predicate Granted(l: Lane, now: nat)
    requires Bounded(l)
  {
    Reserve(l, now).lane.acquisitions == l.acquisitions + 1
  }

  lemma TruncateZero(x: real)
    requires 0.0 <= x
    ensures Truncate(x) == 0 <==> x < 1.0
  {}

  /** Acquire takes a wait of zero for a grant.  It is one exactly unless the lane
      is paced, out of cooldown, short of a permit, and short by less than one
      nanosecond. */
  lemma ZeroWithoutGrantExactly(l: Lane, now: nat)
    requires Bounded(l)
    ensures (Reserve(l, now).wait == 0 && !Granted(l, now)) <==>
              (&& l.cooldownUntil <= now && 0 < l.cfg.interval
               && Refill(l, now).tokens < 1.0 && Shortfall(Refill(l, now)) < 1.0)
  {
    if 0 < l.cfg.interval {
      RefillBounded(l, now);
      var f := Refill(l, now);
      if f.tokens < 1.0 {
        TruncateZero(Shortfall(f));
      }
    }
  }

  // ---------------------------------------------------------------- whole nanoseconds

  /** The tokens are worth a whole number of nanoseconds.  True of a new lane and
      kept by everything but a change of the interval. */
  predicate Whole(l: Lane) {
    Credit(l) == Credit(l).Floor as real
  }

  function Credit(l: Lane): real {
    Worth(l.tokens, l.cfg.interval)
  }

  /** Tokens in nanoseconds. */
  function Worth(tokens: real, interval: int): real {
    tokens * interval as real
  }

  lemma NewLaneWhole(cfg: Config, now: nat)
    requires IsNormal(cfg)
    ensures Bounded(NewLane(cfg, now)) && Whole(NewLane(cfg, now))
  {
    assert Credit(NewLane(cfg, now)) == (cfg.burst * cfg.interval) as real;
  }

  // ---------------------------------------------------------------- the same lane in whole nanoseconds

  /** credit is what the tokens are worth; cap is what the burst is worth. */
  datatype Meter = Meter(interval: nat, cap: nat, cooldown: nat, credit: int, last: nat, cooldownUntil: nat)

  ghost function MeterOf(l: Lane): Meter
    requires IsNormal(l.cfg)
  {
    assert 0 <= l.cfg.burst * l.cfg.interval;
    Meter(l.cfg.interval, l.cfg.burst * l.cfg.interval, l.cfg.cooldown, Credit(l).Floor, l.last, l.cooldownUntil)
  }

  function Fill(m: Meter, now: nat): Meter {
    if now > m.last then
      var more := m.credit + (now - m.last);
      m.(credit := if more > m.cap then m.cap else more, last := now)
    else m
  }

  datatype Metered = Metered(meter: Meter, granted: bool, wait: int)

  function Ask(m: Meter, now: nat): Metered {
    if now < m.cooldownUntil then Metered(m, false, m.cooldownUntil - now)
    else if m.interval == 0 then Metered(m, true, 0)
    else
      Draw(Fill(m, now))
  }

  function Draw(f: Meter): Metered {
    if f.credit >= f.interval then Metered(f.(credit := f.credit - f.interval), true, 0)
    else Metered(f, false, f.interval - f.credit)
  }

  lemma MoreTokens(t: real, e: int, i: int)
    requires 0 < i
    ensures Worth(Accrued(t, e, i), i) == Worth(t, i) + e as real
  {
    var r := i as real;
    assert e as real / r * r == e as real;
    assert (t + e as real / r) * r == t * r + e as real / r * r;
  }

  lemma ScaleOrder(t: real, u: real, i: int)
    requires 0 < i
    ensures t <= u <==> Worth(t, i) <= Worth(u, i)
  {
    var r := i as real;
    if t <= u {
      assert (u - t) * r >= 0.0;
    } else {
      assert (t - u) * r > 0.0;
    }
  }

  lemma BurstWorth(burst: int, i: int)
    ensures Worth(burst as real, i) == (burst * i) as real
  {
  }

  /** Capping the tokens is capping what they are worth. */
  lemma RefillCredit(l: Lane, now: nat, k: int)
    requires 0 < l.cfg.interval && now > l.last && Credit(l) == k as real
    ensures var more, cap := k + (now - l.last), l.cfg.burst * l.cfg.interval;
            Credit(Refill(l, now)) == (if more > cap then cap else more) as real
  {
    var i, e := l.cfg.interval, now - l.last;
    MoreTokens(l.tokens, e, i);
    ScaleOrder(Accrued(l.tokens, e, i), l.cfg.burst as real, i);
    BurstWorth(l.cfg.burst, i);
  }

  lemma RefillMetered(l: Lane, now: nat)
    requires Bounded(l) && Whole(l) && 0 < l.cfg.interval
    ensures Whole(Refill(l, now)) && MeterOf(Refill(l, now)) == Fill(MeterOf(l), now)
  {
    if now > l.last {
      RefillCredit(l, now, Credit(l).Floor);
    }
  }

  /** Two lanes with the same settings and the same whole credit are one meter. */
  lemma SameMeter(l: Lane, m: Lane, k: int)
    requires l.cfg == m.cfg && IsNormal(l.cfg) && l.last == m.last && l.cooldownUntil == m.cooldownUntil
    requires Credit(m) == k as real
    ensures Whole(m) && MeterOf(m) == MeterOf(l).(credit := k)
  {}

  lemma EnoughCredit(f: Lane, k: int)
    requires Credit(f) == k as real && 0 < f.cfg.interval
    ensures f.tokens >= 1.0 <==> k >= f.cfg.interval
    ensures (f.tokens - 1.0) * f.cfg.interval as real == (k - f.cfg.interval) as real
    ensures (1.0 - f.tokens) * f.cfg.interval as real == (f.cfg.interval - k) as real
  {
    var i := f.cfg.interval as real;
    ScaleOrder(1.0, f.tokens, f.cfg.interval);
    assert (f.tokens - 1.0) * i == f.tokens * i - i;
    assert (1.0 - f.tokens) * i == i - f.tokens * i;
  }

  lemma TakeMetered(f: Lane)
    requires Bounded(f) && Whole(f) && 0 < f.cfg.interval
    ensures var r, m := Take(f), Draw(MeterOf(f));
            && Whole(r.lane) && MeterOf(r.lane) == m.meter && r.wait == m.wait
            && (m.granted <==> f.tokens >= 1.0)
  {
    var k := Credit(f).Floor;
    EnoughCredit(f, k);
    SameMeter(f, f, k);
    if f.tokens >= 1.0 {
      SameMeter(f, Take(f).lane, k - f.cfg.interval);
    } else {
      SameMeter(f, Take(f).lane, k);
      assert Truncate((f.cfg.interval - k) as real) == f.cfg.interval - k;
    }
  }

  /** The lane in real tokens does exactly what the meter does in whole
      nanoseconds: the same grants, the same waits, no truncation. */
  lemma ReserveMetered(l: Lane, now: nat)
    requires Bounded(l) && Whole(l)
    ensures var r, m := Reserve(l, now), Ask(MeterOf(l), now);
            && Bounded(r.lane) && Whole(r.lane) && MeterOf(r.lane) == m.meter
            && r.wait == m.wait && (Granted(l, now) <==> m.granted)
  {
    OperationsBounded(l, now, 0, l.cfg);
    var k := Credit(l).Floor;
    SameMeter(l, l.(waits := l.waits + 1), k);
    SameMeter(l, l.(acquisitions := l.acquisitions + 1), k);
    if l.cooldownUntil <= now && 0 < l.cfg.interval {
      RefillBounded(l, now);
      RefillMetered(l, now);
      TakeMetered(Refill(l, now));
    }
  }
}
