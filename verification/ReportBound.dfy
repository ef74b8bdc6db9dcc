/** Does the worst-case figure of the attribution report
    (cmd/goldenattribution/attribution.go) bound the LPT makespan printed beside it? */
module ReportBound {
  import opened RealSums
  import opened LaneSchedule
  import opened DominantJob
  import opened LaneReport
  import opened Wrappers

  // ---------------------------------------------------------------- totals of a plan

  lemma SortKeepsSum(costs: seq<real>)
    ensures Sum(SortDescending(costs)) == Sum(costs)
  {
    var a := Choices(costs, 1);
    var a' := SortedSchedule(costs, a, 1);
    WorkConserved(costs, a, 1);
    WorkConserved(SortDescending(costs), a', 1);
  }

  lemma SortKeepsPeak(costs: seq<real>)
    requires costs != []
    ensures forall i :: 0 <= i < |costs| ==> SortDescending(costs)[i] <= Peak(costs)
  {
    SortKeepsElements(costs);
    forall i | 0 <= i < |costs|
      ensures SortDescending(costs)[i] <= Peak(costs)
    {
      assert SortDescending(costs)[i] in multiset(costs);
    }
  }

  lemma {:induction false} SortedFirst(costs: seq<real>)
    requires costs != []
    ensures SortDescending(costs)[0] == Peak(costs)
  {
    SortKeepsPeak(costs);
    SortKeepsElements(costs);
    assert Peak(costs) in multiset(SortDescending(costs));
  }

  /** Largest job first: what the report simulates for LPT. */
  function Lpt(batches: seq<Batch>, lanes: nat): real {
    Makespan(SortDescending(Costs(batches)), lanes)
  }

  /** The bound as a function of the totals it is made of. */
  function BoundFor(lanes: nat, render: real, max: real): real
    requires 1 <= lanes
  {
    Scaled(lanes, render / lanes as real) + max
  }

  lemma BoundOfTotals(batches: seq<Batch>, lanes: nat)
    requires 1 <= lanes && batches != []
    ensures PrintedBound(batches, lanes) == BoundFor(lanes, Sum(Renders(batches)), Peak(Costs(batches)))
  {
  }

  // ---------------------------------------------------------------- two conditions

  /** The printed bound multiplies a floor of RENDER time; the simulated jobs
      also carry overhead.  The overhead it tolerates: 3m times all work but the
      largest job is at most (4m - 1) times the render time. */
  ghost predicate OverheadTolerated(batches: seq<Batch>, lanes: nat)
    requires 1 <= lanes && batches != []
  {
    Enough(lanes, Sum(Costs(batches)) - Peak(Costs(batches)), Sum(Renders(batches)))
  }

  /** Or the largest job outweighs the rest: twice the rest, spread over the lanes,
      is within the bound. */
  ghost predicate LargestDominates(batches: seq<Batch>, lanes: nat)
    requires 1 <= lanes && batches != []
  {
    Dominates(lanes, Sum(Costs(batches)), Peak(Costs(batches)), PrintedBound(batches, lanes))
  }

  predicate Dominates(lanes: nat, sum: real, max: real, bound: real) {
    2.0 * (sum - max) <= Times(lanes, bound)
  }

  predicate Enough(lanes: nat, others: real, render: real)
    requires 1 <= lanes
  {
    Times(3 * lanes, others) <= Times(4 * lanes - 1, render)
  }

  /** Graham's bound met with equality. */
  predicate Tight(lanes: nat, peak: real, sum: real, largest: real)
    requires 1 <= lanes
  {
    Times(lanes, peak) == sum + Times(lanes - 1, largest)
  }

  /** What the bound leaves above the largest job. */
  predicate Slack(lanes: nat, slack: real, render: real)
    requires 1 <= lanes
  {
    Times(3 * lanes, Times(lanes, slack)) == Times(4 * lanes - 1, render)
  }

  lemma FactorTimes(m: real, r: real)
    requires m >= 1.0
    ensures 3.0 * m * (m * ((4.0 / 3.0 - 1.0 / (3.0 * m)) * (r / m))) == (4.0 * m - 1.0) * r
  {
    var f, q := 4.0 / 3.0 - 1.0 / (3.0 * m), r / m;
    assert m * q == r;
    assert 3.0 * m * f == 4.0 * m - 1.0 by {
      assert 3.0 * m * (1.0 / (3.0 * m)) == 1.0;
    }
    calc {
      3.0 * m * (m * (f * q));
      (3.0 * m * f) * (m * q);
      (4.0 * m - 1.0) * r;
    }
  }

  /** The printed bound, multiplied out. */
  lemma {:induction false} BoundTimes(batches: seq<Batch>, lanes: nat)
    requires 1 <= lanes && batches != []
    ensures Slack(lanes, PrintedBound(batches, lanes) - Peak(Costs(batches)), Sum(Renders(batches)))
  {
    BoundTimesOf(lanes, Sum(Renders(batches)));
  }

  lemma PrintedSlack(batches: seq<Batch>, lanes: nat) returns (bound: real)
    requires 1 <= lanes && batches != []
    ensures bound == PrintedBound(batches, lanes)
    ensures Slack(lanes, bound - Peak(Costs(batches)), Sum(Renders(batches)))
  {
    BoundTimes(batches, lanes);
    bound := PrintedBound(batches, lanes);
  }

  lemma {:induction false} BoundTimesOf(lanes: nat, r: real)
    requires 1 <= lanes
    ensures Times(3 * lanes, Times(lanes, Scaled(lanes, r / lanes as real))) == Times(4 * lanes - 1, r)
  {
    var x := Scaled(lanes, r / lanes as real);
    FactorTimes(lanes as real, r);
    TimesIs(lanes, x);
    TimesIs(3 * lanes, Times(lanes, x));
    TimesIs(4 * lanes - 1, r);
  }

  lemma {:induction false} TimesStrict(k: nat, x: real, y: real)
    requires k >= 1 && x < y
    ensures Times(k, x) < Times(k, y)
  {
    if k > 1 {
      TimesStrict(k - 1, x, y);
    }
  }

  /** m peak <= s + (m - 1) max, and the bound exceeds max by a (4m-1)/(3m) share
      of the render time: where the first is an equation, bound and condition agree. */
  lemma {:induction false} BoundCriterion(lanes: nat, peak: real, bound: real, s: real, max: real, r: real)
    requires 1 <= lanes
    requires Graham(lanes, peak, s, max)
    requires Slack(lanes, bound - max, r)
    ensures Enough(lanes, s - max, r) ==> peak <= bound
    ensures Tight(lanes, peak, s, max) && peak <= bound ==> Enough(lanes, s - max, r)
  {
    TimesPlus(lanes, peak - max, max);
    var gap, room := Times(lanes, peak - max), Times(lanes, bound - max);
    assert gap <= s - max;
    if bound < peak {
      TimesStrict(lanes, bound - max, peak - max);
      TimesStrict(3 * lanes, room, s - max);
    } else {
      TimesMonotone(lanes, peak - max, bound - max);
      if gap == s - max {
        TimesMonotone(3 * lanes, gap, room);
      }
    }
  }

  lemma {:induction false} LptUpperBound(batches: seq<Batch>, lanes: nat)
    requires 1 <= lanes && batches != []
    requires forall b :: b in batches ==> 0 <= b.renderMs
    ensures var costs := Costs(batches);
            Graham(lanes, Makespan(SortDescending(costs), lanes), Sum(costs), Peak(costs))
  {
    var costs := Costs(batches);
    CostsNonNegative(batches);
    SortedNonNegative(costs);
    SortKeepsSum(costs);
    SortKeepsPeak(costs);
    GreedyUpperBound(SortDescending(costs), lanes, Peak(costs));
  }

  lemma {:induction false} WithinTolerance(batches: seq<Batch>, lanes: nat, bound: real)
    requires 1 <= lanes && batches != []
    requires forall b :: b in batches ==> 0 <= b.renderMs
    requires Slack(lanes, bound - Peak(Costs(batches)), Sum(Renders(batches)))
    requires OverheadTolerated(batches, lanes)
    ensures Lpt(batches, lanes) <= bound
  {
    LptUpperBound(batches, lanes);
    BoundCriterion(lanes, Lpt(batches, lanes), bound, Sum(Costs(batches)), Peak(Costs(batches)), Sum(Renders(batches)));
  }

  lemma {:induction false} SlackNonNegative(lanes: nat, slack: real, render: real)
    requires 1 <= lanes && Slack(lanes, slack, render) && 0.0 <= render
    ensures 0.0 <= slack
  {
    TimesMonotone(4 * lanes - 1, 0.0, render);
    TimesIs(4 * lanes - 1, 0.0);
    TimesIs(lanes, 0.0);
    TimesIs(3 * lanes, 0.0);
    if slack < 0.0 {
      TimesStrict(lanes, slack, 0.0);
      TimesStrict(3 * lanes, Times(lanes, slack), 0.0);
    }
  }

  lemma RenderNonNegative(batches: seq<Batch>)
    requires forall b :: b in batches ==> 0 <= b.renderMs
    ensures 0.0 <= Sum(Renders(batches))
  {
    forall i | 0 <= i < |batches| ensures 0.0 <= Renders(batches)[i] {
      assert batches[i] in batches;
    }
    SumAtLeast(Renders(batches), 0.0);
    TimesIs(|batches|, 0.0);
  }

  lemma {:induction false} BesideBound(lanes: nat, peak: real, sum: real, max: real, bound: real)
    requires 1 <= lanes && Beside(lanes, peak, sum, max) && max <= bound
    requires Dominates(lanes, sum, max, bound)
    ensures peak <= bound
  {
    if bound < peak {
      TimesStrict(lanes, bound, peak);
    }
  }

  lemma {:induction false} LptBeside(batches: seq<Batch>, lanes: nat)
    requires 2 <= lanes && batches != []
    requires forall b :: b in batches ==> 0 <= b.renderMs
    ensures Beside(lanes, Lpt(batches, lanes), Sum(Costs(batches)), Peak(Costs(batches)))
  {
    var costs := Costs(batches);
    CostsNonNegative(batches);
    SortedNonNegative(costs);
    SortKeepsSum(costs);
    SortedFirst(costs);
    LptBesideLargest(SortDescending(costs), lanes);
  }

  lemma {:induction false} WithinDominance(batches: seq<Batch>, lanes: nat, bound: real)
    requires 2 <= lanes && batches != []
    requires forall b :: b in batches ==> 0 <= b.renderMs
    requires Slack(lanes, bound - Peak(Costs(batches)), Sum(Renders(batches)))
    requires Dominates(lanes, Sum(Costs(batches)), Peak(Costs(batches)), bound)
    ensures Lpt(batches, lanes) <= bound
  {
    LptBeside(batches, lanes);
    RenderNonNegative(batches);
    SlackNonNegative(lanes, bound - Peak(Costs(batches)), Sum(Renders(batches)));
    BesideBound(lanes, Lpt(batches, lanes), Sum(Costs(batches)), Peak(Costs(batches)), bound);
  }

  /** Either condition keeps the simulated LPT makespan under the bound; the second
      from two lanes on. */
  lemma {:induction false} LptBelowPrintedBound(batches: seq<Batch>, lanes: nat)
    requires 1 <= lanes && batches != []
    requires forall b :: b in batches ==> 0 <= b.renderMs
    requires OverheadTolerated(batches, lanes) || (2 <= lanes && LargestDominates(batches, lanes))
    ensures Lpt(batches, lanes) <= PrintedBound(batches, lanes)
  {
    var bound := PrintedSlack(batches, lanes);
    if OverheadTolerated(batches, lanes) {
      WithinTolerance(batches, lanes, bound);
    } else {
      WithinDominance(batches, lanes, bound);
    }
  }

  /** Without overhead the bound holds for every lane count. */
  lemma {:induction false} NoOverheadIsTolerated(batches: seq<Batch>, lanes: nat)
    requires 1 <= lanes && batches != []
    requires forall b :: b in batches ==> 0 <= b.renderMs && Cost(b) == b.renderMs as real
    ensures OverheadTolerated(batches, lanes)
    ensures Lpt(batches, lanes) <= PrintedBound(batches, lanes)
  {
    CostsAreRenders(batches);
    CostsNonNegative(batches);
    var r := Sum(Renders(batches));
    SumAtLeast(Renders(batches), 0.0);
    TimesIs(|batches|, 0.0);
    TimesMonotone(3 * lanes, r - Peak(Costs(batches)), r);
    TimesMonotone(lanes - 1, 0.0, r);
    TimesIs(lanes - 1, 0.0);
    TimesSplit(3 * lanes, lanes - 1, r);
    LptBelowPrintedBound(batches, lanes);
  }

  lemma CostsAreRenders(batches: seq<Batch>)
    requires forall b :: b in batches ==> Cost(b) == b.renderMs as real
    ensures Costs(batches) == Renders(batches)
  {
    forall i | 0 <= i < |batches|
      ensures Costs(batches)[i] == Renders(batches)[i]
    {
      assert batches[i] in batches;
    }
  }

  /** Three batches on one lane, each one millisecond of rendering and a hundred
      of overhead: the makespan is 303, the bound printed beside it 104. */
  lemma BoundCanFail(batches: seq<Batch>)
    requires |batches| == 3
    requires forall b :: b in batches ==> b == Batch(1, Some(Attribution(Some(101.0), 0.0)))
    ensures Lpt(batches, 1) == 303.0
    ensures PrintedBound(batches, 1) == 104.0
  {
    UniformCosts(batches, 101.0);
    assert Rounds(2, 1) == 2;
    UniformPeak(101.0, 1, 2, 3);
    TimesIs(3, 101.0);
    forall i | 0 <= i < 3
      ensures Renders(batches)[i] == 1.0
    {
      assert batches[i] in batches;
    }
    assert Renders(batches) == Uniform(1.0, 3);
    UniformSum(1.0, 3);
    TimesIs(3, 1.0);
    assert Factor(1) == 1.0;
  }

  // ---------------------------------------------------------------- full rounds of equal jobs

  function Uniform(c: real, n: nat): (cs: seq<real>)
    ensures |cs| == n && forall i :: 0 <= i < n ==> cs[i] == c
  {
    seq(n, _ => c)
  }

  /** The number of jobs that fill q full rounds. */
  function Rounds(q: nat, lanes: nat): nat {
    if q == 0 then 0 else Rounds(q - 1, lanes) + lanes
  }

  function Level(c: real, lanes: nat, q: nat, r: nat): (loads: seq<real>)
    ensures |loads| == lanes
    ensures forall l :: 0 <= l < lanes ==> loads[l] == Times(if l < r then q + 1 else q, c)
  {
    seq(lanes, l => Times(if l < r then q + 1 else q, c))
  }

  lemma {:induction false} UniformSum(c: real, n: nat)
    ensures Sum(Uniform(c, n)) == Times(n, c)
  {
    if n > 0 {
      assert Uniform(c, n)[..n - 1] == Uniform(c, n - 1);
      UniformSum(c, n - 1);
    }
  }

  lemma SortedUniform(c: real, n: nat)
    ensures SortDescending(Uniform(c, n)) == Uniform(c, n)
  {
    SortKeepsElements(Uniform(c, n));
    DescendingUnique(SortDescending(Uniform(c, n)), Uniform(c, n));
  }

  lemma {:induction false} LevelStep(c: real, lanes: nat, q: nat, r: nat)
    requires 1 <= r <= lanes && 0.0 < c
    ensures Next(Level(c, lanes, q, r - 1), c) == Level(c, lanes, q, r)
  {
    var before := Level(c, lanes, q, r - 1);
    assert before[r - 1] == Times(q, c) < Times(q + 1, c);
    assert forall l :: 0 <= l < r - 1 ==> before[r - 1] < before[l];
  }

  lemma FullRound(c: real, lanes: nat, q: nat)
    requires 1 <= q
    ensures Level(c, lanes, q - 1, lanes) == Level(c, lanes, q, 0)
  {
    var full, next := Level(c, lanes, q - 1, lanes), Level(c, lanes, q, 0);
    assert forall l :: 0 <= l < lanes ==> full[l] == next[l];
  }

  /** Equal jobs fill the lanes round by round. */
  lemma {:induction false} UniformLoads(c: real, lanes: nat, q: nat, r: nat, n: nat)
    requires 1 <= lanes && r <= lanes && 0.0 < c && n == Rounds(q, lanes) + r
    ensures Dispatch(Uniform(c, n), lanes) == Level(c, lanes, q, r)
    decreases q, r
  {
    if r > 0 {
      UniformLoads(c, lanes, q, r - 1, n - 1);
      EqualJob(c, lanes, q, r, n);
    } else if q > 0 {
      UniformLoads(c, lanes, q - 1, lanes, n);
      FullRound(c, lanes, q);
    } else {
      NoJobs(c, lanes);
    }
  }

  lemma NoJobs(c: real, lanes: nat)
    requires 1 <= lanes
    ensures Dispatch(Uniform(c, 0), lanes) == Level(c, lanes, 0, 0)
  {
    assert Uniform(c, 0) == [];
    assert Level(c, lanes, 0, 0) == Idle(lanes);
  }

  lemma {:induction false} EqualJob(c: real, lanes: nat, q: nat, r: nat, n: nat)
    requires 1 <= r <= lanes && 0.0 < c && 1 <= n
    requires Dispatch(Uniform(c, n - 1), lanes) == Level(c, lanes, q, r - 1)
    ensures Dispatch(Uniform(c, n), lanes) == Level(c, lanes, q, r)
  {
    UniformStep(c, lanes, n);
    LevelStep(c, lanes, q, r);
  }

  lemma UniformFront(c: real, n: nat)
    requires 1 <= n
    ensures Uniform(c, n)[..n - 1] == Uniform(c, n - 1)
  {
  }

  lemma {:induction false} UniformStep(c: real, lanes: nat, n: nat)
    requires 1 <= lanes && 1 <= n
    ensures Dispatch(Uniform(c, n), lanes) == Next(Dispatch(Uniform(c, n - 1), lanes), c)
  {
    var all := Uniform(c, n);
    UniformFront(c, n);
    NextJob(all, lanes, n - 1);
    assert all[..n] == all;
  }

  lemma {:induction false} TimesRounds(c: real, lanes: nat, q: nat)
    ensures Times(lanes, Times(q, c)) == Times(Rounds(q, lanes), c)
  {
    if q == 0 {
      TimesIs(lanes, 0.0);
    } else {
      TimesRounds(c, lanes, q - 1);
      TimesPlus(lanes, Times(q - 1, c), c);
      TimesSplit(Rounds(q - 1, lanes), lanes, c);
    }
  }

  lemma {:induction false} UniformPeak(c: real, lanes: nat, k: nat, n: nat)
    requires 1 <= lanes && 0.0 < c && n == Rounds(k, lanes) + 1
    ensures Makespan(SortDescending(Uniform(c, n)), lanes) == Times(k + 1, c)
  {
    SortedUniform(c, n);
    UniformLoads(c, lanes, k, 1, n);
    LevelPeak(c, lanes, k);
  }

  lemma {:induction false} UniformWork(c: real, lanes: nat, k: nat, n: nat)
    requires 1 <= lanes && n == Rounds(k, lanes) + 1
    ensures Tight(lanes, Times(k + 1, c), Sum(Uniform(c, n)), c)
  {
    TimesRounds(c, lanes, k);
    TimesPlus(lanes, Times(k, c), c);
    UniformSum(c, n);
  }

  lemma LevelPeak(c: real, lanes: nat, k: nat)
    requires 1 <= lanes && 0.0 < c
    ensures Peak(Level(c, lanes, k, 1)) == Times(k + 1, c)
  {
    var level := Level(c, lanes, k, 1);
    assert level[0] == Times(k + 1, c);
    assert forall l :: 0 <= l < lanes ==> level[l] <= Times(k + 1, c);
  }

  lemma {:induction false} UniformTight(batches: seq<Batch>, lanes: nat, c: real, k: nat)
    requires 1 <= lanes && 0.0 < c && |batches| == Rounds(k, lanes) + 1
    requires forall b :: b in batches ==> Cost(b) == c
    ensures Tight(lanes, Lpt(batches, lanes), Sum(Costs(batches)), Peak(Costs(batches)))
  {
    UniformCosts(batches, c);
    UniformPeak(c, lanes, k, |batches|);
    UniformWork(c, lanes, k, |batches|);
  }

  lemma {:induction false} TightExact(lanes: nat, peak: real, bound: real, s: real, max: real, r: real)
    requires 1 <= lanes && Tight(lanes, peak, s, max) && Slack(lanes, bound - max, r)
    ensures peak <= bound <==> Enough(lanes, s - max, r)
  {
    BoundCriterion(lanes, peak, bound, s, max, r);
  }

  lemma {:induction false} SharpFor(batches: seq<Batch>, lanes: nat, c: real, k: nat, bound: real)
    requires 1 <= lanes && 0.0 < c && |batches| == Rounds(k, lanes) + 1
    requires forall b :: b in batches ==> Cost(b) == c
    requires Slack(lanes, bound - Peak(Costs(batches)), Sum(Renders(batches)))
    ensures Lpt(batches, lanes) <= bound <==> OverheadTolerated(batches, lanes)
  {
    UniformTight(batches, lanes, c, k);
    TightExact(lanes, Lpt(batches, lanes), bound, Sum(Costs(batches)), Peak(Costs(batches)), Sum(Renders(batches)));
  }

  lemma UniformCosts(batches: seq<Batch>, c: real)
    requires batches != [] && forall b :: b in batches ==> Cost(b) == c
    ensures Costs(batches) == Uniform(c, |batches|)
    ensures Peak(Costs(batches)) == c
  {
    forall i | 0 <= i < |batches|
      ensures Costs(batches)[i] == c
    {
      assert batches[i] in batches;
    }
  }

  /** One job more than k full rounds of equal jobs: here the bound holds exactly
      when the overhead is tolerated, whatever the lane count. */
  lemma {:induction false} ToleranceIsSharp(batches: seq<Batch>, lanes: nat, c: real, k: nat)
    requires 1 <= lanes && 0.0 < c && |batches| == Rounds(k, lanes) + 1
    requires forall b :: b in batches ==> Cost(b) == c
    ensures Lpt(batches, lanes) <= PrintedBound(batches, lanes)
       <==> OverheadTolerated(batches, lanes)
  {
    var bound := PrintedSlack(batches, lanes);
    SharpFor(batches, lanes, c, k, bound);
  }

  // ---------------------------------------------------------------- a dominant job

  /** These are the totals of the plan. */
  ghost predicate HasTotals(batches: seq<Batch>, render: real, s: real, max: real) {
    && batches != [] && (forall b :: b in batches ==> 0 <= b.renderMs)
    && Sum(Renders(batches)) == render && Sum(Costs(batches)) == s && Peak(Costs(batches)) == max
  }

  /** The bound covers every plan with these totals. */
  ghost predicate BoundHolds(lanes: nat, render: real, s: real, max: real)
    requires 1 <= lanes
  {
    forall batches :: HasTotals(batches, render, s, max) ==> Lpt(batches, lanes) <= PrintedBound(batches, lanes)
  }

  /** One job of the largest size and n others. */
  function Witness(n: nat, render: int, max: real, x: real): (batches: seq<Batch>)
    requires 0.0 < x <= max
    ensures |batches| == n + 1
    ensures Costs(batches) == [max] + Uniform(x, n)
    ensures Renders(batches) == [render as real] + Uniform(0.0, n)
  {
    [Batch(render, Some(Attribution(Some(max), 0.0)))] + seq(n, _ => Batch(0, Some(Attribution(Some(x), 0.0))))
  }

  lemma {:induction false} SumAfter(c: real, x: real, n: nat)
    ensures Sum([c] + Uniform(x, n)) == c + Times(n, x)
  {
    var xs := [c] + Uniform(x, n);
    if n == 0 {
      assert xs[..0] == [];
    } else {
      assert xs[..n] == [c] + Uniform(x, n - 1);
      SumAfter(c, x, n - 1);
    }
  }

  lemma WitnessTotals(batches: seq<Batch>, n: nat, render: nat, max: real, x: real)
    requires 0.0 < x <= max && |batches| == n + 1
    requires Costs(batches) == [max] + Uniform(x, n)
    requires Renders(batches) == [render as real] + Uniform(0.0, n)
    ensures HasTotals(batches, render as real, max + Times(n, x), max)
  {
    SumAfter(max, x, n);
    SumAfter(render as real, 0.0, n);
    TimesIs(n, 0.0);
    LargestFirst(max, x, n);
    forall b | b in batches ensures 0 <= b.renderMs {
      var i :| 0 <= i < |batches| && batches[i] == b;
      assert Renders(batches)[i] >= 0.0;
    }
  }

  lemma LargestFirst(max: real, x: real, n: nat)
    requires x <= max
    ensures Peak([max] + Uniform(x, n)) == max
  {
    var xs := [max] + Uniform(x, n);
    assert xs[0] == max && forall i :: 0 <= i < |xs| ==> xs[i] <= max;
  }

  lemma {:induction false} WitnessPeak(lanes: nat, render: nat, max: real, x: real)
    requires 1 <= lanes && 0.0 < x <= max
    ensures 2.0 * x <= Lpt(Witness(lanes, render, max, x), lanes)
  {
    var costs := Costs(Witness(lanes, render, max, x));
    SortKeepsElements(costs);
    DescendingUnique(SortDescending(costs), costs);
    OneTooMany(costs, lanes, x);
  }

  lemma {:induction false} TimesTwo(k: nat, x: real)
    ensures Times(k, 2.0 * x) == 2.0 * Times(k, x)
  {
    TimesPlus(k, x, x);
  }

  /** The rest of the work in equal shares, none larger than the largest job. */
  lemma {:induction false} Shares(lanes: nat, s: real, max: real) returns (x: real)
    requires 1 <= lanes && max < s <= Times(lanes + 1, max)
    ensures 0.0 < x <= max && Times(lanes, x) == s - max
  {
    x := (s - max) / lanes as real;
    TimesIs(lanes, x);
    TimesIs(lanes, 0.0);
    if x <= 0.0 {
      TimesMonotone(lanes, x, 0.0);
    }
    if max < x {
      TimesStrict(lanes, max, x);
    }
  }

  lemma {:induction false} BoundHoldsOnlyIf(lanes: nat, render: nat, s: real, max: real)
    requires 1 <= lanes && max < s <= Times(lanes + 1, max)
    requires BoundHolds(lanes, render as real, s, max)
    ensures Dominates(lanes, s, max, BoundFor(lanes, render as real, max))
  {
    var x := Shares(lanes, s, max);
    var batches := Witness(lanes, render, max, x);
    WitnessTotals(batches, lanes, render, max, x);
    WitnessPeak(lanes, render, max, x);
    BoundOfTotals(batches, lanes);
    ShareWithin(lanes, x, s - max, BoundFor(lanes, render as real, max));
  }

  lemma {:induction false} ShareWithin(lanes: nat, x: real, rest: real, bound: real)
    requires Times(lanes, x) == rest && 2.0 * x <= bound
    ensures 2.0 * rest <= Times(lanes, bound)
  {
    TimesMonotone(lanes, 2.0 * x, bound);
    TimesTwo(lanes, x);
  }

  lemma {:induction false} BoundForAtLeast(lanes: nat, render: real, max: real)
    requires 1 <= lanes && 0.0 <= render && 0.0 <= max
    ensures max <= BoundFor(lanes, render, max)
    ensures 0.0 <= Times(lanes, BoundFor(lanes, render, max))
  {
    BoundTimesOf(lanes, render);
    SlackNonNegative(lanes, Scaled(lanes, render / lanes as real), render);
    TimesMonotone(lanes, 0.0, BoundFor(lanes, render, max));
    TimesIs(lanes, 0.0);
  }

  /** Up to m + 1 times the largest job the second condition is exact: the bound
      covers every plan with these totals if and only if twice the rest, spread over
      the lanes, is within it. */
  lemma {:induction false} DominanceIsExact(lanes: nat, render: nat, s: real, max: real)
    requires 2 <= lanes && 0.0 < max <= s <= Times(lanes + 1, max)
    ensures BoundHolds(lanes, render as real, s, max)
       <==> Dominates(lanes, s, max, BoundFor(lanes, render as real, max))
  {
    if Dominates(lanes, s, max, BoundFor(lanes, render as real, max)) {
      forall batches | HasTotals(batches, render as real, s, max)
        ensures Lpt(batches, lanes) <= PrintedBound(batches, lanes)
      {
        BoundOfTotals(batches, lanes);
        LptBelowPrintedBound(batches, lanes);
      }
    }
    BoundForAtLeast(lanes, render as real, max);
    if BoundHolds(lanes, render as real, s, max) && max < s {
      BoundHoldsOnlyIf(lanes, render, s, max);
    }
  }

  // ---------------------------------------------------------------- one job beyond full rounds

  lemma EqualTotals(batches: seq<Batch>, n: nat, render: nat, c: real)
    requires 0.0 < c && batches == Witness(n, render, c, c)
    ensures HasTotals(batches, render as real, Times(n + 1, c), c)
    ensures forall b :: b in batches ==> Cost(b) == c
  {
    WitnessTotals(batches, n, render, c, c);
    forall b | b in batches ensures Cost(b) == c {
      var i :| 0 <= i < |batches| && batches[i] == b;
      assert Costs(batches)[i] == c;
    }
  }

  lemma CoversPlan(batches: seq<Batch>, lanes: nat, render: real, s: real, max: real)
    requires 1 <= lanes && Enough(lanes, s - max, render) && HasTotals(batches, render, s, max)
    ensures Lpt(batches, lanes) <= PrintedBound(batches, lanes)
  {
    LptBelowPrintedBound(batches, lanes);
  }

  lemma {:induction false} ToleranceCovers(lanes: nat, render: real, s: real, max: real)
    requires 1 <= lanes && Enough(lanes, s - max, render)
    ensures BoundHolds(lanes, render, s, max)
  {
    forall batches | HasTotals(batches, render, s, max)
      ensures Lpt(batches, lanes) <= PrintedBound(batches, lanes)
    {
      CoversPlan(batches, lanes, render, s, max);
    }
  }

  lemma {:induction false} ToleranceNeeded(lanes: nat, render: nat, c: real, k: nat, n: nat, s: real)
    requires 1 <= lanes && 0.0 < c && n == Rounds(k, lanes) && s == Times(n + 1, c)
    requires BoundHolds(lanes, render as real, s, c)
    ensures Enough(lanes, s - c, render as real)
  {
    var batches := Witness(n, render, c, c);
    EqualTotals(batches, n, render, c);
    ToleranceIsSharp(batches, lanes, c, k);
  }

  /** At totals of km + 1 times the largest job the first condition is exact: the
      bound covers every plan with these totals if and only if the overhead is
      tolerated. */
  lemma {:induction false} ToleranceIsExact(lanes: nat, render: nat, c: real, k: nat, s: real)
    requires 1 <= lanes && 0.0 < c && s == Times(Rounds(k, lanes) + 1, c)
    ensures BoundHolds(lanes, render as real, s, c) <==> Enough(lanes, s - c, render as real)
  {
    if Enough(lanes, s - c, render as real) {
      ToleranceCovers(lanes, render as real, s, c);
    } else if BoundHolds(lanes, render as real, s, c) {
      ToleranceNeeded(lanes, render, c, k, Rounds(k, lanes), s);
    }
  }

  // ---------------------------------------------------------------- one lane

  lemma {:induction false} OneLanePeak(costs: seq<real>)
    requires costs != [] && NonNegative(costs)
    ensures Makespan(SortDescending(costs), 1) == Sum(costs)
  {
    var sorted := SortDescending(costs);
    SortKeepsSum(costs);
    WorkConserved(sorted, Choices(sorted, 1), 1);
    var loads := Dispatch(sorted, 1);
    assert loads[..0] == [];
    assert Sum(loads) == loads[0] == Peak(loads);
  }

  lemma OneLaneTight(s: real, max: real)
    ensures Tight(1, s, s, max) && Graham(1, s, s, max)
  {
    TimesIs(1, s);
    TimesIs(0, max);
  }

  /** On one lane the same holds for every batch list. */
  lemma {:induction false} OneLaneExact(batches: seq<Batch>)
    requires batches != [] && forall b :: b in batches ==> 0 <= b.renderMs
    ensures Lpt(batches, 1) <= PrintedBound(batches, 1)
       <==> OverheadTolerated(batches, 1)
  {
    var costs := Costs(batches);
    CostsNonNegative(batches);
    OneLanePeak(costs);
    BoundTimes(batches, 1);
    OneLaneTight(Sum(costs), Peak(costs));
    BoundCriterion(1, Sum(costs), PrintedBound(batches, 1), Sum(costs), Peak(costs), Sum(Renders(batches)));
  }
}
