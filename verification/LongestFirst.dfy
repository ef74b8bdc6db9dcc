/** Longest job first (cmd/goldenattribution/attribution.go, sortedDescending into
    simulateMakespan): Graham's 4/3 - 1/(3m) against every assignment, by weights. */
module LongestFirst {
  import opened RealSums
  import opened LaneSchedule

  // ---------------------------------------------------------------- LPT

  /** A job is big when no other job as large as p fits beside it within t. */
  function Weight(cost: real, p: real, t: real): real {
    if cost + p > t then 2.0 else 1.0
  }

  function Weights(costs: seq<real>, p: real, t: real): (w: seq<real>)
    ensures |w| == |costs|
    ensures forall i :: 0 <= i < |costs| ==> w[i] == Weight(costs[i], p, t)
  {
    seq(|costs|, i requires 0 <= i < |costs| => Weight(costs[i], p, t))
  }

  /** How the load of one lane limits its weight and the reverse, when every job
      is at least p and three of them exceed t. */
  ghost predicate Shaped(load: real, weight: real, p: real, t: real) {
    || (weight == 0.0 && load == 0.0)
    || (weight == 1.0 && p <= load <= t - p)
    || (weight == 2.0 && (2.0 * p <= load || t - p < load))
    || (weight >= 3.0 && t < load)
  }

  lemma {:induction false} LanesShaped(costs: seq<real>, a: seq<nat>, lanes: nat, p: real, t: real)
    requires IsAssignment(a, |costs|, lanes)
    requires 0.0 < p <= t < 3.0 * p
    requires forall i :: 0 <= i < |costs| ==> p <= costs[i]
    ensures forall l :: 0 <= l < lanes ==>
      Shaped(LaneLoads(costs, a, lanes)[l], LaneLoads(Weights(costs, p, t), a, lanes)[l], p, t)
  {
    if costs != [] {
      var n := |costs| - 1;
      assert Weights(costs, p, t)[..n] == Weights(costs[..n], p, t);
      LanesShaped(costs[..n], a[..n], lanes, p, t);
    }
  }

  /** In any schedule that needs less than three of the smallest job, no lane
      weighs more than two. */
  lemma {:induction false} WeightCeiling(costs: seq<real>, a: seq<nat>, lanes: nat, p: real, t: real)
    requires IsAssignment(a, |costs|, lanes)
    requires 0.0 < p <= t < 3.0 * p
    requires forall i :: 0 <= i < |costs| ==> p <= costs[i]
    requires forall l :: 0 <= l < lanes ==> LaneLoads(costs, a, lanes)[l] <= t
    ensures Sum(Weights(costs, p, t)) <= Times(lanes, 2.0)
  {
    var w := Weights(costs, p, t);
    LanesShaped(costs, a, lanes, p, t);
    SumAtMost(LaneLoads(w, a, lanes), 2.0);
    WorkConserved(w, a, lanes);
  }

  /** A schedule without room for p on any lane weighs at least two per lane. */
  lemma {:induction false} WeightFloor(costs: seq<real>, a: seq<nat>, lanes: nat, p: real, t: real)
    requires IsAssignment(a, |costs|, lanes)
    requires 0.0 < p <= t < 3.0 * p
    requires forall i :: 0 <= i < |costs| ==> p <= costs[i]
    requires forall l :: 0 <= l < lanes ==> t < LaneLoads(costs, a, lanes)[l] + p
    ensures Times(lanes, 2.0) <= Sum(Weights(costs, p, t))
  {
    var w := Weights(costs, p, t);
    LanesShaped(costs, a, lanes, p, t);
    SumAtLeast(LaneLoads(w, a, lanes), 2.0);
    WorkConserved(w, a, lanes);
  }

  /** The heart of the 4/3 bound.  If the smallest job p exceeds a third of what
      some schedule needs, the least loaded greedy lane still has room for it:
      otherwise the greedy lanes weigh two each before p is placed, while that
      schedule, which holds p as well, weighs at most two a lane. */
  lemma {:induction false} RoomForLast(costs: seq<real>, lanes: nat, a: seq<nat>)
    requires 1 <= lanes && costs != []
    requires IsAssignment(a, |costs|, lanes)
    requires Descending(costs) && NonNegative(costs)
    requires Peak(LaneLoads(costs, a, lanes)) < 3.0 * costs[|costs| - 1]
    ensures LastFinish(costs, lanes) <= Peak(LaneLoads(costs, a, lanes))
  {
    var n := |costs| - 1;
    var p, t := costs[n], Peak(LaneLoads(costs, a, lanes));
    LowerBounds(costs, a, lanes);
    var g := Choices(costs[..n], lanes);
    var before := LaneLoads(costs[..n], g, lanes);
    assert Weights(costs, p, t)[..n] == Weights(costs[..n], p, t);
    if before[LeastLoaded(before)] + p > t {
      WeightCeiling(costs, a, lanes, p, t);
      WeightFloor(costs[..n], g, lanes, p, t);
    }
  }

  /** 3m x <= (4m - 1) opt. */
  predicate FourThirds(lanes: nat, x: real, opt: real)
    requires 1 <= lanes
  {
    Times(3 * lanes, x) <= Times(4 * lanes - 1, opt)
  }

  lemma {:induction false} FourThirdsOf(lanes: nat, x: real, opt: real, y: real, more: real)
    requires 1 <= lanes && FourThirds(lanes, x, opt) && y <= x && opt <= more
    ensures FourThirds(lanes, y, more)
  {
    TimesMonotone(3 * lanes, y, x);
    TimesMonotone(4 * lanes - 1, opt, more);
  }

  lemma NothingToDo(lanes: nat)
    requires 1 <= lanes
    ensures FourThirds(lanes, 0.0, 0.0)
  {
    TimesIs(3 * lanes, 0.0);
    TimesIs(4 * lanes - 1, 0.0);
  }

  lemma {:induction false} WithinOptimum(lanes: nat, lpt: real, opt: real)
    requires 1 <= lanes && lpt <= opt && 0.0 <= opt
    ensures FourThirds(lanes, lpt, opt)
  {
    TimesMonotone(3 * lanes, lpt, opt);
    TimesMonotone(lanes - 1, 0.0, opt);
    TimesIs(lanes - 1, 0.0);
    TimesSplit(3 * lanes, lanes - 1, opt);
  }

  lemma {:induction false} SmallLastJob(lanes: nat, lpt: real, p: real, opt: real, sum: real)
    requires 1 <= lanes && 3.0 * p <= opt
    requires Graham(lanes, lpt, sum, p)
    requires sum <= Times(lanes, opt)
    ensures FourThirds(lanes, lpt, opt)
  {
    TimesMonotone(lanes - 1, 3.0 * p, opt);
    TimesPlus(lanes - 1, p, p);
    TimesPlus(lanes - 1, 2.0 * p, p);
    TimesSplit(lanes, lanes, lpt);
    TimesSplit(2 * lanes, lanes, lpt);
    TimesSplit(lanes, lanes, opt);
    TimesSplit(2 * lanes, lanes, opt);
    TimesSplit(3 * lanes, lanes - 1, opt);
  }

  /** The bound for the lane that received the last job. */
  lemma {:induction false} LastJobRatio(costs: seq<real>, lanes: nat, a: seq<nat>)
    requires 1 <= lanes && IsAssignment(a, |costs|, lanes) && costs != []
    requires Descending(costs) && NonNegative(costs)
    ensures FourThirds(lanes, LastFinish(costs, lanes), Peak(LaneLoads(costs, a, lanes)))
  {
    var n := |costs| - 1;
    var load, opt := LastFinish(costs, lanes), Peak(LaneLoads(costs, a, lanes));
    LowerBounds(costs, a, lanes);
    if opt < 3.0 * costs[n] {
      RoomForLast(costs, lanes, a);
      WithinOptimum(lanes, load, opt);
    } else {
      LastJobBound(costs, lanes);
      SmallLastJob(lanes, load, costs[n], opt, Sum(costs));
    }
  }

  lemma {:induction false} PrefixPeak(costs: seq<real>, lanes: nat, a: seq<nat>)
    requires 1 <= lanes && IsAssignment(a, |costs|, lanes) && costs != [] && NonNegative(costs)
    ensures var n := |costs| - 1;
            Peak(LaneLoads(costs[..n], a[..n], lanes)) <= Peak(LaneLoads(costs, a, lanes))
  {
    var n := |costs| - 1;
    PrefixLoads(costs, a, lanes);
    PeakBelow(LaneLoads(costs[..n], a[..n], lanes), LaneLoads(costs, a, lanes));
  }

  /** Graham's LPT theorem: on descending costs greedy dispatch is within
      (4m-1)/(3m) of EVERY schedule, hence of the optimum. */
  lemma {:induction false} LptRatio(costs: seq<real>, lanes: nat, a: seq<nat>)
    requires 1 <= lanes && IsAssignment(a, |costs|, lanes)
    requires Descending(costs) && NonNegative(costs)
    ensures FourThirds(lanes, Peak(Dispatch(costs, lanes)), Peak(LaneLoads(costs, a, lanes)))
  {
    if costs == [] {
      assert Peak(Idle(lanes)) == 0.0;
      NothingToDo(lanes);
    } else {
      var n := |costs| - 1;
      var before, after := Peak(Dispatch(costs[..n], lanes)), Peak(Dispatch(costs, lanes));
      var shorter, opt := Peak(LaneLoads(costs[..n], a[..n], lanes)), Peak(LaneLoads(costs, a, lanes));
      PeakStep(costs, lanes);
      if after <= before {
        LptRatio(costs[..n], lanes, a[..n]);
        PrefixPeak(costs, lanes, a);
        FourThirdsOf(lanes, before, shorter, after, opt);
      } else {
        LastJobRatio(costs, lanes, a);
      }
    }
  }
}
