/** Lane scheduling (cmd/goldenattribution/attribution.go).

    A pool of identical lanes consumes jobs in a given order; each job goes to
    the first lane among those with the least load.  The source calls the result
    FIFO for the plan order and LPT for the descending order.

    Costs are reals: the source keeps them as floating-point milliseconds, and
    rounding is not modelled. */
module LaneSchedule {
  import opened RealSums

  // ---------------------------------------------------------------- lanes

  function Idle(lanes: nat): (r: seq<real>)
    ensures |r| == lanes && forall i :: 0 <= i < lanes ==> r[i] == 0.0
  {
    seq(lanes, _ => 0.0)
  }

  lemma {:induction false} IdleSum(lanes: nat)
    ensures Sum(Idle(lanes)) == 0.0
  {
    if lanes > 0 {
      assert Idle(lanes)[..lanes - 1] == Idle(lanes - 1);
      IdleSum(lanes - 1);
    }
  }

  /** The first of the least loaded lanes. */
  function LeastLoaded(loads: seq<real>): (l: nat)
    requires loads != []
    ensures l < |loads|
    ensures forall j :: 0 <= j < |loads| ==> loads[l] <= loads[j]
    ensures forall j :: 0 <= j < l ==> loads[l] < loads[j]
  {
    var n := |loads| - 1;
    if n == 0 then 0
    else
      var l := LeastLoaded(loads[..n]);
      assert loads[..n][l] == loads[l];
      assert forall j :: 0 <= j < n ==> loads[..n][j] == loads[j];
      if loads[n] < loads[l] then n else l
  }

  /** The makespan of a load vector: its largest element. */
  function Peak(loads: seq<real>): (p: real)
    requires loads != []
    ensures p in loads
    ensures forall j :: 0 <= j < |loads| ==> loads[j] <= p
  {
    var n := |loads| - 1;
    if n == 0 then loads[0]
    else
      var p := Peak(loads[..n]);
      assert forall j :: 0 <= j < n ==> loads[..n][j] == loads[j];
      if loads[n] > p then loads[n] else p
  }

  lemma {:induction false} PeakBelow(xs: seq<real>, ys: seq<real>)
    requires |xs| == |ys| > 0
    requires forall j :: 0 <= j < |xs| ==> xs[j] <= ys[j]
    ensures Peak(xs) <= Peak(ys)
  {
    var j :| 0 <= j < |xs| && xs[j] == Peak(xs);
    assert xs[j] <= ys[j] <= Peak(ys);
  }

  /** An assignment names a lane for every job. */
  predicate IsAssignment(a: seq<nat>, jobs: nat, lanes: nat) {
    |a| == jobs && forall i :: 0 <= i < |a| ==> a[i] < lanes
  }

  /** What each lane carries under assignment a. */
  function LaneLoads(costs: seq<real>, a: seq<nat>, lanes: nat): (loads: seq<real>)
    requires IsAssignment(a, |costs|, lanes)
    ensures |loads| == lanes
  {
    if costs == [] then Idle(lanes)
    else
      var n := |costs| - 1;
      var before := LaneLoads(costs[..n], a[..n], lanes);
      before[a[n] := before[a[n]] + costs[n]]
  }

  /** The lanes the greedy dispatcher picks. */
  function Choices(costs: seq<real>, lanes: nat): (a: seq<nat>)
    requires 1 <= lanes
    ensures IsAssignment(a, |costs|, lanes)
  {
    if costs == [] then []
    else
      var n := |costs| - 1;
      var before := Choices(costs[..n], lanes);
      before + [LeastLoaded(LaneLoads(costs[..n], before, lanes))]
  }

  /** Loads after greedy dispatch. */
  function Dispatch(costs: seq<real>, lanes: nat): (loads: seq<real>)
    requires 1 <= lanes
    ensures |loads| == lanes
  {
    LaneLoads(costs, Choices(costs, lanes), lanes)
  }

  /** What simulateMakespan returns, edge cases included. */
  function Makespan(costs: seq<real>, lanes: int): real {
    if costs == [] || lanes < 1 then 0.0 else Peak(Dispatch(costs, lanes))
  }

  lemma {:induction false} DispatchStep(costs: seq<real>, lanes: nat)
    requires 1 <= lanes && costs != []
    ensures var before := Dispatch(costs[..|costs| - 1], lanes);
            var l := LeastLoaded(before);
            Dispatch(costs, lanes) == before[l := before[l] + costs[|costs| - 1]]
  {
    var n := |costs| - 1;
    var before := Choices(costs[..n], lanes);
    var l := LeastLoaded(LaneLoads(costs[..n], before, lanes));
    assert Choices(costs, lanes) == before + [l];
    assert Choices(costs, lanes)[..n] == before;
  }

  /** One more job on the least loaded lane. */
  function Next(loads: seq<real>, cost: real): (r: seq<real>)
    requires loads != []
    ensures |r| == |loads|
  {
    var l := LeastLoaded(loads);
    loads[l := loads[l] + cost]
  }

  lemma NextJob(costs: seq<real>, lanes: nat, k: nat)
    requires 1 <= lanes && k < |costs|
    ensures Dispatch(costs[..k + 1], lanes) == Next(Dispatch(costs[..k], lanes), costs[k])
  {
    assert costs[..k + 1][..k] == costs[..k];
    DispatchStep(costs[..k + 1], lanes);
  }

  /** The inner scan, and the job it places. */
  method GiveToLeastLoaded(loads: array<real>, cost: real)
    requires loads.Length > 0
    modifies loads
    ensures loads[..] == Next(old(loads[..]), cost)
  {
    var index := 0;
    for i := 1 to loads.Length
      invariant 0 <= index < i
      invariant index == LeastLoaded(loads[..i])
    {
      assert loads[..i + 1][..i] == loads[..i];
      if loads[i] < loads[index] {
        index := i;
      }
    }
    assert loads[..loads.Length] == loads[..];
    loads[index] := loads[index] + cost;
  }

  /** The final scan. */
  method LargestLoad(loads: array<real>) returns (max: real)
    requires loads.Length > 0
    ensures max == Peak(loads[..])
  {
    max := loads[0];
    assert loads[..1] == [loads[0]];
    for i := 1 to loads.Length
      invariant max == Peak(loads[..i])
    {
      assert loads[..i + 1][..i] == loads[..i];
      if loads[i] > max {
        max := loads[i];
      }
    }
    assert loads[..loads.Length] == loads[..];
  }

  /** The simulation: one pass over the jobs, then a scan for the maximum. */
  method SimulateMakespan(costs: seq<real>, lanes: int) returns (max: real)
    ensures max == Makespan(costs, lanes)
    ensures costs == [] || lanes < 1 ==> max == 0.0
  {
    if |costs| == 0 || lanes < 1 {
      return 0.0;
    }
    var loads := new real[lanes](_ => 0.0);
    assert loads[..] == Idle(lanes) == Dispatch(costs[..0], lanes);
    for k := 0 to |costs|
      invariant loads[..] == Dispatch(costs[..k], lanes)
    {
      NextJob(costs, lanes, k);
      GiveToLeastLoaded(loads, costs[k]);
    }
    assert costs[..|costs|] == costs;
    max := LargestLoad(loads);
  }

  // ---------------------------------------------------------------- any assignment

  /** Work is conserved: the lanes carry exactly the jobs. */
  lemma {:induction false} WorkConserved(costs: seq<real>, a: seq<nat>, lanes: nat)
    requires IsAssignment(a, |costs|, lanes)
    ensures Sum(LaneLoads(costs, a, lanes)) == Sum(costs)
  {
    if costs == [] {
      IdleSum(lanes);
    } else {
      var n := |costs| - 1;
      WorkConserved(costs[..n], a[..n], lanes);
      SumUpdate(LaneLoads(costs[..n], a[..n], lanes), a[n], costs[n]);
    }
  }

  /** Dropping the last job never raises a lane. */
  lemma {:induction false} PrefixLoads(costs: seq<real>, a: seq<nat>, lanes: nat)
    requires IsAssignment(a, |costs|, lanes) && costs != [] && NonNegative(costs)
    ensures var n := |costs| - 1;
            forall l :: 0 <= l < lanes ==>
              LaneLoads(costs[..n], a[..n], lanes)[l] <= LaneLoads(costs, a, lanes)[l]
  {}

  lemma {:induction false} LoadsNonNegative(costs: seq<real>, a: seq<nat>, lanes: nat)
    requires IsAssignment(a, |costs|, lanes) && NonNegative(costs)
    ensures NonNegative(LaneLoads(costs, a, lanes))
  {
    if costs != [] {
      LoadsNonNegative(costs[..|costs| - 1], a[..|costs| - 1], lanes);
    }
  }

  /** No schedule beats its largest job, nor the average load. */
  lemma {:induction false} LowerBounds(costs: seq<real>, a: seq<nat>, lanes: nat)
    requires 1 <= lanes && IsAssignment(a, |costs|, lanes) && NonNegative(costs)
    ensures forall i :: 0 <= i < |costs| ==> costs[i] <= Peak(LaneLoads(costs, a, lanes))
    ensures Sum(costs) <= Times(lanes, Peak(LaneLoads(costs, a, lanes)))
  {
    var loads := LaneLoads(costs, a, lanes);
    WorkConserved(costs, a, lanes);
    SumAtMost(loads, Peak(loads));
    JobsFit(costs, a, lanes);
    forall i | 0 <= i < |costs|
      ensures costs[i] <= Peak(loads)
    {
      assert costs[i] <= loads[a[i]];
    }
  }

  lemma {:induction false} JobsFit(costs: seq<real>, a: seq<nat>, lanes: nat)
    requires 1 <= lanes && IsAssignment(a, |costs|, lanes) && NonNegative(costs)
    ensures forall i :: 0 <= i < |costs| ==> costs[i] <= LaneLoads(costs, a, lanes)[a[i]]
  {
    if costs != [] {
      var n := |costs| - 1;
      JobsFit(costs[..n], a[..n], lanes);
      PrefixLoads(costs, a, lanes);
      LoadsNonNegative(costs[..n], a[..n], lanes);
      forall i | 0 <= i < |costs|
        ensures costs[i] <= LaneLoads(costs, a, lanes)[a[i]]
      {
        if i < n {
          assert costs[..n][i] == costs[i] && a[..n][i] == a[i];
        }
      }
    }
  }

  // ---------------------------------------------------------------- greedy, any order

  /** When the last job finishes. */
  function LastFinish(costs: seq<real>, lanes: nat): real
    requires 1 <= lanes && costs != []
  {
    var before := Dispatch(costs[..|costs| - 1], lanes);
    before[LeastLoaded(before)] + costs[|costs| - 1]
  }

  /** Placing the last job either keeps the peak or makes its lane the peak. */
  lemma {:induction false} PeakStep(costs: seq<real>, lanes: nat)
    requires 1 <= lanes && costs != []
    ensures || Peak(Dispatch(costs, lanes)) <= Peak(Dispatch(costs[..|costs| - 1], lanes))
            || Peak(Dispatch(costs, lanes)) == LastFinish(costs, lanes)
  {
    var n := |costs| - 1;
    var before, after := Dispatch(costs[..n], lanes), Dispatch(costs, lanes);
    DispatchStep(costs, lanes);
    var j :| 0 <= j < lanes && after[j] == Peak(after);
    if j != LeastLoaded(before) {
      assert after[j] == before[j];
    }
  }

  /** The least loaded lane is at most the average of the work dispatched. */
  lemma {:induction false} LeastBelowAverage(costs: seq<real>, lanes: nat)
    requires 1 <= lanes
    ensures var loads := Dispatch(costs, lanes);
            Times(lanes, loads[LeastLoaded(loads)]) <= Sum(costs)
  {
    var loads := Dispatch(costs, lanes);
    WorkConserved(costs, Choices(costs, lanes), lanes);
    SumAtLeast(loads, loads[LeastLoaded(loads)]);
  }

  /** m peak <= sum + (m - 1) largest. */
  predicate Graham(lanes: nat, peak: real, sum: real, largest: real)
    requires 1 <= lanes
  {
    Times(lanes, peak) <= sum + Times(lanes - 1, largest)
  }

  /** When the last job sets the peak, it started no later than the average of
      the work dispatched before it. */
  lemma {:induction false} LastJobBound(costs: seq<real>, lanes: nat)
    requires 1 <= lanes && costs != []
    ensures Graham(lanes, LastFinish(costs, lanes), Sum(costs), costs[|costs| - 1])
  {
    var n := |costs| - 1;
    var before := Dispatch(costs[..n], lanes);
    LeastBelowAverage(costs[..n], lanes);
    TimesPlus(lanes, before[LeastLoaded(before)], costs[n]);
  }

  lemma {:induction false} GrahamGrows(lanes: nat, before: real, after: real, sum: real, job: real, largest: real)
    requires 1 <= lanes && Graham(lanes, before, sum, largest) && after <= before && 0.0 <= job
    ensures Graham(lanes, after, sum + job, largest)
  {
    TimesMonotone(lanes, after, before);
  }

  lemma {:induction false} GrahamLast(lanes: nat, after: real, sum: real, job: real, largest: real)
    requires 1 <= lanes && Graham(lanes, after, sum, job) && job <= largest
    ensures Graham(lanes, after, sum, largest)
  {
    TimesMonotone(lanes - 1, job, largest);
  }

  lemma GrahamIdle(lanes: nat, largest: real)
    requires 1 <= lanes && 0.0 <= largest
    ensures Graham(lanes, 0.0, 0.0, largest)
  {
    TimesIs(lanes, 0.0);
    TimesIs(lanes - 1, 0.0);
    TimesMonotone(lanes - 1, 0.0, largest);
  }

  /** A new peak obeys Graham's inequality with the last job as the largest. */
  lemma {:induction false} NewPeak(costs: seq<real>, lanes: nat, before: real, after: real)
    requires 1 <= lanes && costs != []
    requires before == Peak(Dispatch(costs[..|costs| - 1], lanes)) && after == Peak(Dispatch(costs, lanes))
    ensures after <= before || Graham(lanes, after, Sum(costs), costs[|costs| - 1])
  {
    PeakStep(costs, lanes);
    LastJobBound(costs, lanes);
  }

  /** Graham's bound for list scheduling in ANY order, in terms of the total
      work and the largest job. */
  lemma {:induction false} GreedyUpperBound(costs: seq<real>, lanes: nat, largest: real)
    requires 1 <= lanes && NonNegative(costs) && 0.0 <= largest
    requires forall i :: 0 <= i < |costs| ==> costs[i] <= largest
    ensures Graham(lanes, Peak(Dispatch(costs, lanes)), Sum(costs), largest)
  {
    if costs == [] {
      assert Peak(Idle(lanes)) == 0.0;
      GrahamIdle(lanes, largest);
    } else {
      var n := |costs| - 1;
      var before, after := Peak(Dispatch(costs[..n], lanes)), Peak(Dispatch(costs, lanes));
      NewPeak(costs, lanes, before, after);
      if after <= before {
        GreedyUpperBound(costs[..n], lanes, largest);
        GrahamGrows(lanes, before, after, Sum(costs[..n]), costs[n], largest);
      } else {
        GrahamLast(lanes, after, Sum(costs), costs[n], largest);
      }
    }
  }

  /** Greedy dispatch in any order is within (2m-1)/m of every schedule. */
  lemma {:induction false} GreedyRatio(costs: seq<real>, lanes: nat, a: seq<nat>)
    requires 1 <= lanes && NonNegative(costs) && IsAssignment(a, |costs|, lanes)
    ensures Times(lanes, Peak(Dispatch(costs, lanes)))
         <= Times(2 * lanes - 1, Peak(LaneLoads(costs, a, lanes)))
  {
    var opt := Peak(LaneLoads(costs, a, lanes));
    LoadsNonNegative(costs, a, lanes);
    LowerBounds(costs, a, lanes);
    GreedyUpperBound(costs, lanes, opt);
    TimesSplit(lanes, lanes - 1, opt);
  }
}
