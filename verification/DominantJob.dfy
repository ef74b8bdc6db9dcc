/** How far longest-first dispatch can rise above its largest job
    (cmd/goldenattribution/attribution.go, sortedDescending into simulateMakespan). */
module DominantJob {
  import opened RealSums
  import opened LaneSchedule

  /** The makespan is no more than the largest job, or than twice the rest of the
      work spread over the lanes. */
  predicate Beside(lanes: nat, peak: real, sum: real, largest: real) {
    peak <= largest || Times(lanes, peak) <= 2.0 * (sum - largest)
  }

  // ---------------------------------------------------------------- the loads of the lanes

  lemma {:induction false} FirstLane(costs: seq<real>, lanes: nat)
    requires 1 <= lanes && costs != [] && NonNegative(costs)
    ensures costs[0] <= Dispatch(costs, lanes)[0]
  {
    var n := |costs| - 1;
    DispatchStep(costs, lanes);
    if n == 0 {
      assert Dispatch(costs[..0], lanes) == Idle(lanes);
    } else {
      FirstLane(costs[..n], lanes);
    }
  }

  /** Where a job has landed there is at least the smallest one. */
  lemma {:induction false} IdleOrBusy(costs: seq<real>, lanes: nat, p: real)
    requires 1 <= lanes && 0.0 <= p && forall i :: 0 <= i < |costs| ==> p <= costs[i]
    ensures forall l :: 0 <= l < lanes ==> Dispatch(costs, lanes)[l] == 0.0 || p <= Dispatch(costs, lanes)[l]
  {
    if costs != [] {
      DispatchStep(costs, lanes);
      IdleOrBusy(costs[..|costs| - 1], lanes, p);
    }
  }

  lemma {:induction false} RestAtLeast(loads: seq<real>, b: real)
    requires loads != [] && forall l :: 0 <= l < |loads| ==> b <= loads[l]
    ensures loads[0] + Times(|loads| - 1, b) <= Sum(loads)
  {
    if |loads| > 1 {
      RestAtLeast(loads[..|loads| - 1], b);
    } else {
      assert loads[..0] == [];
    }
  }

  // ---------------------------------------------------------------- above the largest job

  lemma {:induction false} TwoRounds(lanes: nat, load: real, p: real)
    requires 2 <= lanes && p <= load
    ensures Times(lanes, load + p) <= 2.0 * (Times(lanes - 1, load) + p)
  {
    if lanes > 2 {
      TwoRounds(lanes - 1, load, p);
    } else {
      assert Times(1, load) == load && Times(1, load + p) == load + p;
    }
  }

  /** The lane of the last job: idle before, or as loaded as every other lane. */
  lemma {:induction false} LastBeside(costs: seq<real>, lanes: nat)
    requires 2 <= lanes && |costs| >= 2 && Descending(costs) && NonNegative(costs)
    ensures Beside(lanes, LastFinish(costs, lanes), Sum(costs), costs[0])
  {
    var n := |costs| - 1;
    var loads, p := Dispatch(costs[..n], lanes), costs[n];
    var least := loads[LeastLoaded(loads)];
    if least < p {
      IdleOrBusy(costs[..n], lanes, p);
      assert least == 0.0;
    } else {
      FirstLane(costs[..n], lanes);
      RestAtLeast(loads, least);
      WorkConserved(costs[..n], Choices(costs[..n], lanes), lanes);
      TwoRounds(lanes, least, p);
    }
  }

  lemma BesideGrows(lanes: nat, before: real, after: real, sum: real, job: real, largest: real)
    requires Beside(lanes, before, sum, largest) && after <= before && 0.0 <= job
    ensures Beside(lanes, after, sum + job, largest)
  {
    TimesMonotone(lanes, after, before);
  }

  /** With two lanes or more, longest-first dispatch ends with its largest job, or
      within twice the rest of the work spread over the lanes. */
  lemma {:induction false} LptBesideLargest(costs: seq<real>, lanes: nat)
    requires 2 <= lanes && costs != [] && Descending(costs) && NonNegative(costs)
    ensures Beside(lanes, Peak(Dispatch(costs, lanes)), Sum(costs), costs[0])
  {
    var n := |costs| - 1;
    var before, after := Peak(Dispatch(costs[..n], lanes)), Peak(Dispatch(costs, lanes));
    PeakStep(costs, lanes);
    if n == 0 {
      assert Dispatch(costs[..0], lanes) == Idle(lanes);
    } else if after <= before {
      LptBesideLargest(costs[..n], lanes);
      BesideGrows(lanes, before, after, Sum(costs[..n]), costs[n], costs[0]);
    } else {
      LastBeside(costs, lanes);
    }
  }

  // ---------------------------------------------------------------- one job too many

  lemma FirstIdle(loads: seq<real>, n: nat)
    requires n < |loads|
    requires forall l :: 0 <= l < |loads| ==> if l < n then 0.0 < loads[l] else loads[l] == 0.0
    ensures LeastLoaded(loads) == n
  {
    assert loads[n] == 0.0;
  }

  /** As long as there are idle lanes every job gets one of its own. */
  lemma {:induction false} FirstRound(costs: seq<real>, lanes: nat)
    requires 1 <= lanes && |costs| <= lanes && forall i :: 0 <= i < |costs| ==> 0.0 < costs[i]
    ensures forall l :: 0 <= l < lanes ==> Dispatch(costs, lanes)[l] == if l < |costs| then costs[l] else 0.0
  {
    if costs == [] {
      assert Dispatch(costs, lanes) == Idle(lanes);
    } else {
      var n := |costs| - 1;
      FirstRound(costs[..n], lanes);
      DispatchStep(costs, lanes);
      FirstIdle(Dispatch(costs[..n], lanes), n);
    }
  }

  /** One job more than lanes shares its lane with another. */
  lemma {:induction false} OneTooMany(costs: seq<real>, lanes: nat, x: real)
    requires 1 <= lanes && |costs| == lanes + 1 && 0.0 < x && forall i :: 0 <= i < |costs| ==> x <= costs[i]
    ensures 2.0 * x <= Peak(Dispatch(costs, lanes))
  {
    var before := Dispatch(costs[..lanes], lanes);
    var l := LeastLoaded(before);
    FirstRound(costs[..lanes], lanes);
    DispatchStep(costs, lanes);
    assert x <= before[l] == costs[l];
    assert Dispatch(costs, lanes)[l] == before[l] + costs[lanes];
  }
}
