/** The lane part of the attribution report (cmd/goldenattribution/attribution.go):
    job costs, the FIFO and LPT makespans, and the bound printed beside them,
    measured against the least makespan any schedule can reach. */
module LaneReport {
  import opened RealSums
  import opened LaneSchedule
  import opened LongestFirst
  import opened Wrappers

  // ---------------------------------------------------------------- descending order

  /** Where x goes in a descending list: behind every element at least as large. */
  function Slot(xs: seq<real>, x: real): (k: nat)
    requires Descending(xs)
    ensures k <= |xs|
    ensures forall i :: 0 <= i < k ==> x <= xs[i]
    ensures forall i :: k <= i < |xs| ==> xs[i] < x
  {
    if xs == [] || x <= xs[|xs| - 1] then |xs| else Slot(xs[..|xs| - 1], x)
  }

  function InsertAt<T>(xs: seq<T>, k: nat, x: T): (ys: seq<T>)
    requires k <= |xs|
    ensures |ys| == |xs| + 1
  {
    xs[..k] + [x] + xs[k..]
  }

  function SortDescending(xs: seq<real>): (ys: seq<real>)
    ensures Descending(ys) && |ys| == |xs|
  {
    if xs == [] then []
    else
      var ys := SortDescending(xs[..|xs| - 1]);
      InsertAt(ys, Slot(ys, xs[|xs| - 1]), xs[|xs| - 1])
  }

  lemma InsertAddsOne<T>(xs: seq<T>, k: nat, x: T)
    requires k <= |xs|
    ensures multiset(InsertAt(xs, k, x)) == multiset(xs) + multiset{x}
  {
    assert xs == xs[..k] + xs[k..];
  }

  lemma SnocAddsOne<T>(xs: seq<T>)
    requires xs != []
    ensures multiset(xs) == multiset(xs[..|xs| - 1]) + multiset{xs[|xs| - 1]}
  {
    assert xs == xs[..|xs| - 1] + [xs[|xs| - 1]];
  }

  lemma {:induction false} SortKeepsElements(xs: seq<real>)
    ensures multiset(SortDescending(xs)) == multiset(xs)
  {
    if xs != [] {
      var n := |xs| - 1;
      var ys := SortDescending(xs[..n]);
      SortKeepsElements(xs[..n]);
      InsertAddsOne(ys, Slot(ys, xs[n]), xs[n]);
      SnocAddsOne(xs);
    }
  }

  lemma LastIsLeast(xs: seq<real>, x: real)
    requires Descending(xs) && x in multiset(xs)
    ensures xs != [] && xs[|xs| - 1] <= x
  {
    var i :| 0 <= i < |xs| && xs[i] == x;
  }

  lemma DropLast(xs: seq<real>)
    requires xs != []
    ensures xs[|xs| - 1] in multiset(xs)
    ensures multiset(xs[..|xs| - 1]) == multiset(xs) - multiset{xs[|xs| - 1]}
  {
    assert xs == xs[..|xs| - 1] + [xs[|xs| - 1]];
  }

  /** Descending order leaves no choice, so the result does not depend on the
      sorting algorithm the library uses. */
  lemma {:induction false} DescendingUnique(xs: seq<real>, ys: seq<real>)
    requires Descending(xs) && Descending(ys) && multiset(xs) == multiset(ys)
    ensures xs == ys
  {
    SameLength(xs, ys);
    if xs != [] {
      SameLast(xs, ys);
      DescendingUnique(xs[..|xs| - 1], ys[..|ys| - 1]);
      assert xs == xs[..|xs| - 1] + [xs[|xs| - 1]];
    }
  }

  lemma SameLength(xs: seq<real>, ys: seq<real>)
    requires multiset(xs) == multiset(ys)
    ensures |xs| == |ys|
  {
    assert |multiset(xs)| == |xs| && |multiset(ys)| == |ys|;
  }

  lemma SameLast(xs: seq<real>, ys: seq<real>)
    requires xs != [] && ys != []
    requires Descending(xs) && Descending(ys) && multiset(xs) == multiset(ys)
    ensures xs[|xs| - 1] == ys[|ys| - 1]
    ensures multiset(xs[..|xs| - 1]) == multiset(ys[..|ys| - 1])
  {
    DropLast(xs);
    DropLast(ys);
    LastIsLeast(ys, xs[|xs| - 1]);
    LastIsLeast(xs, ys[|ys| - 1]);
  }

  // ---------------------------------------------------------------- the optimum

  ghost predicate IsOptimal(costs: seq<real>, lanes: nat, a: seq<nat>) {
    && 1 <= lanes
    && IsAssignment(a, |costs|, lanes)
    && forall b :: IsAssignment(b, |costs|, lanes) ==>
         Peak(LaneLoads(costs, a, lanes)) <= Peak(LaneLoads(costs, b, lanes))
  }

  ghost function Plus(base: seq<real>, loads: seq<real>): (r: seq<real>)
    requires |base| == |loads|
    ensures |r| == |base| && forall l :: 0 <= l < |r| ==> r[l] == base[l] + loads[l]
  {
    seq(|base|, l requires 0 <= l < |base| => base[l] + loads[l])
  }

  lemma LoadsFromBase(base: seq<real>, costs: seq<real>, a: seq<nat>, lanes: nat)
    requires costs != [] && IsAssignment(a, |costs|, lanes) && |base| == lanes
    ensures var n := |costs| - 1;
            Plus(base, LaneLoads(costs, a, lanes))
              == Plus(base[a[n] := base[a[n]] + costs[n]], LaneLoads(costs[..n], a[..n], lanes))
  {}

  /** The makespan of assignment a on top of starting loads. */
  ghost function Finish(base: seq<real>, costs: seq<real>, a: seq<nat>): real
    requires base != [] && IsAssignment(a, |costs|, |base|)
  {
    Peak(Plus(base, LaneLoads(costs, a, |base|)))
  }

  /** Placing the last job first changes nothing. */
  lemma FinishFromBase(base: seq<real>, costs: seq<real>, a: seq<nat>)
    requires base != [] && costs != [] && IsAssignment(a, |costs|, |base|)
    ensures var n := |costs| - 1;
            && IsAssignment(a[..n], n, |base|)
            && Finish(base, costs, a) == Finish(base[a[n] := base[a[n]] + costs[n]], costs[..n], a[..n])
  {
    LoadsFromBase(base, costs, a, |base|);
  }

  /** No assignment finishes earlier than this. */
  ghost predicate NoneBelow(base: seq<real>, costs: seq<real>, best: real)
    requires base != []
  {
    forall b :: IsAssignment(b, |costs|, |base|) ==> best <= Finish(base, costs, b)
  }

  /** No assignment whose last job sits on a lane below l finishes earlier. */
  ghost predicate BestBelow(base: seq<real>, costs: seq<real>, best: real, l: nat)
    requires base != [] && costs != []
  {
    forall b :: IsAssignment(b, |costs|, |base|) && b[|costs| - 1] < l ==> best <= Finish(base, costs, b)
  }

  /** Exhaustive search over the lane of the last job finds a best completion of
      any starting loads. */
  lemma {:induction false} BestFrom(base: seq<real>, costs: seq<real>) returns (a: seq<nat>)
    requires base != []
    ensures IsAssignment(a, |costs|, |base|)
    ensures NoneBelow(base, costs, Finish(base, costs, a))
    decreases |costs|, |base| + 1
  {
    if costs == [] {
      a := [];
    } else {
      a := BestUpTo(base, costs, |base|);
    }
  }

  lemma {:induction false} BestUpTo(base: seq<real>, costs: seq<real>, lanes: nat) returns (a: seq<nat>)
    requires costs != [] && 1 <= lanes <= |base|
    ensures IsAssignment(a, |costs|, |base|)
    ensures BestBelow(base, costs, Finish(base, costs, a), lanes)
    decreases |costs|, lanes
  {
    var last := BestWithLast(base, costs, lanes - 1);
    a := last;
    if lanes > 1 {
      var earlier := BestUpTo(base, costs, lanes - 1);
      if Finish(base, costs, earlier) < Finish(base, costs, last) {
        a := earlier;
      }
    }
  }

  lemma NoneBelowWithLast(base: seq<real>, costs: seq<real>, best: real, l: nat, b: seq<nat>)
    requires base != [] && costs != [] && l < |base|
    requires NoneBelow(base[l := base[l] + costs[|costs| - 1]], costs[..|costs| - 1], best)
    requires IsAssignment(b, |costs|, |base|) && b[|costs| - 1] == l
    ensures best <= Finish(base, costs, b)
  {
    FinishFromBase(base, costs, b);
  }

  lemma {:induction false} BestWithLast(base: seq<real>, costs: seq<real>, l: nat) returns (a: seq<nat>)
    requires base != [] && costs != [] && l < |base|
    ensures IsAssignment(a, |costs|, |base|)
    ensures forall b :: IsAssignment(b, |costs|, |base|) && b[|costs| - 1] == l ==>
              Finish(base, costs, a) <= Finish(base, costs, b)
    decreases |costs|, 0
  {
    var n := |costs| - 1;
    var rest := BestFrom(base[l := base[l] + costs[n]], costs[..n]);
    a := rest + [l];
    assert a[..n] == rest;
    FinishFromBase(base, costs, a);
    forall b | IsAssignment(b, |costs|, |base|) && b[n] == l
      ensures Finish(base, costs, a) <= Finish(base, costs, b)
    {
      NoneBelowWithLast(base, costs, Finish(base, costs, a), l, b);
    }
  }

  lemma OptimalExists(costs: seq<real>, lanes: nat) returns (opt: seq<nat>)
    requires 1 <= lanes
    ensures IsOptimal(costs, lanes, opt)
  {
    opt := BestFrom(Idle(lanes), costs);
    forall b | IsAssignment(b, |costs|, lanes)
      ensures Finish(Idle(lanes), costs, b) == Peak(LaneLoads(costs, b, lanes))
    {
      assert Plus(Idle(lanes), LaneLoads(costs, b, lanes)) == LaneLoads(costs, b, lanes);
    }
  }

  ghost function BestSchedule(costs: seq<real>, lanes: nat): (a: seq<nat>)
    requires 1 <= lanes
    ensures IsOptimal(costs, lanes, a)
  {
    assert exists a :: IsOptimal(costs, lanes, a) by {
      var a := OptimalExists(costs, lanes);
    }
    var a :| IsOptimal(costs, lanes, a);
    a
  }

  /** OPT: the makespan no schedule beats and some schedule reaches. */
  ghost function Optimum(costs: seq<real>, lanes: nat): (opt: real)
    requires 1 <= lanes
    ensures forall b :: IsAssignment(b, |costs|, lanes) ==> opt <= Peak(LaneLoads(costs, b, lanes))
  {
    Peak(LaneLoads(costs, BestSchedule(costs, lanes), lanes))
  }

  // ---------------------------------------------------------------- schedules survive sorting

  lemma {:induction false} InsertLoads(costs: seq<real>, a: seq<nat>, lanes: nat, k: nat, c: real, l: nat)
    requires IsAssignment(a, |costs|, lanes) && k <= |costs| && l < lanes
    ensures IsAssignment(InsertAt(a, k, l), |costs| + 1, lanes)
    ensures LaneLoads(InsertAt(costs, k, c), InsertAt(a, k, l), lanes)
         == LaneLoads(costs, a, lanes)[l := LaneLoads(costs, a, lanes)[l] + c]
    decreases |costs|
  {
    var n := |costs|;
    InsertFront(costs, k, c);
    InsertFront(a, k, l);
    if k < n {
      InsertLoads(costs[..n - 1], a[..n - 1], lanes, k, c, l);
    }
  }

  lemma InsertFront<T>(xs: seq<T>, k: nat, x: T)
    requires k <= |xs|
    ensures k == |xs| ==> InsertAt(xs, k, x)[..|xs|] == xs && InsertAt(xs, k, x)[|xs|] == x
    ensures k < |xs| ==> InsertAt(xs, k, x)[..|xs|] == InsertAt(xs[..|xs| - 1], k, x)
    ensures k < |xs| ==> InsertAt(xs, k, x)[|xs|] == xs[|xs| - 1]
  {
  }

  /** Every schedule of the plan order is a schedule of the sorted order. */
  lemma {:induction false} SortedSchedule(costs: seq<real>, a: seq<nat>, lanes: nat) returns (a': seq<nat>)
    requires IsAssignment(a, |costs|, lanes)
    ensures IsAssignment(a', |costs|, lanes)
    ensures LaneLoads(SortDescending(costs), a', lanes) == LaneLoads(costs, a, lanes)
    decreases |costs|
  {
    if costs == [] {
      a' := [];
    } else {
      var n := |costs| - 1;
      var b := SortedSchedule(costs[..n], a[..n], lanes);
      var ys := SortDescending(costs[..n]);
      var k := Slot(ys, costs[n]);
      a' := InsertAt(b, k, a[n]);
      InsertLoads(ys, b, lanes, k, costs[n], a[n]);
    }
  }

  lemma SortedNonNegative(costs: seq<real>)
    requires NonNegative(costs)
    ensures NonNegative(SortDescending(costs))
  {
    SortKeepsElements(costs);
    forall i | 0 <= i < |costs|
      ensures 0.0 <= SortDescending(costs)[i]
    {
      assert SortDescending(costs)[i] in multiset(costs);
    }
  }

  lemma LptTimes(costs: seq<real>, lanes: nat, a: seq<nat>)
    requires 1 <= lanes && NonNegative(costs) && IsAssignment(a, |costs|, lanes)
    ensures Times(3 * lanes, Makespan(SortDescending(costs), lanes))
         <= Times(4 * lanes - 1, Peak(LaneLoads(costs, a, lanes)))
  {
    SortedNonNegative(costs);
    var a' := SortedSchedule(costs, a, lanes);
    LptRatio(SortDescending(costs), lanes, a');
    if costs == [] {
      assert Peak(Idle(lanes)) == 0.0;
    }
  }

  /** The LPT makespan the report prints is within 4/3 - 1/(3m) of the optimum
      of the jobs as given: 3m LPT <= (4m - 1) OPT. */
  lemma LptNearOptimum(costs: seq<real>, lanes: nat)
    requires 1 <= lanes && NonNegative(costs)
    ensures Times(3 * lanes, Makespan(SortDescending(costs), lanes))
         <= Times(4 * lanes - 1, Optimum(costs, lanes))
  {
    LptTimes(costs, lanes, BestSchedule(costs, lanes));
  }

  /** In plan order greedy dispatch is never below the optimum and within
      2 - 1/m of it: m FIFO <= (2m - 1) OPT. */
  lemma FifoNearOptimum(costs: seq<real>, lanes: nat)
    requires 1 <= lanes && NonNegative(costs) && costs != []
    ensures Optimum(costs, lanes) <= Makespan(costs, lanes)
    ensures Times(lanes, Makespan(costs, lanes)) <= Times(2 * lanes - 1, Optimum(costs, lanes))
  {
    assert IsAssignment(Choices(costs, lanes), |costs|, lanes);
    GreedyRatio(costs, lanes, BestSchedule(costs, lanes));
  }

  // ---------------------------------------------------------------- what a report is made of

  /** The measured service of one batch: the worker's total, when it reported
      one, and the queue's. */
  datatype Attribution = Attribution(totalMs: Option<real>, queueServiceMs: real)

  datatype Batch = Batch(renderMs: int, attribution: Option<Attribution>)

  /** Overhead on top of rendering: from the worker's total if it is positive,
      else from the queue's service time if that is positive, else none. */
  function Fixed(b: Batch): real {
    match b.attribution
    case None => 0.0
    case Some(a) =>
      if a.totalMs.Some? && a.totalMs.value > 0.0 then a.totalMs.value - b.renderMs as real
      else if a.queueServiceMs > 0.0 then a.queueServiceMs - b.renderMs as real
      else 0.0
  }

  /** A positive total of the worker goes before the queue's service time, that before
      plain rendering. */
  lemma CostPreference(b: Batch)
    ensures b.attribution.None? ==> Cost(b) == b.renderMs as real
    ensures b.attribution.Some? ==>
              var a := b.attribution.value;
              && (a.totalMs.Some? && a.totalMs.value > 0.0 ==> Cost(b) == a.totalMs.value)
              && (!(a.totalMs.Some? && a.totalMs.value > 0.0) ==>
                    Cost(b) == if a.queueServiceMs > 0.0 then a.queueServiceMs else b.renderMs as real)
  {}

  function Cost(b: Batch): real {
    b.renderMs as real + Fixed(b)
  }

  function Costs(batches: seq<Batch>): (cs: seq<real>)
    ensures |cs| == |batches| && forall i :: 0 <= i < |cs| ==> cs[i] == Cost(batches[i])
  {
    seq(|batches|, i requires 0 <= i < |batches| => Cost(batches[i]))
  }

  function Renders(batches: seq<Batch>): (rs: seq<real>)
    ensures |rs| == |batches| && forall i :: 0 <= i < |rs| ==> rs[i] == batches[i].renderMs as real
  {
    seq(|batches|, i requires 0 <= i < |batches| => batches[i].renderMs as real)
  }

  /** The factor of the printed bound. */
  function Factor(lanes: nat): real
    requires 1 <= lanes
  {
    4.0 / 3.0 - 1.0 / (3.0 * lanes as real)
  }

  function Scaled(lanes: nat, floor: real): real
    requires 1 <= lanes
  {
    Factor(lanes) * floor
  }

  /** A floor of render time scaled by Graham's factor, plus the largest job. */
  function Bound(lanes: nat, floor: real, costs: seq<real>): real
    requires 1 <= lanes
  {
    if costs == [] then 0.0 else Scaled(lanes, floor) + Peak(costs)
  }

  function PrintedBound(batches: seq<Batch>, lanes: nat): real
    requires 1 <= lanes
  {
    Bound(lanes, Sum(Renders(batches)) / lanes as real, Costs(batches))
  }

  datatype RunReport = RunReport(
    renderSumMs: real, renderFloorMs: real, fixedSamples: seq<real>,
    fifoMakespanMs: real, lptMakespanMs: real, lptWorstCaseBound: real)

  /** The positive overheads, in batch order: what the report takes the median of. */
  function Overheads(batches: seq<Batch>): (xs: seq<real>)
    ensures forall x :: x in xs ==> 0.0 < x
  {
    if batches == [] then []
    else
      var front, fixed := Overheads(batches[..|batches| - 1]), Fixed(batches[|batches| - 1]);
      if fixed > 0.0 then front + [fixed] else front
  }

  /** Batch by batch: what a batch adds is what its cost exceeds its rendering by, if
      it does. */
  lemma OverheadsSnoc(batches: seq<Batch>, b: Batch)
    ensures Overheads([]) == []
    ensures Overheads(batches + [b])
         == Overheads(batches) + if Cost(b) > b.renderMs as real then [Cost(b) - b.renderMs as real] else []
  {
    assert (batches + [b])[..|batches|] == batches;
  }

  lemma Collected(batches: seq<Batch>, i: nat)
    requires i < |batches|
    ensures Costs(batches[..i + 1]) == Costs(batches[..i]) + [Cost(batches[i])]
    ensures Sum(Renders(batches[..i + 1])) == Sum(Renders(batches[..i])) + batches[i].renderMs as real
    ensures Overheads(batches[..i + 1])
         == Overheads(batches[..i]) + if Fixed(batches[i]) > 0.0 then [Fixed(batches[i])] else []
  {
    var upTo := batches[..i + 1];
    assert upTo[..i] == batches[..i] && upTo[i] == batches[i];
    assert Renders(upTo)[..i] == Renders(batches[..i]);
  }

  method CollectCosts(batches: seq<Batch>) returns (costs: seq<real>, fixedSamples: seq<real>, renderSum: real)
    ensures costs == Costs(batches)
    ensures renderSum == Sum(Renders(batches))
    ensures fixedSamples == Overheads(batches)
  {
    costs, fixedSamples, renderSum := [], [], 0.0;
    for i := 0 to |batches|
      invariant costs == Costs(batches[..i])
      invariant renderSum == Sum(Renders(batches[..i]))
      invariant fixedSamples == Overheads(batches[..i])
    {
      var batch := batches[i];
      Collected(batches, i);
      renderSum := renderSum + batch.renderMs as real;
      var fixed := 0.0;
      if batch.attribution.Some? {
        var a := batch.attribution.value;
        if a.totalMs.Some? && a.totalMs.value > 0.0 {
          fixed := a.totalMs.value - batch.renderMs as real;
        } else if a.queueServiceMs > 0.0 {
          fixed := a.queueServiceMs - batch.renderMs as real;
        }
        if fixed > 0.0 {
          fixedSamples := fixedSamples + [fixed];
        }
      }
      costs := costs + [batch.renderMs as real + fixed];
    }
    assert batches[..|batches|] == batches;
  }

  method MaxCost(costs: seq<real>) returns (maxCost: real)
    requires costs != []
    ensures maxCost == Peak(costs)
  {
    maxCost := costs[0];
    assert costs[..1] == [costs[0]];
    for i := 1 to |costs|
      invariant maxCost == Peak(costs[..i])
    {
      assert costs[..i + 1][..i] == costs[..i];
      if costs[i] > maxCost {
        maxCost := costs[i];
      }
    }
    assert costs[..|costs|] == costs;
  }

  method WorstCaseBound(lanes: nat, floor: real, costs: seq<real>) returns (bound: real)
    requires 1 <= lanes
    ensures bound == Bound(lanes, floor, costs)
  {
    bound := 0.0;
    if |costs| > 0 {
      var maxCost := MaxCost(costs);
      var factor := 4.0 / 3.0 - 1.0 / (3.0 * lanes as real);
      assert factor * floor == Scaled(lanes, floor);
      bound := factor * floor + maxCost;
    }
  }

  /** The lane arithmetic of analyzeFile.  The command refuses fewer than one lane. */
  method AnalyzeLanes(batches: seq<Batch>, lanes: nat) returns (run: RunReport)
    requires 1 <= lanes
    ensures run.renderSumMs == Sum(Renders(batches))
    ensures run.renderFloorMs == Sum(Renders(batches)) / lanes as real
    ensures run.fixedSamples == Overheads(batches)
    ensures run.fifoMakespanMs == Makespan(Costs(batches), lanes)
    ensures run.lptMakespanMs == Makespan(SortDescending(Costs(batches)), lanes)
    ensures run.lptWorstCaseBound == PrintedBound(batches, lanes)
  {
    var costs, fixedSamples, renderSum := CollectCosts(batches);
    var floor := renderSum / lanes as real;
    var fifo := SimulateMakespan(costs, lanes);
    var lpt := SimulateMakespan(SortDescending(costs), lanes);
    var bound := WorstCaseBound(lanes, floor, costs);
    run := RunReport(renderSum, floor, fixedSamples, fifo, lpt, bound);
  }

  /** Every cost the report simulates is a measured total, a measured service
      time or a render time, never a mixture, and never negative. */
  lemma CostsNonNegative(batches: seq<Batch>)
    requires forall b :: b in batches ==> 0 <= b.renderMs
    ensures NonNegative(Costs(batches))
    ensures forall b :: b in batches ==>
              || Cost(b) == b.renderMs as real
              || (b.attribution.Some? && b.attribution.value.totalMs == Some(Cost(b)))
              || (b.attribution.Some? && b.attribution.value.queueServiceMs == Cost(b))
  {
    forall i | 0 <= i < |batches|
      ensures 0.0 <= Costs(batches)[i]
    {
      assert batches[i] in batches;
    }
  }
}
