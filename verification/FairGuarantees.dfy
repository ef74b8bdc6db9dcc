/** What the fair semaphore promises over whole runs
    (pkg/concurrent/fair_semaphore.go): slots are conserved, nobody is stranded,
    hand-off is fair and first-in first-out within one owner, and a starving
    owner waits for a bounded number of releases. */
module FairGuarantees {
  import opened FairGate
  import opened FairRuns

  // ---------------------------------------------------------------- safety

  /** Conservation, in every reachable state: the slots counted as taken are
      exactly those of callers holding one, having been handed one, or about to
      return one; the capacity is respected; no ready channel is closed twice. */
  lemma SlotsConserved(cap: nat, es: seq<Event>)
    requires 1 <= cap && Possible(Init(cap), es)
    ensures var s := Run(Init(cap), es);
            && s.gate.total == SumValues(s.gate.active) == |AllHolders(s)|
            && s.gate.total <= s.gate.cap
            && (forall o :: Held(s.gate, o) == |Holders(s, o)|)
            && (forall p :: p in s.callers ==> s.callers[p].closes <= 1)
  {
    InitInv(cap);
    RunInv(Init(cap), es);
  }

  ghost predicate AllFinished(s: Sys) {
    forall p :: p in s.callers ==> s.callers[p].stage == Finished
  }

  /** When every caller has finished nothing is left behind. */
  lemma AllReturned(cap: nat, es: seq<Event>)
    requires 1 <= cap && Possible(Init(cap), es)
    requires AllFinished(Run(Init(cap), es))
    ensures var s := Run(Init(cap), es);
            s.gate.active == map[] && s.gate.total == 0 && s.gate.queue == []
  {
    var s := Run(Init(cap), es);
    InitInv(cap);
    RunInv(Init(cap), es);
    assert AllHolders(s) == {};
    forall o
      ensures o !in s.gate.active
    {
      assert Holders(s, o) == {};
      assert Held(s.gate, o) == 0;
    }
    WaitersUnfinished(s);
  }

  lemma WaitersUnfinished(s: Sys)
    requires QueueMatches(s)
    ensures s.gate.queue != [] ==> !AllFinished(s)
  {
    if s.gate.queue != [] {
      assert Queued(s.callers[s.gate.queue[0].caller]);
    }
  }

  /** No reachable state strands a waiter that the rule would admit, cancelled
      neighbours included; and while anyone waits, no new caller gets a slot. */
  lemma NobodyStranded(cap: nat, es: seq<Event>)
    requires 1 <= cap && Possible(Init(cap), es)
    ensures var s := Run(Init(cap), es);
            && (forall i :: 0 <= i < |s.gate.queue| ==> !Admissible(s.gate, s.gate.queue[i].owner))
            && (forall o :: Admissible(s.gate, o) <==> s.gate.total < s.gate.cap)
            && (forall o :: Admissible(s.gate, o) ==> s.gate.queue == [])
  {
    InitInv(cap);
    RunInv(Init(cap), es);
    var s := Run(Init(cap), es);
    forall o
      ensures Admissible(s.gate, o) <==> s.gate.total < s.gate.cap
      ensures Admissible(s.gate, o) ==> s.gate.queue == []
    {
      FastPathExact(s, o);
    }
  }

  // ---------------------------------------------------------------- fairness of one step

  ghost predicate GetsSlot(s: Sys, t: Sys, p: nat) {
    && p in t.callers && HasSlot(t.callers[p])
    && (p in s.callers ==> !HasSlot(s.callers[p]))
  }

  /** The gate at the moment the decision is taken: after the slot was freed. */
  ghost function Deciding(s: Sys, e: Event): Gate
    requires Enabled(s, e)
  {
    if e.GiveBack? then Deactivate(s.gate, s.callers[e.p].owner) else s.gate
  }

  /** Whoever gets a slot either held none, or nobody was starving. */
  lemma FairAdmission(s: Sys, e: Event, p: nat)
    requires Inv(s) && Enabled(s, e) && GetsSlot(s, Step(s, e), p)
    ensures var g := Deciding(s, e);
            || Held(g, Step(s, e).callers[p].owner) == 0
            || forall i :: 0 <= i < |g.queue| ==> !Starving(g, g.queue[i])
  {
    var t := Step(s, e);
    if e.GiveBack? {
      GiveBackStep(s, e.p);
      var g := Freed(s, e.p).gate;
      if s.gate.queue != [] {
        var w := g.queue[Pick(g)];
        assert p == w.caller;
        assert FirstStarving(g, g.queue) <= |g.queue|;
      }
    } else if e.Arrive? || e.Try? {
      FastPathExact(s, e.owner);
    }
  }

  // ---------------------------------------------------------------- positions

  /** p waits at index i. */
  predicate WaitsAt(s: Sys, p: nat, i: nat) {
    i < |s.gate.queue| && s.gate.queue[i].caller == p
  }

  /** Where index i lands when index k is taken out. */
  function Shifted(k: nat, i: nat): nat {
    if k < i then i - 1 else i
  }

  lemma GiveBackPosition(s: Sys, r: nat, p: nat, i: nat) returns (i': nat)
    requires Inv(s) && Enabled(s, GiveBack(r)) && WaitsAt(s, p, i)
    ensures var t, k := Step(s, GiveBack(r)), Pick(Freed(s, r).gate);
            && p in s.callers && p in t.callers && t.callers[p].owner == s.callers[p].owner
            && (t.callers[p].done <==> i == k) && (i == k ==> HasSlot(t.callers[p]))
            && i' == Shifted(k, i)
            && (i != k ==> WaitsAt(t, p, i'))
  {
    GiveBackCallers(s, r, p, i);
    if i != Pick(Freed(s, r).gate) {
      GiveBackMoves(s, r, p, i);
    }
    i' := Shifted(Pick(Freed(s, r).gate), i);
  }

  lemma GiveBackMoves(s: Sys, r: nat, p: nat, i: nat)
    requires Inv(s) && Enabled(s, GiveBack(r)) && WaitsAt(s, p, i) && i != Pick(Freed(s, r).gate)
    ensures WaitsAt(Step(s, GiveBack(r)), p, Shifted(Pick(Freed(s, r).gate), i))
  {
    GiveBackStep(s, r);
    var g := Freed(s, r).gate;
    WithoutKeeps(g.queue, Pick(g));
  }

  lemma GiveBackCallers(s: Sys, r: nat, p: nat, i: nat)
    requires Inv(s) && Enabled(s, GiveBack(r)) && WaitsAt(s, p, i)
    ensures var t := Step(s, GiveBack(r));
            && p in s.callers && p in t.callers && t.callers[p].owner == s.callers[p].owner
            && (t.callers[p].done <==> i == Pick(Freed(s, r).gate)) && (t.callers[p].done ==> HasSlot(t.callers[p]))
  {
    GiveBackStep(s, r);
  }

  lemma AbandonMoves(s: Sys, r: nat, p: nat, i: nat, k: nat)
    requires Inv(s) && Enabled(s, Abandon(r)) && !s.callers[r].done && WaitsAt(s, p, i) && p != r
    requires k == Position(s.gate.queue, r)
    ensures k < |s.gate.queue| && k != i && WaitsAt(Step(s, Abandon(r)), p, Shifted(k, i))
  {
    assert Waiter(r, s.callers[r].owner) in s.gate.queue;
    WithoutKeeps(s.gate.queue, k);
  }

  lemma AbandonPosition(s: Sys, r: nat, p: nat, i: nat) returns (i': nat)
    requires Inv(s) && Enabled(s, Abandon(r)) && WaitsAt(s, p, i) && p != r
    ensures i' <= i && WaitsAt(Step(s, Abandon(r)), p, i')
  {
    i' := i;
    if !s.callers[r].done {
      var k := Position(s.gate.queue, r);
      AbandonMoves(s, r, p, i, k);
      i' := Shifted(k, i);
    }
  }

  /** One step moves a waiter, if at all, towards the head of the queue. */
  lemma StepPosition(s: Sys, e: Event, p: nat, i: nat) returns (i': nat)
    requires Inv(s) && Enabled(s, e) && WaitsAt(s, p, i) && e != Abandon(p)
    ensures p in s.callers && p in Step(s, e).callers
    ensures Step(s, e).callers[p].owner == s.callers[p].owner == s.gate.queue[i].owner
    ensures i' <= i
    ensures if Step(s, e).callers[p].done then HasSlot(Step(s, e).callers[p]) else WaitsAt(Step(s, e), p, i')
  {
    if e.GiveBack? {
      i' := GiveBackPosition(s, e.p, p, i);
    } else if e.Abandon? {
      i' := AbandonPosition(s, e.p, p, i);
    } else {
      i' := i;
      if e.Arrive? || e.Try? {
        FastPathExact(s, e.owner);
      }
    }
  }

  // ---------------------------------------------------------------- bounded waiting

  function Releases(es: seq<Event>): nat {
    if es == [] then 0 else (if es[0].GiveBack? then 1 else 0) + Releases(es[1..])
  }

  lemma HolderCounts(s: Sys, p: nat)
    requires SlotsMatch(s)
    ensures p in s.callers && HasSlot(s.callers[p]) ==> 0 < Held(s.gate, s.callers[p].owner)
  {
    if p in s.callers && HasSlot(s.callers[p]) {
      assert p in Holders(s, s.callers[p].owner);
    }
  }

  /** A release that leaves a starving owner without a slot still moves every
      waiter of that owner one place forward. */
  lemma ReleaseAdvances(s: Sys, r: nat, p: nat, i: nat) returns (i': nat)
    requires Inv(s) && Enabled(s, GiveBack(r)) && WaitsAt(s, p, i)
    requires Held(s.gate, s.gate.queue[i].owner) == 0
    requires Held(Step(s, GiveBack(r)).gate, s.gate.queue[i].owner) == 0
    ensures i' < i && WaitsAt(Step(s, GiveBack(r)), p, i')
  {
    var g := Freed(s, r).gate;
    GiveBackStep(s, r);
    DeactivateBalanced(s.gate, s.callers[r].owner);
    assert Starving(g, g.queue[i]);
    assert Pick(g) <= i;
    i' := GiveBackPosition(s, r, p, i);
    StepInv(s, GiveBack(r));
    HolderCounts(Step(s, GiveBack(r)), p);
  }

  /** The owner holds a slot after the first k steps. */
  predicate HoldsAfter(s: Sys, es: seq<Event>, k: nat, o: Owner) {
    k <= |es| && Possible(s, es[..k]) && 0 < Held(Run(s, es[..k]).gate, o)
  }

  lemma OneLater(s: Sys, es: seq<Event>, k: nat, o: Owner)
    requires es != [] && Enabled(s, es[0]) && HoldsAfter(Step(s, es[0]), es[1..], k, o)
    ensures HoldsAfter(s, es, k + 1, o)
  {
    assert es[..k + 1][1..] == es[1..][..k];
  }

  /** One step of somebody else: the owner gets a slot, or the waiter stays, and a
      release moves it forward. */
  lemma OneStepOn(s: Sys, e: Event, p: nat, i: nat) returns (i': nat)
    requires Inv(s) && Enabled(s, e) && WaitsAt(s, p, i) && e != Abandon(p)
    requires Held(s.gate, s.gate.queue[i].owner) == 0
    ensures 0 < Held(Step(s, e).gate, s.gate.queue[i].owner) || StillWaits(Step(s, e), p, i', s.gate.queue[i].owner)
    ensures 0 < Held(Step(s, e).gate, s.gate.queue[i].owner) || i' + Releases([e]) <= i
  {
    i' := StepPosition(s, e, p, i);
    StepInv(s, e);
    HolderCounts(Step(s, e), p);
    if Held(Step(s, e).gate, s.gate.queue[i].owner) == 0 && e.GiveBack? {
      i' := ReleaseAdvances(s, e.p, p, i);
    }
    assert [e][1..] == [];
  }

  predicate StillWaits(s: Sys, p: nat, i: nat, o: Owner) {
    WaitsAt(s, p, i) && s.gate.queue[i].owner == o
  }

  /** Bounded waiting.  Whatever arrives, tries, is cancelled or is handed over
      in between, a waiter at index i that does not give up itself sees its owner
      holding a slot after at most i + 1 releases. */
  lemma {:induction false} BoundedWaiting(s: Sys, es: seq<Event>, p: nat, i: nat) returns (k: nat)
    requires Inv(s) && Possible(s, es) && WaitsAt(s, p, i)
    requires Abandon(p) !in es
    requires i + 1 <= Releases(es)
    ensures HoldsAfter(s, es, k, s.gate.queue[i].owner)
    decreases |es|
  {
    var o := s.gate.queue[i].owner;
    if 0 < Held(s.gate, o) {
      return 0;
    }
    FirstRelease(es);
    var e, rest := es[0], es[1..];
    assert e in es && forall x :: x in rest ==> x in es;
    var i' := OneStepOn(s, e, p, i);
    k := 0;
    if Held(Step(s, e).gate, o) == 0 {
      StepInv(s, e);
      k := BoundedWaiting(Step(s, e), rest, p, i');
    }
    OneLater(s, es, k, o);
    k := k + 1;
  }

  lemma FirstRelease(es: seq<Event>)
    requires es != []
    ensures Releases(es) == Releases([es[0]]) + Releases(es[1..])
  {
    assert [es[0]][1..] == [];
  }

  // ---------------------------------------------------------------- first in, first out within one owner

  /** q left the queue without being served. */
  predicate GaveUp(s: Sys, q: nat) {
    q in s.callers && s.callers[q].stage == Finished && !s.callers[q].done
  }

  ghost predicate AheadAt(s: Sys, p: nat, i: nat, q: nat) {
    WaitsAt(s, p, i) && (GaveUp(s, q) || exists j :: i < j && WaitsAt(s, q, j))
  }

  /** p is served already, or p waits and q waits behind it or has given up. */
  ghost predicate Precedes(s: Sys, p: nat, q: nat) {
    && p in s.callers && q in s.callers
    && s.callers[p].owner == s.callers[q].owner
    && (s.callers[p].done || exists i :: AheadAt(s, p, i, q))
  }

  /** Nobody changes owner, is unserved again, or comes back after giving up. */
  predicate OnlyForward(c: Caller, d: Caller) {
    && d.owner == c.owner
    && (c.done ==> d.done)
    && (c.stage == Finished && !c.done ==> d.stage == Finished && !d.done)
  }

  lemma DoneStaysOnRelease(s: Sys, r: nat, p: nat)
    requires Inv(s) && Enabled(s, GiveBack(r)) && p in s.callers
    ensures p in Step(s, GiveBack(r)).callers && OnlyForward(s.callers[p], Step(s, GiveBack(r)).callers[p])
  {
    GiveBackStep(s, r);
  }

  lemma DoneStays(s: Sys, e: Event, p: nat)
    requires Inv(s) && Enabled(s, e) && p in s.callers
    ensures p in Step(s, e).callers && OnlyForward(s.callers[p], Step(s, e).callers[p])
  {
    if e.GiveBack? {
      DoneStaysOnRelease(s, e.p, p);
    }
  }

  /** A waiter behind another of the same owner is never the one picked. */
  lemma NotPickedBehind(g: Gate, i: nat, j: nat)
    requires i < j < |g.queue| && g.queue[i].owner == g.queue[j].owner
    ensures Pick(g) != j
  {
    assert Starving(g, g.queue[i]) == Starving(g, g.queue[j]);
  }

  /** The situation kept by AheadStep: p and q, of one owner, wait in this order. */
  predicate InOrder(s: Sys, p: nat, i: nat, q: nat, j: nat) {
    i < j && WaitsAt(s, p, i) && WaitsAt(s, q, j) && s.gate.queue[i].owner == s.gate.queue[j].owner
  }

  lemma AheadGiveBack(s: Sys, r: nat, p: nat, i: nat, q: nat, j: nat)
    requires Inv(s) && Enabled(s, GiveBack(r)) && InOrder(s, p, i, q, j)
    ensures Precedes(Step(s, GiveBack(r)), p, q)
  {
    GiveBackStep(s, r);
    NotPickedBehind(Freed(s, r).gate, i, j);
    var i' := GiveBackPosition(s, r, p, i);
    var j' := GiveBackPosition(s, r, q, j);
    if !Step(s, GiveBack(r)).callers[p].done {
      assert AheadAt(Step(s, GiveBack(r)), p, i', q);
    }
  }

  lemma AheadWaits(s: Sys, p: nat, i: nat, q: nat, j: nat)
    requires i < j && WaitsAt(s, p, i) && WaitsAt(s, q, j)
    ensures AheadAt(s, p, i, q)
  {
  }

  lemma AheadAbandon(s: Sys, r: nat, p: nat, i: nat, q: nat, j: nat)
    requires Inv(s) && Enabled(s, Abandon(r)) && r != p && InOrder(s, p, i, q, j)
    ensures exists i' :: AheadAt(Step(s, Abandon(r)), p, i', q)
  {
    var t := Step(s, Abandon(r));
    if s.callers[r].done {
      AheadWaits(t, p, i, q, j);
    } else {
      var k := Position(s.gate.queue, r);
      AbandonMoves(s, r, p, i, k);
      if r == q {
        assert GaveUp(t, q);
        assert AheadAt(t, p, Shifted(k, i), q);
      } else {
        AbandonMoves(s, r, q, j, k);
        AheadWaits(t, p, Shifted(k, i), q, Shifted(k, j));
      }
    }
  }

  lemma AheadStep(s: Sys, e: Event, p: nat, i: nat, q: nat, j: nat)
    requires Inv(s) && Enabled(s, e) && e != Abandon(p) && InOrder(s, p, i, q, j)
    ensures Precedes(Step(s, e), p, q)
  {
    if e.GiveBack? {
      AheadGiveBack(s, e.p, p, i, q, j);
    } else if e.Abandon? {
      AheadAbandon(s, e.p, p, i, q, j);
      DoneStays(s, e, p);
      DoneStays(s, e, q);
    } else {
      var t := Step(s, e);
      if e.Arrive? || e.Try? {
        FastPathExact(s, e.owner);
      }
      assert WaitsAt(t, p, i) && WaitsAt(t, q, j);
      assert AheadAt(t, p, i, q);
    }
  }

  lemma PrecedesStep(s: Sys, e: Event, p: nat, q: nat)
    requires Inv(s) && Enabled(s, e) && Precedes(s, p, q) && e != Abandon(p)
    ensures Precedes(Step(s, e), p, q)
  {
    var t := Step(s, e);
    DoneStays(s, e, p);
    DoneStays(s, e, q);
    if !s.callers[p].done {
      var i :| AheadAt(s, p, i, q);
      if GaveUp(s, q) {
        var i' := StepPosition(s, e, p, i);
        if !t.callers[p].done {
          assert AheadAt(t, p, i', q);
        }
      } else {
        var j :| i < j && WaitsAt(s, q, j);
        AheadStep(s, e, p, i, q, j);
      }
    }
  }

  lemma {:induction false} PrecedesRun(s: Sys, es: seq<Event>, p: nat, q: nat)
    requires Inv(s) && Possible(s, es) && Precedes(s, p, q) && Abandon(p) !in es
    ensures Precedes(Run(s, es), p, q)
    decreases |es|
  {
    if es != [] {
      PrecedesStep(s, es[0], p, q);
      StepInv(s, es[0]);
      PrecedesRun(Step(s, es[0]), es[1..], p, q);
    }
  }

  /** FIFO within one owner, over every run: a waiter is never served before one
      of the same owner that queued ahead of it and did not give up. */
  lemma FifoWithinOwner(s: Sys, es: seq<Event>, i: nat, j: nat)
    requires Inv(s) && Possible(s, es) && i < j < |s.gate.queue|
    requires s.gate.queue[i].owner == s.gate.queue[j].owner
    requires Abandon(s.gate.queue[i].caller) !in es
    ensures var p, q := s.gate.queue[i].caller, s.gate.queue[j].caller;
            var t := Run(s, es);
            p in t.callers && q in t.callers && (t.callers[q].done ==> t.callers[p].done)
  {
    var p, q := s.gate.queue[i].caller, s.gate.queue[j].caller;
    assert WaitsAt(s, q, j);
    assert AheadAt(s, p, i, q);
    PrecedesRun(s, es, p, q);
    var t := Run(s, es);
    RunInv(s, es);
    assert forall k :: WaitsAt(t, q, k) ==> Queued(t.callers[q]);
  }
}
