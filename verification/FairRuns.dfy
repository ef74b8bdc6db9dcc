/** Every interleaving of callers on one fair semaphore
    (pkg/concurrent/fair_semaphore.go).  Each critical section is one atomic
    step; between sections a caller is in one of five stages, and cancellation
    races the hand-over in both places the source handles. */
module FairRuns {
  import opened FairGate

  /** Blocked: in the select of AcquireCtx.  Cancelling: the select took
      ctx.Done, the lock is not taken yet.  Returning: the slot was handed over
      to a cancelled caller, who is about to give it back. */
  datatype Stage = Blocked | Cancelling | Holding | Returning | Finished

  /** done mirrors the waiter's flag; closes counts the closings of its ready channel. */
  datatype Caller = Caller(owner: Owner, stage: Stage, done: bool, closes: nat)

  datatype Sys = Sys(gate: Gate, callers: map<nat, Caller>)

  datatype Event =
    | Arrive(p: nat, owner: Owner)
    | Try(p: nat, owner: Owner)
    | Wake(p: nat, cancelled: bool)
    | SeeCancel(p: nat)
    | Abandon(p: nat)
    | GiveBack(p: nat)

  function Init(cap: nat): Sys {
    Sys(Gate(cap, map[], 0, []), map[])
  }

  predicate Enabled(s: Sys, e: Event) {
    match e
    case Arrive(p, _) => p !in s.callers
    case Try(p, _) => p !in s.callers
    case Wake(p, _) => p in s.callers && s.callers[p].stage == Blocked && s.callers[p].done
    case SeeCancel(p) => p in s.callers && s.callers[p].stage == Blocked
    case Abandon(p) => p in s.callers && s.callers[p].stage == Cancelling
    case GiveBack(p) => p in s.callers && (s.callers[p].stage == Holding || s.callers[p].stage == Returning)
  }

  /** The waiter's flag is set and its channel closed. */
  function HandedTo(callers: map<nat, Caller>, p: nat): (r: map<nat, Caller>)
    requires p in callers
    ensures r.Keys == callers.Keys
  {
    callers[p := callers[p].(done := true, closes := callers[p].closes + 1)]
  }

  /** Mark the served waiters done and close their ready channels. */
  function Mark(callers: map<nat, Caller>, served: seq<Waiter>): (r: map<nat, Caller>)
    ensures r.Keys == callers.Keys
  {
    if served == [] then callers
    else
      var p := served[0].caller;
      var now :=
        if p in callers then HandedTo(callers, p) else callers;
      Mark(now, served[1..])
  }

  function Step(s: Sys, e: Event): Sys
    requires Enabled(s, e)
  {
    match e
    case Arrive(p, o) =>
      if Admissible(s.gate, o) then
        Sys(Activate(s.gate, o), s.callers[p := Caller(o, Holding, false, 0)])
      else
        Sys(Enqueue(s.gate, Waiter(p, o)), s.callers[p := Caller(o, Blocked, false, 0)])
    case Try(p, o) =>
      if Admissible(s.gate, o) then
        Sys(Activate(s.gate, o), s.callers[p := Caller(o, Holding, false, 0)])
      else s
    case Wake(p, cancelled) =>
      s.(callers := s.callers[p := s.callers[p].(stage := if cancelled then Returning else Holding)])
    case SeeCancel(p) =>
      s.(callers := s.callers[p := s.callers[p].(stage := Cancelling)])
    case Abandon(p) =>
      if s.callers[p].done then
        s.(callers := s.callers[p := s.callers[p].(stage := Returning)])
      else
        Sys(Remove(s.gate, p), s.callers[p := s.callers[p].(stage := Finished)])
    case GiveBack(p) =>
      var d := Release(s.gate, s.callers[p].owner);
      Sys(d.gate, Mark(s.callers[p := s.callers[p].(stage := Finished)], d.served))
  }

  predicate Possible(s: Sys, es: seq<Event>)
    decreases |es|
  {
    es == [] || (Enabled(s, es[0]) && Possible(Step(s, es[0]), es[1..]))
  }

  function Run(s: Sys, es: seq<Event>): Sys
    requires Possible(s, es)
    decreases |es|
  {
    if es == [] then s else Run(Step(s, es[0]), es[1..])
  }

  // ---------------------------------------------------------------- the invariant

  /** A caller accounts for a slot from the hand-over until it gives it back. */
  predicate HasSlot(c: Caller) {
    || c.stage == Holding
    || c.stage == Returning
    || ((c.stage == Blocked || c.stage == Cancelling) && c.done)
  }

  ghost function Holders(s: Sys, o: Owner): set<nat> {
    set p | p in s.callers && HasSlot(s.callers[p]) && s.callers[p].owner == o
  }

  ghost function AllHolders(s: Sys): set<nat> {
    set p | p in s.callers && HasSlot(s.callers[p])
  }

  predicate Queued(c: Caller) {
    (c.stage == Blocked || c.stage == Cancelling) && !c.done
  }

  ghost predicate QueueMatches(s: Sys) {
    && (forall i :: 0 <= i < |s.gate.queue| ==>
          && s.gate.queue[i].caller in s.callers
          && Queued(s.callers[s.gate.queue[i].caller])
          && s.callers[s.gate.queue[i].caller].owner == s.gate.queue[i].owner)
    && (forall i, j :: 0 <= i < j < |s.gate.queue| ==> s.gate.queue[i].caller != s.gate.queue[j].caller)
    && (forall p :: p in s.callers && Queued(s.callers[p]) ==> Waiter(p, s.callers[p].owner) in s.gate.queue)
  }

  ghost predicate SlotsMatch(s: Sys) {
    && Balanced(s.gate)
    && s.gate.total == |AllHolders(s)|
    && forall o :: Held(s.gate, o) == |Holders(s, o)|
  }

  /** Nobody waits while a slot is free: the property that makes it safe for a
      cancelled waiter to leave without draining. */
  predicate WorkConserving(s: Sys) {
    s.gate.queue != [] ==> s.gate.total == s.gate.cap
  }

  ghost predicate ClosedOnce(s: Sys) {
    forall p :: p in s.callers ==> s.callers[p].closes == if s.callers[p].done then 1 else 0
  }

  ghost predicate Inv(s: Sys) {
    && 1 <= s.gate.cap
    && QueueMatches(s)
    && SlotsMatch(s)
    && WorkConserving(s)
    && ClosedOnce(s)
  }

  lemma InitInv(cap: nat)
    requires 1 <= cap
    ensures Inv(Init(cap))
  {
    var s := Init(cap);
    assert AllHolders(s) == {};
    forall o
      ensures Held(s.gate, o) == |Holders(s, o)|
    {
      assert Holders(s, o) == {};
    }
  }

  // ---------------------------------------------------------------- slots

  /** A caller that gains a slot. */
  lemma GainSlot(s: Sys, t: Sys, p: nat)
    requires SlotsMatch(s) && s.gate.total < s.gate.cap
    requires p in t.callers && HasSlot(t.callers[p])
    requires p in s.callers ==> !HasSlot(s.callers[p])
    requires OnlySlotOf(s, t, p)
    requires t.gate.active == Activate(s.gate, t.callers[p].owner).active
    requires t.gate.total == s.gate.total + 1 && t.gate.cap == s.gate.cap
    ensures SlotsMatch(t)
  {
    var o := t.callers[p].owner;
    ActivateBalanced(s.gate, o);
    GainAllHolders(s, t, p);
    forall o'
      ensures Held(t.gate, o') == |Holders(t, o')|
    {
      GainHolders(s, t, p, o');
      assert Held(t.gate, o') == Held(Activate(s.gate, o), o');
    }
  }

  ghost predicate OnlySlotOf(s: Sys, t: Sys, p: nat) {
    && (forall q :: q in t.callers <==> q in s.callers || q == p)
    && (forall q :: q in s.callers && q != p ==>
          HasSlot(s.callers[q]) == HasSlot(t.callers[q]) && s.callers[q].owner == t.callers[q].owner)
  }

  lemma GainHolders(s: Sys, t: Sys, p: nat, o: Owner)
    requires OnlySlotOf(s, t, p)
    requires p in t.callers && HasSlot(t.callers[p])
    requires p in s.callers ==> !HasSlot(s.callers[p])
    ensures |Holders(t, o)| == |Holders(s, o)| + if o == t.callers[p].owner then 1 else 0
  {
    var before, after := Holders(s, o), Holders(t, o);
    forall q
      ensures q in after <==> q in before || (q == p && o == t.callers[p].owner)
    {}
    assert p !in before;
    if o == t.callers[p].owner {
      assert after == before + {p};
    } else {
      assert after == before;
    }
  }

  lemma GainAllHolders(s: Sys, t: Sys, p: nat)
    requires OnlySlotOf(s, t, p)
    requires p in t.callers && HasSlot(t.callers[p])
    requires p in s.callers ==> !HasSlot(s.callers[p])
    ensures |AllHolders(t)| == |AllHolders(s)| + 1
  {
    assert AllHolders(t) == AllHolders(s) + {p};
  }

  /** A caller that gives its slot back. */
  lemma LoseSlot(s: Sys, t: Sys, p: nat)
    requires SlotsMatch(s)
    requires p in s.callers && HasSlot(s.callers[p])
    requires t.callers == s.callers[p := s.callers[p].(stage := Finished)]
    requires t.gate == Deactivate(s.gate, s.callers[p].owner)
    ensures SlotsMatch(t) && t.gate.total == s.gate.total - 1
  {
    var o := s.callers[p].owner;
    assert p in Holders(s, o);
    assert 0 < |Holders(s, o)|;
    DeactivateBalanced(s.gate, o);
    assert AllHolders(t) == AllHolders(s) - {p};
    forall o'
      ensures Held(t.gate, o') == |Holders(t, o')|
    {
      if o' == o {
        assert Holders(t, o) == Holders(s, o) - {p};
      } else {
        assert Holders(t, o') == Holders(s, o');
      }
    }
  }

  /** Moving between stages without gaining or losing a slot. */
  lemma KeepSlots(s: Sys, t: Sys)
    requires SlotsMatch(s)
    requires t.gate.active == s.gate.active && t.gate.total == s.gate.total && t.gate.cap == s.gate.cap
    requires s.callers.Keys <= t.callers.Keys
    requires forall q :: q in t.callers && q !in s.callers ==> !HasSlot(t.callers[q])
    requires forall q :: q in s.callers ==>
               HasSlot(s.callers[q]) == HasSlot(t.callers[q]) && s.callers[q].owner == t.callers[q].owner
    ensures SlotsMatch(t)
  {
    assert AllHolders(t) == AllHolders(s);
    forall o
      ensures Held(t.gate, o) == |Holders(t, o)|
    {
      assert Holders(t, o) == Holders(s, o);
    }
  }

  // ---------------------------------------------------------------- each step keeps the invariant

  /** In a reachable state the fast path admits exactly when a slot is free, and
      then nobody is waiting: no arrival overtakes the queue. */
  lemma FastPathExact(s: Sys, o: Owner)
    requires WorkConserving(s)
    ensures Admissible(s.gate, o) <==> s.gate.total < s.gate.cap
    ensures Admissible(s.gate, o) ==> s.gate.queue == []
  {}

  lemma ArriveInv(s: Sys, p: nat, o: Owner)
    requires Inv(s) && p !in s.callers
    ensures Inv(Step(s, Arrive(p, o)))
  {
    var t := Step(s, Arrive(p, o));
    if Admissible(s.gate, o) {
      GainSlot(s, t, p);
    } else {
      KeepSlots(s, t);
      EnqueueMatches(s, p, o);
    }
  }

  lemma EnqueueMatches(s: Sys, p: nat, o: Owner)
    requires Inv(s) && p !in s.callers && !Admissible(s.gate, o)
    ensures QueueMatches(Step(s, Arrive(p, o)))
  {
    var t, w := Step(s, Arrive(p, o)), Waiter(p, o);
    assert t.gate.queue == s.gate.queue + [w];
    assert t.gate.queue[|s.gate.queue|] == w;
    forall q | q in t.callers && Queued(t.callers[q])
      ensures Waiter(q, t.callers[q].owner) in t.gate.queue
    {
      if q != p {
        assert Waiter(q, s.callers[q].owner) in s.gate.queue;
      }
    }
  }

  lemma TryInv(s: Sys, p: nat, o: Owner)
    requires Inv(s) && p !in s.callers
    ensures Inv(Step(s, Try(p, o)))
  {
    if Admissible(s.gate, o) {
      GainSlot(s, Step(s, Try(p, o)), p);
    }
  }

  /** A step that changes only the stage of a caller. */
  lemma StageInv(s: Sys, p: nat, stage: Stage)
    requires Inv(s) && p in s.callers && stage != Finished
    requires HasSlot(s.callers[p]) == HasSlot(s.callers[p].(stage := stage))
    requires Queued(s.callers[p]) == Queued(s.callers[p].(stage := stage))
    ensures Inv(s.(callers := s.callers[p := s.callers[p].(stage := stage)]))
  {
    KeepSlots(s, s.(callers := s.callers[p := s.callers[p].(stage := stage)]));
  }

  lemma WithoutKeeps(queue: seq<Waiter>, i: nat)
    requires i < |queue|
    ensures forall j :: 0 <= j < i ==> Without(queue, i)[j] == queue[j]
    ensures forall j :: i <= j < |queue| - 1 ==> Without(queue, i)[j] == queue[j + 1]
    ensures forall w :: w in queue && w != queue[i] ==> w in Without(queue, i)
  {
    forall w | w in queue && w != queue[i]
      ensures w in Without(queue, i)
    {
      var j :| 0 <= j < |queue| && queue[j] == w;
      assert Without(queue, i)[if j < i then j else j - 1] == w;
    }
  }

  lemma RemoveQueue(s: Sys, t: Sys, i: nat)
    requires QueueMatches(s) && i < |s.gate.queue| && t.gate.queue == Without(s.gate.queue, i)
    requires var p := s.gate.queue[i].caller;
             t.callers == s.callers[p := s.callers[p].(stage := Finished)]
    ensures QueueMatches(t)
  {
    WithoutKeeps(s.gate.queue, i);
  }

  /** A cancelled waiter leaves the queue.  No slot became free, so nobody else
      could have been admitted instead. */
  lemma AbandonInv(s: Sys, p: nat)
    requires Inv(s) && Enabled(s, Abandon(p))
    ensures Inv(Step(s, Abandon(p)))
  {
    var c := s.callers[p];
    if c.done {
      StageInv(s, p, Returning);
    } else {
      var t := Step(s, Abandon(p));
      var i := Position(s.gate.queue, p);
      assert Waiter(p, c.owner) in s.gate.queue;
      assert i < |s.gate.queue| && s.gate.queue[i] == Waiter(p, c.owner);
      RemoveQueue(s, t, i);
      KeepSlots(s, t);
    }
  }

  /** In a reachable state a release frees one slot and, if anyone waits, hands
      exactly that slot to the waiter Pick chooses. */
  lemma ReleaseReachable(g: Gate, o: Owner)
    requires Balanced(g) && 0 < Held(g, o)
    requires g.queue != [] ==> g.total == g.cap
    ensures var d := Deactivate(g, o);
            Release(g, o) == if g.queue == [] then Drained(d, []) else Drained(Serve(d), [g.queue[Pick(d)]])
  {
    var d := Deactivate(g, o);
    DeactivateBalanced(g, o);
    if g.queue != [] {
      assert Serve(d).total == d.cap;
      assert Drain(Serve(d)) == Drained(Serve(d), []);
    }
  }

  /** The state between giving the slot back and handing it on. */
  ghost function Freed(s: Sys, p: nat): Sys
    requires p in s.callers
  {
    Sys(Deactivate(s.gate, s.callers[p].owner), s.callers[p := s.callers[p].(stage := Finished)])
  }

  lemma FreedInv(s: Sys, p: nat)
    requires Inv(s) && Enabled(s, GiveBack(p))
    ensures var f := Freed(s, p);
            && SlotsMatch(f) && QueueMatches(f) && ClosedOnce(f)
            && f.gate.total == s.gate.total - 1 && f.gate.queue == s.gate.queue && f.gate.cap == s.gate.cap
    ensures 0 < Held(s.gate, s.callers[p].owner)
  {
    LoseSlot(s, Freed(s, p), p);
    assert p in Holders(s, s.callers[p].owner);
    assert 0 < |Holders(s, s.callers[p].owner)| == Held(s.gate, s.callers[p].owner);
  }

  lemma MarkOne(callers: map<nat, Caller>, w: Waiter)
    requires w.caller in callers
    ensures Mark(callers, [w])
         == HandedTo(callers, w.caller)
  {
    assert [w][1..] == [];
  }

  lemma GiveBackStep(s: Sys, p: nat)
    requires Inv(s) && Enabled(s, GiveBack(p))
    ensures var f := Freed(s, p);
            && SlotsMatch(f) && QueueMatches(f) && ClosedOnce(f)
            && f.gate.total == s.gate.total - 1 && f.gate.queue == s.gate.queue && f.gate.cap == s.gate.cap
            && (s.gate.queue == [] ==> Step(s, GiveBack(p)) == f)
            && (s.gate.queue != [] ==>
                  var w := s.gate.queue[Pick(f.gate)];
                  && Step(s, GiveBack(p)).gate == Serve(f.gate)
                  && w.caller in f.callers
                  && Step(s, GiveBack(p)).callers
                       == HandedTo(f.callers, w.caller))
  {
    var f := Freed(s, p);
    FreedInv(s, p);
    ReleaseReachable(s.gate, s.callers[p].owner);
    if s.gate.queue != [] {
      var w := s.gate.queue[Pick(f.gate)];
      assert w in s.gate.queue;
      MarkOne(f.callers, w);
    }
  }

  lemma ServeInv(f: Sys, t: Sys, i: nat)
    requires 1 <= f.gate.cap && SlotsMatch(f) && QueueMatches(f) && ClosedOnce(f)
    requires f.gate.queue != [] && f.gate.total == f.gate.cap - 1 && i == Pick(f.gate)
    requires t.gate == Serve(f.gate)
    requires var p := f.gate.queue[i].caller;
             p in f.callers && t.callers == HandedTo(f.callers, p)
    ensures Inv(t)
  {
    ServeSlots(f, t, f.gate.queue[i]);
    ServeQueue(f, t, i);
  }

  lemma ServeSlots(f: Sys, t: Sys, w: Waiter)
    requires SlotsMatch(f) && f.gate.total < f.gate.cap
    requires w.caller in f.callers && Queued(f.callers[w.caller]) && f.callers[w.caller].owner == w.owner
    requires t.gate == Activate(f.gate.(queue := t.gate.queue), w.owner)
    requires t.callers == HandedTo(f.callers, w.caller)
    ensures SlotsMatch(t)
  {
    assert OnlySlotOf(f, t, w.caller);
    GainSlot(f, t, w.caller);
  }

  lemma ServeQueue(f: Sys, t: Sys, i: nat)
    requires QueueMatches(f) && i < |f.gate.queue|
    requires t.gate.queue == Without(f.gate.queue, i)
    requires var p := f.gate.queue[i].caller;
             p in f.callers && t.callers == HandedTo(f.callers, p)
    ensures QueueMatches(t)
  {
    WithoutKeeps(f.gate.queue, i);
  }

  lemma GiveBackInv(s: Sys, p: nat)
    requires Inv(s) && Enabled(s, GiveBack(p))
    ensures Inv(Step(s, GiveBack(p)))
  {
    var f, t := Freed(s, p), Step(s, GiveBack(p));
    GiveBackStep(s, p);
    if s.gate.queue != [] {
      ServeInv(f, t, Pick(f.gate));
    }
  }

  lemma StepInv(s: Sys, e: Event)
    requires Inv(s) && Enabled(s, e)
    ensures Inv(Step(s, e))
  {
    match e
    case Arrive(p, o) => ArriveInv(s, p, o);
    case Try(p, o) => TryInv(s, p, o);
    case Wake(p, cancelled) => StageInv(s, p, if cancelled then Returning else Holding);
    case SeeCancel(p) => StageInv(s, p, Cancelling);
    case Abandon(p) => AbandonInv(s, p);
    case GiveBack(p) => GiveBackInv(s, p);
  }

  lemma {:induction false} RunInv(s: Sys, es: seq<Event>)
    requires Inv(s) && Possible(s, es)
    ensures Inv(Run(s, es))
    decreases |es|
  {
    if es != [] {
      StepInv(s, es[0]);
      RunInv(Step(s, es[0]), es[1..]);
    }
  }
}
