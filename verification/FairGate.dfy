/** The fair semaphore as a value (pkg/concurrent/fair_semaphore.go): its state,
    the admission rule and what each critical section does to the state. */
module FairGate {

  /** The competing work unit; the empty name is a shared identity like any other. */
  datatype Owner = Owner(name: string)

  /** One blocked AcquireCtx call. */
  datatype Waiter = Waiter(caller: nat, owner: Owner)

  datatype Gate = Gate(cap: nat, active: map<Owner, nat>, total: int, queue: seq<Waiter>)

  /** What a drain leaves behind and whom it served, in order. */
  datatype Drained = Drained(gate: Gate, served: seq<Waiter>)

  function Held(g: Gate, o: Owner): nat {
    if o in g.active then g.active[o] else 0
  }

  predicate Starving(g: Gate, w: Waiter) {
    Held(g, w.owner) == 0
  }

  /** The fairness rule: a free slot goes to an owner that holds nothing, or to
      any owner while no OTHER owner waits with nothing. */
  predicate Admissible(g: Gate, o: Owner) {
    && g.total < g.cap
    && (|| Held(g, o) == 0
        || forall i :: 0 <= i < |g.queue| ==> g.queue[i].owner == o || !Starving(g, g.queue[i]))
  }

  function Activate(g: Gate, o: Owner): Gate {
    g.(active := g.active[o := Held(g, o) + 1], total := g.total + 1)
  }

  /** Give one slot of o back; an owner without slots leaves the map. */
  function Deactivate(g: Gate, o: Owner): Gate {
    if Held(g, o) == 0 then g
    else if Held(g, o) == 1 then g.(active := g.active - {o}, total := g.total - 1)
    else g.(active := g.active[o := Held(g, o) - 1], total := g.total - 1)
  }

  function Enqueue(g: Gate, w: Waiter): Gate {
    g.(queue := g.queue + [w])
  }

  function Without(queue: seq<Waiter>, i: nat): (r: seq<Waiter>)
    requires i < |queue|
    ensures |r| == |queue| - 1
  {
    queue[..i] + queue[i + 1..]
  }

  /** Where a caller waits; the length of the queue if it does not. */
  function Position(queue: seq<Waiter>, caller: nat): (i: nat)
    ensures i <= |queue|
    ensures i < |queue| ==> queue[i].caller == caller
    ensures forall j :: 0 <= j < i ==> queue[j].caller != caller
  {
    if queue == [] || queue[0].caller == caller then 0
    else
      var i := Position(queue[1..], caller);
      assert forall j :: 1 <= j < i + 1 ==> queue[j] == queue[1..][j - 1];
      i + 1
  }

  function Remove(g: Gate, caller: nat): Gate {
    var i := Position(g.queue, caller);
    if i == |g.queue| then g else g.(queue := Without(g.queue, i))
  }

  /** The first starving waiter, or the length of the queue. */
  function FirstStarving(g: Gate, queue: seq<Waiter>): (i: nat)
    ensures i <= |queue|
    ensures i < |queue| ==> Starving(g, queue[i])
    ensures forall j :: 0 <= j < i ==> !Starving(g, queue[j])
  {
    if queue == [] || Starving(g, queue[0]) then 0
    else
      var i := FirstStarving(g, queue[1..]);
      assert forall j :: 1 <= j < i + 1 ==> queue[j] == queue[1..][j - 1];
      i + 1
  }

  /** Who gets a free slot: the earliest starving waiter, or else the earliest. */
  function Pick(g: Gate): (i: nat)
    requires g.queue != []
    ensures i < |g.queue|
  {
    var i := FirstStarving(g, g.queue);
    if i < |g.queue| then i else 0
  }

  /** Hand one slot over. */
  function Serve(g: Gate): (r: Gate)
    requires g.queue != []
    ensures |r.queue| == |g.queue| - 1
  {
    var i := Pick(g);
    Activate(g.(queue := Without(g.queue, i)), g.queue[i].owner)
  }

  /** Hand over every free slot somebody waits for. */
  function Drain(g: Gate): (d: Drained)
    decreases |g.queue|
  {
    if g.total < g.cap && g.queue != [] then
      var rest := Drain(Serve(g));
      Drained(rest.gate, [g.queue[Pick(g)]] + rest.served)
    else Drained(g, [])
  }

  function Release(g: Gate, o: Owner): Drained {
    Drain(Deactivate(g, o))
  }

  // ---------------------------------------------------------------- the scan in the source

  /** drainLocked admits the first waiter the fairness rule admits.  That is
      exactly the two-line choice above, in every state with a free slot. */
  lemma PickIsFirstAdmissible(g: Gate, i: nat)
    requires g.total < g.cap && i < |g.queue|
    requires Admissible(g, g.queue[i].owner)
    requires forall j :: 0 <= j < i ==> !Admissible(g, g.queue[j].owner)
    ensures i == Pick(g)
  {
    var f := FirstStarving(g, g.queue);
    if f < |g.queue| {
      assert Admissible(g, g.queue[f].owner);
    } else {
      assert forall k :: 0 <= k < |g.queue| ==> !Starving(g, g.queue[k]);
      assert Admissible(g, g.queue[0].owner);
    }
  }

  /** With a free slot and anyone waiting, the scan finds somebody. */
  lemma PickIsAdmissible(g: Gate)
    requires g.total < g.cap && g.queue != []
    ensures Admissible(g, g.queue[Pick(g)].owner)
  {}

  // ---------------------------------------------------------------- accounting

  ghost function SumValues(m: map<Owner, nat>): nat
    decreases |m|
  {
    if m == map[] then 0
    else
      var o :| o in m;
      m[o] + SumValues(m - {o})
  }

  lemma {:induction false} SumWithout(m: map<Owner, nat>, o: Owner)
    requires o in m
    ensures SumValues(m) == m[o] + SumValues(m - {o})
    decreases |m|
  {
    var k :| k in m && SumValues(m) == m[k] + SumValues(m - {k});
    if k != o {
      SumWithout(m - {k}, o);
      SumWithout(m - {o}, k);
      assert m - {k} - {o} == m - {o} - {k};
    }
  }

  lemma SumWith(m: map<Owner, nat>, o: Owner, v: nat)
    requires o !in m
    ensures SumValues(m[o := v]) == SumValues(m) + v
  {
    SumWithout(m[o := v], o);
    assert m[o := v] - {o} == m;
  }

  /** The counters agree: total is the sum of the active slots, no owner is
      listed with none, and the capacity is respected. */
  ghost predicate Balanced(g: Gate) {
    && g.total == SumValues(g.active)
    && g.total <= g.cap
    && forall o :: o in g.active ==> 0 < g.active[o]
  }

  lemma ActivateBalanced(g: Gate, o: Owner)
    requires Balanced(g) && g.total < g.cap
    ensures Balanced(Activate(g, o))
    ensures forall p :: Held(Activate(g, o), p) == Held(g, p) + if p == o then 1 else 0
  {
    if o in g.active {
      SumWithout(g.active, o);
      var rest := g.active - {o};
      assert g.active[o := g.active[o] + 1] == rest[o := g.active[o] + 1];
      SumWith(rest, o, g.active[o] + 1);
    } else {
      SumWith(g.active, o, 1);
    }
  }

  lemma DeactivateBalanced(g: Gate, o: Owner)
    requires Balanced(g)
    ensures Balanced(Deactivate(g, o))
    ensures 0 < Held(g, o) ==> 0 < g.total && Deactivate(g, o).total == g.total - 1
    ensures forall p :: Held(Deactivate(g, o), p) == if p == o && 0 < Held(g, o) then Held(g, o) - 1 else Held(g, p)
  {
    if o in g.active {
      SumWithout(g.active, o);
      if g.active[o] > 1 {
        var rest := g.active - {o};
        assert g.active[o := g.active[o] - 1] == rest[o := g.active[o] - 1];
        SumWith(rest, o, (g.active[o] - 1) as nat);
      }
    }
  }

  /** Every operation keeps the books, from any balanced state. */
  lemma {:induction false} DrainBalanced(g: Gate)
    requires Balanced(g)
    ensures Balanced(Drain(g).gate)
    ensures Drain(g).gate.queue == [] || Drain(g).gate.total == g.cap
    ensures Drain(g).gate.cap == g.cap
    decreases |g.queue|
  {
    if g.total < g.cap && g.queue != [] {
      var i := Pick(g);
      ActivateBalanced(g.(queue := Without(g.queue, i)), g.queue[i].owner);
      DrainBalanced(Serve(g));
    }
  }
}
