/** The fair semaphore as the source writes it (pkg/concurrent/fair_semaphore.go):
    a map, a counter and a queue of waiters, updated in place.  Each method is
    one critical section, proved to do to its Snapshot exactly what FairGate
    says; FairRuns then interleaves those sections. */
module FairSemaphores {
  import opened FairGate

  /** One blocked call.  closed stands for its ready channel, which may be closed
      only once. */
  class FairWaiter {
    const owner: Owner
    ghost const caller: nat
    var done: bool
    var closed: bool

    constructor (owner: Owner, ghost caller: nat)
      ensures this.owner == owner && this.caller == caller && !done && !closed
    {
      this.owner := owner;
      this.caller := caller;
      done := false;
      closed := false;
    }

    method CloseReady()
      requires !closed
      modifies this`closed
      ensures closed
    {
      closed := true;
    }
  }

  ghost function Tickets(queue: seq<FairWaiter>): (ws: seq<Waiter>)
    ensures |ws| == |queue|
    ensures forall i :: 0 <= i < |ws| ==> ws[i] == Waiter(queue[i].caller, queue[i].owner)
  {
    seq(|queue|, i requires 0 <= i < |queue| => Waiter(queue[i].caller, queue[i].owner))
  }

  class FairSemaphore {
    const cap: nat
    var active: map<Owner, nat>
    var total: int
    var queue: seq<FairWaiter>

    ghost predicate Valid()
      reads this, queue
    {
      && (forall i :: 0 <= i < |queue| ==> !queue[i].done && !queue[i].closed)
      && (forall i, j :: 0 <= i < j < |queue| ==> queue[i].caller != queue[j].caller)
    }

    ghost function Snapshot(): Gate
      reads this
    {
      Gate(cap, active, total, Tickets(queue))
    }

    /** The source panics unless max is at least one. */
    constructor (max: nat)
      requires 1 <= max
      ensures Valid() && Snapshot() == Gate(max, map[], 0, [])
    {
      cap := max;
      active := map[];
      total := 0;
      queue := [];
    }

    function ActiveSlots(owner: Owner): nat
      reads this
    {
      if owner in active then active[owner] else 0
    }

    /** The scan of the fairness rule.  self never matters: a waiter of the same
        owner is not counted as starving in any case. */
    method AdmissibleLocked(owner: Owner, self: FairWaiter?) returns (ok: bool)
      requires Valid()
      requires self != null ==> self.owner == owner
      ensures ok == Admissible(Snapshot(), owner)
    {
      if total >= cap {
        return false;
      }
      if ActiveSlots(owner) == 0 {
        return true;
      }
      for i := 0 to |queue|
        invariant forall j :: 0 <= j < i ==> queue[j].owner == owner || 0 < ActiveSlots(queue[j].owner)
      {
        var q := queue[i];
        if q == self || q.done {
          continue;
        }
        if q.owner != owner && ActiveSlots(q.owner) == 0 {
          assert Snapshot().queue[i].owner != owner && Starving(Snapshot(), Snapshot().queue[i]);
          return false;
        }
      }
      return true;
    }

    method ActivateLocked(owner: Owner)
      modifies this`active, this`total
      ensures Snapshot() == Activate(old(Snapshot()), owner)
    {
      active := active[owner := ActiveSlots(owner) + 1];
      total := total + 1;
    }

    /** The critical section of an arriving AcquireCtx: null when it got a slot. */
    method Enter(owner: Owner, ghost caller: nat) returns (w: FairWaiter?)
      requires Valid()
      requires forall q :: q in queue ==> q.caller != caller
      modifies this
      ensures Valid()
      ensures w == null <==> old(Admissible(Snapshot(), owner))
      ensures w == null ==> Snapshot() == Activate(old(Snapshot()), owner) && queue == old(queue)
      ensures w != null ==> fresh(w) && w.owner == owner && w.caller == caller && !w.done && !w.closed
      ensures w != null ==> queue == old(queue) + [w] && Snapshot() == Enqueue(old(Snapshot()), Waiter(caller, owner))
    {
      var ok := AdmissibleLocked(owner, null);
      if ok {
        ActivateLocked(owner);
        return null;
      }
      w := new FairWaiter(owner, caller);
      queue := queue + [w];
    }

    method TryAcquire(owner: Owner) returns (ok: bool)
      requires Valid()
      modifies this`active, this`total
      ensures Valid()
      ensures ok == old(Admissible(Snapshot(), owner))
      ensures Snapshot() == if ok then Activate(old(Snapshot()), owner) else old(Snapshot())
    {
      ok := AdmissibleLocked(owner, null);
      if ok {
        ActivateLocked(owner);
      }
    }

    method RemoveWaiterLocked(target: FairWaiter)
      requires Valid() && target in queue
      modifies this`queue
      ensures Valid() && target !in queue
      ensures forall q :: q in queue ==> q in old(queue)
      ensures Snapshot() == Remove(old(Snapshot()), target.caller)
    {
      for i := 0 to |queue|
        invariant forall j :: 0 <= j < i ==> queue[j] != target
      {
        if queue[i] == target {
          RemovedAt(queue, i);
          queue := queue[..i] + queue[i + 1..];
          return;
        }
      }
      assert false;
    }

    static lemma RemovedAt(queue: seq<FairWaiter>, i: nat)
      requires i < |queue|
      requires forall j, k :: 0 <= j < k < |queue| ==> queue[j].caller != queue[k].caller
      ensures Position(Tickets(queue), queue[i].caller) == i
      ensures Tickets(queue[..i] + queue[i + 1..]) == Without(Tickets(queue), i)
      ensures queue[i] !in queue[..i] + queue[i + 1..]
    {
      assert Tickets(queue)[i].caller == queue[i].caller;
    }

    /** The critical section of a cancelled waiter: true when the slot was handed
        over first, so that the caller must give it back. */
    method Abandon(w: FairWaiter) returns (handed: bool)
      requires Valid() && (!w.done ==> w in queue)
      modifies this`queue
      ensures Valid() && handed == w.done
      ensures Snapshot() == if handed then old(Snapshot()) else Remove(old(Snapshot()), w.caller)
      ensures !handed ==> w !in queue
    {
      if w.done {
        return true;
      }
      RemoveWaiterLocked(w);
      return false;
    }

    /** Served waiters left the queue with their flag set and their channel
        closed; the others are untouched. */
    twostate predicate ServedFrom(before: seq<FairWaiter>)
      reads this, before
    {
      && (forall w :: w in queue ==> w in before)
      && (forall w :: w in before && w !in queue ==> w.done && w.closed)
    }

    method DrainLocked()
      requires Valid()
      modifies this`active, this`total, this`queue, queue
      ensures Valid() && ServedFrom(old(queue))
      ensures Snapshot() == Drain(old(Snapshot())).gate
    {
      while true
        invariant Valid() && ServedFrom(old(queue))
        invariant Drain(Snapshot()).gate == Drain(old(Snapshot())).gate
        decreases |queue|
      {
        var admitted := ServeFirst();
        if !admitted {
          return;
        }
      }
    }

    /** Hand a slot to the waiter at index i. */
    method HandOver(i: nat)
      requires Valid() && i < |queue|
      modifies this`active, this`total, this`queue, queue[i]
      ensures Valid() && queue == old(queue)[..i] + old(queue)[i + 1..]
      ensures old(queue)[i] !in queue && old(queue)[i].done && old(queue)[i].closed
      ensures Snapshot() == Activate(old(Snapshot()).(queue := Without(old(Snapshot()).queue, i)), old(queue)[i].owner)
    {
      ghost var g := Snapshot();
      var w := queue[i];
      queue := queue[..i] + queue[i + 1..];
      RemovedAt(old(queue), i);
      w.done := true;
      ActivateLocked(w.owner);
      w.CloseReady();
    }

    /** One pass of the drain: admit the first admissible waiter, if there is one. */
    method ServeFirst() returns (admitted: bool)
      requires Valid()
      modifies this`active, this`total, this`queue, queue
      ensures Valid() && ServedFrom(old(queue))
      ensures admitted == (old(total < cap) && old(queue) != [])
      ensures Snapshot() == if admitted then Serve(old(Snapshot())) else old(Snapshot())
      ensures admitted ==> |queue| < |old(queue)|
      ensures !admitted ==> queue == old(queue)
    {
      ghost var g := Snapshot();
      for i := 0 to |queue|
        invariant Snapshot() == g && Valid() && queue == old(queue)
        invariant forall j :: 0 <= j < i ==> !Admissible(g, g.queue[j].owner)
      {
        var w := queue[i];
        var ok := AdmissibleLocked(w.owner, w);
        if w.done || !ok {
          continue;
        }
        PickIsFirstAdmissible(g, i);
        HandOver(i);
        return true;
      }
      if g.total < g.cap && g.queue != [] {
        PickIsAdmissible(g);
        assert false;
      }
      return false;
    }

    method Release(owner: Owner)
      requires Valid()
      modifies this`active, this`total, this`queue, queue
      ensures Valid() && ServedFrom(old(queue))
      ensures Snapshot() == FairGate.Release(old(Snapshot()), owner).gate
    {
      if ActiveSlots(owner) > 0 {
        active := active[owner := active[owner] - 1];
        total := total - 1;
        if active[owner] == 0 {
          active := active - {owner};
        }
      }
      assert Snapshot() == Deactivate(old(Snapshot()), owner);
      DrainLocked();
    }
  }
}
