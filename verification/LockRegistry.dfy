/** The keyed locker as a value (pkg/concurrent/keyedlocker.go), and every
    interleaving of callers on it.  Entries are objects that come and go under a
    key, so an entry has an identity of its own. */
module LockRegistry {
  import opened Wrappers

  datatype Key = Key(name: string)

  /** locked is the state of the entry's mutex. */
  datatype Entry = Entry(refs: int, locked: bool)

  /** locks is the registry; entries also keeps those no longer registered. */
  datatype Registry = Registry(locks: map<Key, nat>, entries: map<nat, Entry>, next: nat)

  // ---------------------------------------------------------------- the four sections of Lock

  /** The entry a caller of Lock(key) will use. */
  function EntryFor(r: Registry, key: Key): nat {
    if key in r.locks then r.locks[key] else r.next
  }

  /** Find or create the entry, and count the reference. */
  function Checkout(r: Registry, key: Key): Registry {
    if key !in r.locks then
      Registry(r.locks[key := r.next], r.entries[r.next := Entry(1, false)], r.next + 1)
    else if r.locks[key] in r.entries then
      var e := r.entries[r.locks[key]];
      r.(entries := r.entries[r.locks[key] := e.(refs := e.refs + 1)])
    else r
  }

  function SetLocked(r: Registry, id: nat, locked: bool): Registry
    requires id in r.entries
  {
    r.(entries := r.entries[id := r.entries[id].(locked := locked)])
  }

  /** Drop the reference; the last one deletes the KEY, whatever is stored there. */
  function Checkin(r: Registry, key: Key, id: nat): Registry
    requires id in r.entries
  {
    var e := r.entries[id];
    var counted := r.(entries := r.entries[id := e.(refs := e.refs - 1)]);
    if e.refs - 1 == 0 then counted.(locks := r.locks - {key}) else counted
  }

  // ---------------------------------------------------------------- interleavings

  /** Waiting: counted, blocked on the entry's mutex.  Leaving: the mutex is
      released, the reference not dropped yet. */
  datatype Phase = Waiting | Holding | Leaving

  datatype Caller = Caller(key: Key, entry: nat, phase: Phase)

  datatype Sys = Sys(reg: Registry, callers: map<nat, Caller>)

  datatype Event = Register(t: nat, key: Key) | Acquire(t: nat) | Unlock(t: nat) | Unregister(t: nat)

  const INIT := Sys(Registry(map[], map[], 0), map[])

  predicate Enabled(s: Sys, e: Event) {
    match e
    case Register(t, _) => t !in s.callers
    case Acquire(t) =>
      && t in s.callers && s.callers[t].phase == Waiting
      && s.callers[t].entry in s.reg.entries && !s.reg.entries[s.callers[t].entry].locked
    case Unlock(t) =>
      t in s.callers && s.callers[t].phase == Holding && s.callers[t].entry in s.reg.entries
    case Unregister(t) =>
      t in s.callers && s.callers[t].phase == Leaving && s.callers[t].entry in s.reg.entries
  }

  function Step(s: Sys, e: Event): Sys
    requires Enabled(s, e)
  {
    match e
    case Register(t, key) =>
      Sys(Checkout(s.reg, key), s.callers[t := Caller(key, EntryFor(s.reg, key), Waiting)])
    case Acquire(t) =>
      Sys(SetLocked(s.reg, s.callers[t].entry, true), s.callers[t := s.callers[t].(phase := Holding)])
    case Unlock(t) =>
      Sys(SetLocked(s.reg, s.callers[t].entry, false), s.callers[t := s.callers[t].(phase := Leaving)])
    case Unregister(t) =>
      Sys(Checkin(s.reg, s.callers[t].key, s.callers[t].entry), s.callers - {t})
  }

  predicate Possible(s: Sys, es: seq<Event>)
    decreases |es|
  {
    es == [] || (Enabled(s, es[0]) && Possible(Step(s, es[0]), es[1..]))
  }

  function Run(s: Sys, es: seq<Event>): Sys
    requires Possible(s, es)
    decreases |es|
  {
    if es == [] then s else Run(Step(s, es[0]), es[1..])
  }

  // ---------------------------------------------------------------- the invariant

  /** The callers that refer to an entry. */
  ghost function UsersIn(callers: map<nat, Caller>, id: nat): set<nat> {
    set t | t in callers && callers[t].entry == id
  }

  ghost function Users(s: Sys, id: nat): set<nat> {
    UsersIn(s.callers, id)
  }

  /** Every caller in flight uses the entry now registered under its key. */
  ghost predicate Shared(s: Sys) {
    forall t :: t in s.callers ==>
      s.callers[t].key in s.reg.locks && s.reg.locks[s.callers[t].key] == s.callers[t].entry
  }

  /** Different keys, different entries; identities are below next. */
  ghost predicate Identified(s: Sys) {
    && (forall k :: k in s.reg.locks ==> s.reg.locks[k] in s.reg.entries)
    && (forall k, l :: k in s.reg.locks && l in s.reg.locks && k != l ==> s.reg.locks[k] != s.reg.locks[l])
    && (forall id :: id in s.reg.entries ==> id < s.reg.next)
  }

  /** References are counted exactly, and a registered entry has some. */
  ghost predicate Counted(s: Sys) {
    && (forall id :: id in s.reg.entries ==> s.reg.entries[id].refs == |Users(s, id)|)
    && (forall k :: k in s.reg.locks ==> Users(s, s.reg.locks[k]) != {})
  }

  predicate Holds(s: Sys, t: nat, id: nat) {
    t in s.callers && s.callers[t].phase == Holding && s.callers[t].entry == id
  }

  /** The mutex of an entry is locked exactly while one caller holds it. */
  ghost predicate Guarded(s: Sys) {
    && (forall id, t :: id in s.reg.entries && Holds(s, t, id) ==> s.reg.entries[id].locked)
    && (forall id :: id in s.reg.entries && s.reg.entries[id].locked ==> exists t :: Holds(s, t, id))
    && (forall id, t, u :: Holds(s, t, id) && Holds(s, u, id) ==> t == u)
  }

  ghost predicate Inv(s: Sys) {
    Shared(s) && Identified(s) && Counted(s) && Guarded(s)
  }

  lemma InitInv()
    ensures Inv(INIT)
  {}

  lemma UsersOf(s: Sys, t: nat)
    requires t in s.callers
    ensures t in Users(s, s.callers[t].entry)
    ensures 0 < |Users(s, s.callers[t].entry)|
  {
    assert t in Users(s, s.callers[t].entry);
  }

  lemma RegisterInv(s: Sys, t: nat, key: Key)
    requires Inv(s) && t !in s.callers
    ensures Inv(Step(s, Register(t, key)))
  {
    RegisterUsers(s, t, key);
    RegisterGuarded(s, t, key);
  }

  lemma RegisterUsers(s: Sys, t: nat, key: Key)
    requires Shared(s) && Identified(s) && Counted(s) && t !in s.callers
    ensures var s' := Step(s, Register(t, key));
            Shared(s') && Identified(s') && Counted(s')
  {
    FreshUnused(s);
    RegisterCounts(s, t, key);
    RegisterShared(s, t, key);
  }

  lemma RegisterCounts(s: Sys, t: nat, key: Key)
    requires t !in s.callers
    ensures var s' := Step(s, Register(t, key));
            forall id :: |Users(s', id)| == |Users(s, id)| + if id == EntryFor(s.reg, key) then 1 else 0
    ensures t in Users(Step(s, Register(t, key)), EntryFor(s.reg, key))
    ensures forall id :: Users(s, id) <= Users(Step(s, Register(t, key)), id)
  {
    var mine := EntryFor(s.reg, key);
    var before, after := s.callers, s.callers[t := Caller(key, mine, Waiting)];
    forall id
      ensures |UsersIn(after, id)| == |UsersIn(before, id)| + if id == mine then 1 else 0
      ensures UsersIn(before, id) <= UsersIn(after, id)
    {
      AddUser(before, t, after[t], id);
    }
  }

  lemma AddUser(callers: map<nat, Caller>, t: nat, c: Caller, id: nat)
    requires t !in callers
    ensures UsersIn(callers[t := c], id) == UsersIn(callers, id) + if c.entry == id then {t} else {}
    ensures t !in UsersIn(callers, id)
  {}

  lemma RegisterShared(s: Sys, t: nat, key: Key)
    requires Shared(s) && Identified(s) && t !in s.callers
    ensures var s' := Step(s, Register(t, key));
            Shared(s') && Identified(s')
  {}

  lemma RegisterGuarded(s: Sys, t: nat, key: Key)
    requires Shared(s) && Identified(s) && Guarded(s) && t !in s.callers
    ensures Guarded(Step(s, Register(t, key)))
  {
    var s' := Step(s, Register(t, key));
    forall id, u
      ensures Holds(s', u, id) <==> Holds(s, u, id)
    {}
    forall id | id in s'.reg.entries && s'.reg.entries[id].locked
      ensures exists u :: Holds(s', u, id)
    {
      assert id in s.reg.entries && s.reg.entries[id].locked;
      var u :| Holds(s, u, id);
      assert Holds(s', u, id);
    }
    FreshUnused(s);
    forall id, u | id in s'.reg.entries && Holds(s', u, id)
      ensures s'.reg.entries[id].locked
    {
      assert Holds(s, u, id) && u in Users(s, id);
    }
  }

  /** The next identity is not in use. */
  lemma FreshUnused(s: Sys)
    requires Shared(s) && Identified(s)
    ensures Users(s, s.reg.next) == {}
  {
    forall t | t in s.callers
      ensures s.callers[t].entry != s.reg.next
    {
      assert s.reg.locks[s.callers[t].key] in s.reg.entries;
    }
  }

  /** Locking and unlocking an entry touches no reference. */
  lemma PhaseUsers(s: Sys, t: nat, phase: Phase, locked: bool)
    requires Shared(s) && Identified(s) && Counted(s)
    requires t in s.callers && s.callers[t].entry in s.reg.entries
    ensures var s' := Sys(SetLocked(s.reg, s.callers[t].entry, locked), s.callers[t := s.callers[t].(phase := phase)]);
            Shared(s') && Identified(s') && Counted(s')
  {
    var s' := Sys(SetLocked(s.reg, s.callers[t].entry, locked), s.callers[t := s.callers[t].(phase := phase)]);
    forall id
      ensures Users(s', id) == Users(s, id)
    {}
  }

  lemma AcquireGuarded(s: Sys, t: nat)
    requires Guarded(s) && Enabled(s, Acquire(t))
    ensures Guarded(Step(s, Acquire(t)))
  {
    var s' := Step(s, Acquire(t));
    var mine := s.callers[t].entry;
    forall id, u
      ensures Holds(s', u, id) <==> Holds(s, u, id) || (u == t && id == mine)
    {}
    assert !exists u :: Holds(s, u, mine);
    forall id | id in s'.reg.entries && s'.reg.entries[id].locked
      ensures exists u :: Holds(s', u, id)
    {
      if id == mine {
        assert Holds(s', t, id);
      } else {
        var u :| Holds(s, u, id);
        assert Holds(s', u, id);
      }
    }
  }

  lemma UnlockGuarded(s: Sys, t: nat)
    requires Guarded(s) && Enabled(s, Unlock(t))
    ensures Guarded(Step(s, Unlock(t)))
  {
    var s' := Step(s, Unlock(t));
    assert Holds(s, t, s.callers[t].entry);
    forall id, u
      ensures Holds(s', u, id) <==> Holds(s, u, id) && u != t
    {}
    forall id | id in s'.reg.entries && s'.reg.entries[id].locked
      ensures exists u :: Holds(s', u, id)
    {
      var u :| Holds(s, u, id);
      assert Holds(s', u, id);
    }
  }

  /** When the last reference goes, the entry deleted by key is the caller's own
      and nobody else uses that key. */
  lemma UnregisterInv(s: Sys, t: nat)
    requires Inv(s) && Enabled(s, Unregister(t))
    ensures Inv(Step(s, Unregister(t)))
  {
    UnregisterUsers(s, t);
    UnregisterGuarded(s, t);
  }

  lemma UnregisterUsers(s: Sys, t: nat)
    requires Shared(s) && Identified(s) && Counted(s) && Enabled(s, Unregister(t))
    ensures var s' := Step(s, Unregister(t));
            Shared(s') && Identified(s') && Counted(s')
  {
    LastReference(s, t);
    UnregisterShared(s, t);
    UnregisterCounted(s, t);
  }

  lemma UnregisterCounted(s: Sys, t: nat)
    requires Shared(s) && Identified(s) && Counted(s) && Enabled(s, Unregister(t))
    ensures Counted(Step(s, Unregister(t)))
  {
    var s' := Step(s, Unregister(t));
    forall id | id in s'.reg.entries
      ensures s'.reg.entries[id].refs == |Users(s', id)|
    {
      StillCounted(s, t, id);
    }
    forall k | k in s'.reg.locks
      ensures Users(s', s'.reg.locks[k]) != {}
    {
      StillUsed(s, t, k);
      assert s'.reg.locks[k] == s.reg.locks[k];
    }
  }

  lemma StillCounted(s: Sys, t: nat, id: nat)
    requires Counted(s) && Enabled(s, Unregister(t)) && id in Step(s, Unregister(t)).reg.entries
    ensures Step(s, Unregister(t)).reg.entries[id].refs == |Users(Step(s, Unregister(t)), id)|
  {
    UnregisterCounts(s, t);
  }

  /** What stays registered is still used. */
  lemma StillUsed(s: Sys, t: nat, k: Key)
    requires Shared(s) && Identified(s) && Counted(s) && Enabled(s, Unregister(t))
    requires k in Step(s, Unregister(t)).reg.locks
    ensures Users(Step(s, Unregister(t)), s.reg.locks[k]) != {}
  {
    UnregisterCounts(s, t);
    assert Users(s, s.reg.locks[k]) != {};
    if s.reg.locks[k] == s.callers[t].entry {
      assert s.reg.entries[s.callers[t].entry].refs != 1;
      UsersOf(s, t);
    }
  }

  /** A count of one means nobody else, and having the entry to oneself is counted
      as one. */
  lemma LastReference(s: Sys, t: nat)
    requires Counted(s) && Enabled(s, Unregister(t))
    ensures s.reg.entries[s.callers[t].entry].refs == 1 <==>
              forall u :: u in s.callers && u != t ==> s.callers[u].entry != s.callers[t].entry
  {
    var id := s.callers[t].entry;
    UsersOf(s, t);
    var others := Users(s, id) - {t};
    assert |others| == s.reg.entries[id].refs - 1;
    forall u | u in s.callers && u != t
      ensures u in others <==> s.callers[u].entry == id
    {}
    if s.reg.entries[id].refs != 1 {
      var u :| u in others;
    }
  }

  lemma UnregisterCounts(s: Sys, t: nat)
    requires Enabled(s, Unregister(t))
    ensures var s' := Step(s, Unregister(t));
            forall id :: |Users(s', id)| == |Users(s, id)| - if id == s.callers[t].entry then 1 else 0
    ensures forall id :: id != s.callers[t].entry ==> Users(Step(s, Unregister(t)), id) == Users(s, id)
  {
    var s' := Step(s, Unregister(t));
    UsersOf(s, t);
    forall id
      ensures |Users(s', id)| == |Users(s, id)| - if id == s.callers[t].entry then 1 else 0
      ensures id != s.callers[t].entry ==> Users(s', id) == Users(s, id)
    {
      if id == s.callers[t].entry {
        assert Users(s', id) == Users(s, id) - {t};
      } else {
        assert Users(s', id) == Users(s, id);
      }
    }
  }

  lemma UnregisterShared(s: Sys, t: nat)
    requires Shared(s) && Identified(s) && Enabled(s, Unregister(t))
    requires s.reg.entries[s.callers[t].entry].refs == 1 ==>
               forall u :: u in s.callers && u != t ==> s.callers[u].entry != s.callers[t].entry
    ensures var s' := Step(s, Unregister(t));
            Shared(s') && Identified(s')
  {}

  lemma UnregisterGuarded(s: Sys, t: nat)
    requires Guarded(s) && Enabled(s, Unregister(t))
    ensures Guarded(Step(s, Unregister(t)))
  {
    var s' := Step(s, Unregister(t));
    forall id, u
      ensures Holds(s', u, id) <==> Holds(s, u, id)
    {}
    forall id | id in s'.reg.entries && s'.reg.entries[id].locked
      ensures exists u :: Holds(s', u, id)
    {
      var u :| Holds(s, u, id);
      assert Holds(s', u, id);
    }
  }

  lemma StepInv(s: Sys, e: Event)
    requires Inv(s) && Enabled(s, e)
    ensures Inv(Step(s, e))
  {
    match e
    case Register(t, key) => RegisterInv(s, t, key);
    case Acquire(t) =>
      PhaseUsers(s, t, Holding, true);
      AcquireGuarded(s, t);
    case Unlock(t) =>
      PhaseUsers(s, t, Leaving, false);
      UnlockGuarded(s, t);
    case Unregister(t) => UnregisterInv(s, t);
  }

  lemma {:induction false} RunInv(s: Sys, es: seq<Event>)
    requires Inv(s) && Possible(s, es)
    ensures Inv(Run(s, es))
    decreases |es|
  {
    if es != [] {
      StepInv(s, es[0]);
      RunInv(Step(s, es[0]), es[1..]);
    }
  }

  // ---------------------------------------------------------------- who holds the lock

  /** The last section of Lock or unlock that a caller went through. */
  function LastOf(es: seq<Event>, t: nat): Option<Event>
    decreases |es|
  {
    if es == [] then None
    else
      var later := LastOf(es[1..], t);
      if later.Some? then later else if es[0].t == t then Some(es[0]) else None
  }

  /** The key a caller asked for last. */
  function AskedFor(es: seq<Event>, t: nat): Option<Key>
    decreases |es|
  {
    if es == [] then None
    else
      var later := AskedFor(es[1..], t);
      if later.Some? then later else if es[0].Register? && es[0].t == t then Some(es[0].key) else None
  }

  /** The key a caller is in flight with: the one asked for last, or the one it had. */
  function KeyAfter(s: Sys, es: seq<Event>, t: nat): Option<Key> {
    if AskedFor(es, t).Some? then AskedFor(es, t)
    else if t in s.callers then Some(s.callers[t].key) else None
  }

  /** A caller that is done with a section stands before the next one. */
  predicate StandsBehind(s: Sys, t: nat, e: Event) {
    match e
    case Register(_, _) => t in s.callers && s.callers[t].phase == Waiting
    case Acquire(_) => t in s.callers && s.callers[t].phase == Holding
    case Unlock(_) => t in s.callers && s.callers[t].phase == Leaving
    case Unregister(_) => t !in s.callers
  }

  predicate SameCaller(s: Sys, s': Sys, t: nat) {
    && (t in s.callers <==> t in s'.callers)
    && (t in s.callers ==> s'.callers[t] == s.callers[t])
  }

  lemma OneSection(s: Sys, e: Event, t: nat)
    requires Enabled(s, e)
    ensures e.t != t ==> SameCaller(s, Step(s, e), t)
    ensures e.t == t ==> StandsBehind(Step(s, e), t, e)
    ensures t in Step(s, e).callers ==>
              if e.Register? && e.t == t then Step(s, e).callers[t].key == e.key
              else t in s.callers && Step(s, e).callers[t].key == s.callers[t].key
  {
  }

  lemma {:induction false} SectionsOf(s: Sys, es: seq<Event>, t: nat)
    requires Possible(s, es)
    ensures LastOf(es, t).None? ==> SameCaller(s, Run(s, es), t)
    ensures LastOf(es, t).Some? ==> StandsBehind(Run(s, es), t, LastOf(es, t).value)
    ensures t in Run(s, es).callers ==> KeyAfter(s, es, t) == Some(Run(s, es).callers[t].key)
    decreases |es|
  {
    if es != [] {
      OneSection(s, es[0], t);
      SectionsOf(Step(s, es[0]), es[1..], t);
    }
  }

  /** Over every run: a caller that asked for a key and got it holds the lock of that
      very key until it unlocks; before that it waits, and afterwards it leaves. */
  lemma PhaseIsLastSection(es: seq<Event>, t: nat)
    requires Possible(INIT, es)
    ensures var s := Run(INIT, es);
            match LastOf(es, t)
            case None => t !in s.callers
            case Some(Register(_, key)) =>
              t in s.callers && s.callers[t].phase == Waiting && AskedFor(es, t) == Some(s.callers[t].key)
            case Some(Acquire(_)) =>
              t in s.callers && s.callers[t].phase == Holding && AskedFor(es, t) == Some(s.callers[t].key)
            case Some(Unlock(_)) =>
              t in s.callers && s.callers[t].phase == Leaving && AskedFor(es, t) == Some(s.callers[t].key)
            case Some(Unregister(_)) => t !in s.callers
  {
    SectionsOf(INIT, es, t);
  }

  // ---------------------------------------------------------------- what callers rely on

  /** Mutual exclusion per key, over every interleaving, although the entry
      behind a key is deleted and created again. */
  lemma MutualExclusion(es: seq<Event>, t: nat, u: nat)
    requires Possible(INIT, es)
    requires var s := Run(INIT, es);
             && t in s.callers && u in s.callers
             && s.callers[t].phase == Holding && s.callers[u].phase == Holding
             && s.callers[t].key == s.callers[u].key
    ensures t == u
  {
    InitInv();
    RunInv(INIT, es);
    var s := Run(INIT, es);
    assert Holds(s, t, s.callers[t].entry) && Holds(s, u, s.callers[t].entry);
  }

  /** The registry lists exactly the keys in flight, so it is empty when nobody
      is, and reference counts are exact. */
  lemma RegistryIsExact(es: seq<Event>)
    requires Possible(INIT, es)
    ensures var s := Run(INIT, es);
            && (forall k :: k in s.reg.locks <==> exists t :: t in s.callers && s.callers[t].key == k)
            && (forall k :: k in s.reg.locks ==> s.reg.locks[k] in s.reg.entries)
            && (forall k :: k in s.reg.locks ==>
                  s.reg.entries[s.reg.locks[k]].refs == |set t | t in s.callers && s.callers[t].key == k|)
  {
    InitInv();
    RunInv(INIT, es);
    var s := Run(INIT, es);
    forall k | k in s.reg.locks
      ensures exists t :: t in s.callers && s.callers[t].key == k
      ensures s.reg.entries[s.reg.locks[k]].refs == |set t | t in s.callers && s.callers[t].key == k|
    {
      var users := Users(s, s.reg.locks[k]);
      var t :| t in users;
      assert s.callers[t].key == k;
      assert users == set t | t in s.callers && s.callers[t].key == k;
    }
  }

  /** A waiting caller is blocked exactly by a holder of the SAME key: different
      keys never block each other. */
  lemma BlockedOnlyBySameKey(es: seq<Event>, t: nat)
    requires Possible(INIT, es)
    requires t in Run(INIT, es).callers && Run(INIT, es).callers[t].phase == Waiting
    ensures var s := Run(INIT, es);
            Enabled(s, Acquire(t)) <==>
              !exists u :: u in s.callers && s.callers[u].phase == Holding && s.callers[u].key == s.callers[t].key
  {
    InitInv();
    RunInv(INIT, es);
    var s := Run(INIT, es);
    var id := s.callers[t].entry;
    forall u | u in s.callers && s.callers[u].phase == Holding && s.callers[u].key == s.callers[t].key
      ensures Holds(s, u, id)
    {}
    if s.reg.entries[id].locked {
      var u :| Holds(s, u, id);
      assert s.callers[u].key == s.callers[t].key;
    }
  }

  /** No deadlock: while anyone is in flight, somebody in flight can move. */
  lemma SomebodyMoves(es: seq<Event>, t: nat) returns (e: Event)
    requires Possible(INIT, es) && t in Run(INIT, es).callers
    ensures Enabled(Run(INIT, es), e) && !e.Register?
  {
    InitInv();
    RunInv(INIT, es);
    var s := Run(INIT, es);
    var c := s.callers[t];
    match c.phase
    case Holding => e := Unlock(t);
    case Leaving => e := Unregister(t);
    case Waiting =>
      if s.reg.entries[c.entry].locked {
        var u :| Holds(s, u, c.entry);
        e := Unlock(u);
      } else {
        e := Acquire(t);
      }
  }
}
