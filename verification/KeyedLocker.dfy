/** The keyed locker as the source writes it (pkg/concurrent/keyedlocker.go): a
    registry of reference-counted entries, each with its own mutex. */
module KeyedLockers {
  import opened LockRegistry

  /** locked is the state of mu: Lock blocks while it is set. */
  class LockEntry {
    ghost const id: nat
    var refs: int
    var locked: bool

    constructor (ghost id: nat)
      ensures this.id == id && refs == 0 && !locked
    {
      this.id := id;
      refs := 0;
      locked := false;
    }

    method Lock()
      requires !locked
      modifies this`locked
      ensures locked
    {
      locked := true;
    }

    method Unlock()
      requires locked
      modifies this`locked
      ensures !locked
    {
      locked := false;
    }
  }

  /** The registry by identity. */
  ghost function Ids(locks: map<Key, LockEntry>): map<Key, nat> {
    map k | k in locks :: locks[k].id
  }

  lemma IdsAdd(locks: map<Key, LockEntry>, key: Key, entry: LockEntry)
    ensures Ids(locks[key := entry]) == Ids(locks)[key := entry.id]
  {}

  lemma IdsRemove(locks: map<Key, LockEntry>, key: Key)
    ensures Ids(locks - {key}) == Ids(locks) - {key}
  {}

  class KeyedLocker {
    var locks: map<Key, LockEntry>
    /** Every entry ever created, by identity. */
    ghost var known: map<nat, LockEntry>
    ghost var next: nat

    ghost predicate Valid()
      reads this
    {
      && (forall k :: k in locks ==> locks[k].id in known && known[locks[k].id] == locks[k])
      && (forall i :: i in known ==> i < next && known[i].id == i)
    }

    ghost function States(): map<nat, Entry>
      reads this, known.Values
    {
      map i | i in known :: LockRegistry.Entry(known[i].refs, known[i].locked)
    }

    ghost function Snapshot(): Registry
      reads this, known.Values
    {
      Registry(Ids(locks), States(), next)
    }

    constructor ()
      ensures Valid() && Snapshot() == INIT.reg
    {
      locks := map[];
      known := map[];
      next := 0;
    }

    /** Lock, up to the release of the registry's mutex: the caller then waits
        for entry.Lock(). */
    method Register(key: Key) returns (entry: LockEntry)
      requires Valid()
      modifies this, known.Values
      ensures Valid()
      ensures entry.id == old(EntryFor(Snapshot(), key))
      ensures entry.id in known && known[entry.id] == entry
      ensures Snapshot() == Checkout(old(Snapshot()), key)
    {
      if key in locks {
        entry := locks[key];
        entry.refs := entry.refs + 1;
        assert States() == old(States())[entry.id := LockRegistry.Entry(entry.refs, entry.locked)];
      } else {
        entry := CreateEntry(key);
      }
    }

    method CreateEntry(key: Key) returns (entry: LockEntry)
      requires Valid() && key !in locks
      modifies this
      ensures Valid() && fresh(entry) && entry.id == old(next)
      ensures entry.id in known && known[entry.id] == entry
      ensures Snapshot() == Checkout(old(Snapshot()), key)
    {
      entry := new LockEntry(next);
      entry.refs := entry.refs + 1;
      IdsAdd(locks, key, entry);
      locks := locks[key := entry];
      known := known[next := entry];
      next := next + 1;
      assert States() == old(States())[old(next) := LockRegistry.Entry(1, false)];
    }

    /** The release closure, after entry.Unlock(). */
    method Unregister(key: Key, entry: LockEntry)
      requires Valid() && entry.id in known && known[entry.id] == entry
      modifies this`locks, entry`refs
      ensures Valid()
      ensures Snapshot() == Checkin(old(Snapshot()), key, entry.id)
    {
      entry.refs := entry.refs - 1;
      if entry.refs == 0 {
        IdsRemove(locks, key);
        locks := locks - {key};
      }
      assert States() == old(States())[entry.id := LockRegistry.Entry(entry.refs, entry.locked)];
    }

    /** Taking and releasing an entry's mutex, seen from the registry. */
    method LockEntryOf(entry: LockEntry)
      requires Valid() && entry.id in known && known[entry.id] == entry && !entry.locked
      modifies entry`locked
      ensures Valid() && Snapshot() == SetLocked(old(Snapshot()), entry.id, true)
    {
      entry.Lock();
    }

    method UnlockEntryOf(entry: LockEntry)
      requires Valid() && entry.id in known && known[entry.id] == entry && entry.locked
      modifies entry`locked
      ensures Valid() && Snapshot() == SetLocked(old(Snapshot()), entry.id, false)
    {
      entry.Unlock();
    }
  }
}
