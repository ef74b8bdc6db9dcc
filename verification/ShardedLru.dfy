/** The sharded LRU cache (pkg/cacheutil/lru.go): how the capacity is split, how
    a key finds its shard, and what the whole cache inherits from its shards. */
module ShardedLru {
  import opened RecencyList
  import opened LruTheorems
  import opened Wrappers

  const SHARD_COUNT := 16
  const SHARD_THRESHOLD := 64

  // ---------------------------------------------------------------- capacities

  function Clamp(max: int): nat {
    if max < 1 then 1 else max
  }

  function ShardCount(max: int): (n: nat)
    ensures n == if max >= 64 then 16 else 1
  {
    if Clamp(max) >= SHARD_THRESHOLD then SHARD_COUNT else 1
  }

  function Capacity(max: int, i: nat): nat {
    var base, rem := Clamp(max) / ShardCount(max), Clamp(max) % ShardCount(max);
    var c := if i < rem then base + 1 else base;
    if c < 1 then 1 else c
  }

  function Total(ns: seq<nat>): nat {
    if ns == [] then 0 else Total(ns[..|ns| - 1]) + ns[|ns| - 1]
  }

  function Capacities(max: int): (cs: seq<nat>)
    ensures |cs| == ShardCount(max)
    ensures forall i :: 0 <= i < |cs| ==> cs[i] == Capacity(max, i) >= 1
  {
    seq(ShardCount(max), i => if i < 0 then 1 else Capacity(max, i))
  }

  lemma {:induction false} TotalOfSplit(ns: seq<nat>, base: nat, rem: nat)
    requires forall i :: 0 <= i < |ns| ==> ns[i] == if i < rem then base + 1 else base
    ensures Total(ns) == |ns| * base + if |ns| < rem then |ns| else rem
  {
    if ns != [] {
      var n := |ns| - 1;
      TotalOfSplit(ns[..n], base, rem);
      assert |ns| * base == n * base + base;
    }
  }

  /** The shards share the requested capacity exactly. */
  lemma CapacitiesShareMax(max: int)
    ensures Total(Capacities(max)) == Clamp(max)
  {
    var n := ShardCount(max);
    var base, rem := Clamp(max) / n, Clamp(max) % n;
    assert base >= 1;
    TotalOfSplit(Capacities(max), base, rem);
    assert Clamp(max) == n * base + rem;
  }

  /** They share it evenly: no shard has more than a later one by more than one entry,
      and none less.  With the sum this fixes every capacity. */
  lemma CapacitiesEven(max: int, i: nat, j: nat)
    requires i < j < ShardCount(max)
    ensures Capacity(max, j) <= Capacity(max, i) <= Capacity(max, j) + 1
  {}

  /** With the same number of shards, more capacity is more in every shard. */
  lemma CapacityMonotone(c: int, c': int, i: nat)
    requires c <= c' && ShardCount(c) == ShardCount(c')
    ensures Capacity(c, i) <= Capacity(c', i)
  {}

  // ---------------------------------------------------------------- FNV-1a

  const OFFSET32: bv32 := 2166136261
  const PRIME32: bv32 := 16777619

  function Mix(h: bv32, b: bv8): bv32 {
    (h ^ (b as bv32)) * PRIME32
  }

  function Fnv(bytes: seq<bv8>): bv32 {
    if bytes == [] then OFFSET32 else Mix(Fnv(bytes[..|bytes| - 1]), bytes[|bytes| - 1])
  }

  function Mix3(h: bv32, a: bv8, b: bv8, c: bv8): bv32 {
    Mix(Mix(Mix(h, a), b), c)
  }

  lemma ThreeSteps(bytes: seq<bv8>, j: nat)
    requires j + 3 <= |bytes|
    ensures Fnv(bytes[..j + 3]) == Mix3(Fnv(bytes[..j]), bytes[j], bytes[j + 1], bytes[j + 2])
  {
    FnvStep(bytes, j);
    FnvStep(bytes, j + 1);
    FnvStep(bytes, j + 2);
  }

  /** Published values of 32-bit FNV-1a, of the empty string, "a" and "foobar". */
  lemma FnvVectors(a: seq<bv8>, foobar: seq<bv8>)
    requires a == [0x61] && foobar == [0x66, 0x6f, 0x6f, 0x62, 0x61, 0x72]
    ensures Fnv([]) == 0x811c9dc5 && Fnv(a) == 0xe40c292c && Fnv(foobar) == 0xbf9cf968
  {
    FnvStep(a, 0);
    assert a[..0] == [] && a[..1] == a;
    ThreeSteps(foobar, 0);
    ThreeSteps(foobar, 3);
    assert foobar[..0] == [] && foobar[..6] == foobar;
  }

  lemma FnvStep(bytes: seq<bv8>, j: nat)
    requires j < |bytes|
    ensures Fnv(bytes[..j + 1]) == Mix(Fnv(bytes[..j]), bytes[j])
  {
    assert bytes[..j + 1][..j] == bytes[..j];
  }

  function ShardOf(k: Key, count: nat): (i: nat)
    requires 1 <= count
    ensures i < count
  {
    (Fnv(k.bytes) as int) % count
  }

  /** "a" is in the thirteenth of sixteen shards, "foobar" in the ninth, an empty key in
      the sixth. */
  lemma ShardVectors(a: seq<bv8>, foobar: seq<bv8>)
    requires a == [0x61] && foobar == [0x66, 0x6f, 0x6f, 0x62, 0x61, 0x72]
    ensures ShardOf(Key([]), 16) == 5 && ShardOf(Key(a), 16) == 12 && ShardOf(Key(foobar), 16) == 8
  {
    FnvVectors(a, foobar);
  }

  // ---------------------------------------------------------------- the whole cache

  /** The operations that reach shard i. */
  function Routed<V>(ops: seq<Op<V>>, i: nat, count: nat): seq<Op<V>>
    requires 1 <= count
  {
    if ops == [] then []
    else
      var before, op := Routed(ops[..|ops| - 1], i, count), ops[|ops| - 1];
      if ShardOf(op.key, count) == i then before + [op] else before
  }

  /** The cache after a history: every shard sees its own operations. */
  function CacheState<V>(max: int, ops: seq<Op<V>>): (shards: seq<seq<Entry<V>>>)
    ensures |shards| == ShardCount(max)
    ensures forall i :: 0 <= i < |shards| ==> shards[i] == State(Capacity(max, i), Routed(ops, i, ShardCount(max)))
  {
    seq(ShardCount(max), i => if i < 0 then [] else State(Capacity(max, i), Routed(ops, i, ShardCount(max))))
  }

  function Lookup<V>(max: int, ops: seq<Op<V>>, k: Key): Option<V> {
    Find(CacheState(max, ops)[ShardOf(k, ShardCount(max))], k)
  }

  /** One more operation changes one shard, the one its key hashes to. */
  lemma CacheStep<V>(max: int, ops: seq<Op<V>>, op: Op<V>)
    ensures var i := ShardOf(op.key, ShardCount(max));
            var shards := CacheState(max, ops);
            CacheState(max, ops + [op]) == shards[i := After(shards[i], Capacity(max, i), op)]
  {
    var n := ShardCount(max);
    var i := ShardOf(op.key, n);
    var shards := CacheState(max, ops);
    assert (ops + [op])[..|ops|] == ops;
    forall j | 0 <= j < n
      ensures CacheState(max, ops + [op])[j] == shards[i := After(shards[i], Capacity(max, i), op)][j]
    {
      if j == i {
        var routed := Routed(ops, i, n);
        assert Routed(ops + [op], i, n) == routed + [op];
        assert (routed + [op])[..|routed|] == routed;
      }
    }
  }

  /** Exactness of the whole cache: a lookup returns the last value put under the
      key, if fewer other keys of its shard than the shard's capacity were touched
      since the key was, and misses otherwise. */
  lemma LookupExact<V>(max: int, ops: seq<Op<V>>, k: Key)
    ensures var i := ShardOf(k, ShardCount(max));
            var c := Capacity(max, i);
            var log := Touches(c, Routed(ops, i, ShardCount(max)));
            Lookup(max, ops, k) == if k in log && |Since(log, k)| < c then LastPut(ops, k) else None
  {
    var i := ShardOf(k, ShardCount(max));
    var routed := Routed(ops, i, ShardCount(max));
    GetReturnsLastPut(Capacity(max, i), routed, k);
    RoutedLastPut(ops, k, ShardCount(max));
  }

  lemma {:induction false} RoutedLastPut<V>(ops: seq<Op<V>>, k: Key, count: nat)
    requires 1 <= count
    ensures LastPut(Routed(ops, ShardOf(k, count), count), k) == LastPut(ops, k)
  {
    if ops != [] {
      var before, op := ops[..|ops| - 1], ops[|ops| - 1];
      RoutedLastPut(before, k, count);
      var routed := Routed(before, ShardOf(k, count), count);
      assert (routed + [op])[..|routed|] == routed;
    }
  }

  /** Inclusion of the whole cache: with the same number of shards, whatever the
      smaller cache still holds the larger holds too. */
  lemma LargerCacheHitsMore<V>(c: int, c': int, ops: seq<Op<V>>, k: Key)
    requires c <= c' && ShardCount(c) == ShardCount(c')
    ensures Lookup(c, ops, k).Some? ==> Lookup(c', ops, k) == Lookup(c, ops, k)
    ensures forall i :: 0 <= i < ShardCount(c) ==> Within(CacheState(c, ops)[i], CacheState(c', ops)[i])
  {
    var n := ShardCount(c);
    forall i: nat | i < n
      ensures Within(CacheState(c, ops)[i], CacheState(c', ops)[i])
    {
      CapacityMonotone(c, c', i);
      SmallerWithinLarger(Capacity(c, i), Capacity(c', i), Routed(ops, i, n));
    }
    var i := ShardOf(k, n);
    CapacityMonotone(c, c', i);
    HitsIncluded(Capacity(c, i), Capacity(c', i), Routed(ops, i, n), k);
  }

  function Lengths<V>(shards: seq<seq<Entry<V>>>): (ns: seq<nat>)
    ensures |ns| == |shards| && forall i :: 0 <= i < |ns| ==> ns[i] == |shards[i]|
  {
    seq(|shards|, i requires 0 <= i < |shards| => |shards[i]|)
  }

  lemma {:induction false} TotalMonotone(ms: seq<nat>, ns: seq<nat>)
    requires |ms| == |ns| && forall i :: 0 <= i < |ms| ==> ms[i] <= ns[i]
    ensures Total(ms) <= Total(ns)
  {
    if ms != [] {
      TotalMonotone(ms[..|ms| - 1], ns[..|ns| - 1]);
    }
  }

  /** The cache never holds more entries than the capacity asked for (at least one). */
  lemma LenBounded<V>(max: int, ops: seq<Op<V>>)
    ensures Total(Lengths(CacheState(max, ops))) <= Clamp(max)
  {
    var shards := CacheState(max, ops);
    forall i | 0 <= i < |shards|
      ensures Lengths(shards)[i] <= Capacities(max)[i]
    {
      StateShape(Capacity(max, i), Routed(ops, i, ShardCount(max)));
    }
    TotalMonotone(Lengths(shards), Capacities(max));
    CapacitiesShareMax(max);
  }
}
