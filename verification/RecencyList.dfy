/** One shard of the LRU cache as a value (pkg/cacheutil/lru.go): a list of
    entries, most recently used first. */
module RecencyList {
  import opened Wrappers

  /** Go strings are byte strings. */
  datatype Key = Key(bytes: seq<bv8>)

  datatype Entry<V> = Entry(key: Key, value: V)

  datatype Op<V> = Get(key: Key) | Put(key: Key, value: V)

  // ---------------------------------------------------------------- operations

  predicate Has<V>(list: seq<Entry<V>>, k: Key) {
    exists i :: 0 <= i < |list| && list[i].key == k
  }

  function Find<V>(list: seq<Entry<V>>, k: Key): (r: Option<V>)
    ensures r.Some? <==> Has(list, k)
    ensures r.Some? ==> Entry(k, r.value) in list
  {
    if list == [] then None
    else if list[0].key == k then Some(list[0].value)
    else
      var r := Find(list[1..], k);
      assert list == [list[0]] + list[1..];
      assert r.Some? ==> Entry(k, r.value) in list[1..];
      assert Has(list, k) <==> Has(list[1..], k) by {
        if Has(list, k) {
          var i :| 0 <= i < |list| && list[i].key == k;
          assert list[1..][i - 1].key == k;
        }
        if Has(list[1..], k) {
          var i :| 0 <= i < |list[1..]| && list[1..][i].key == k;
          assert list[i + 1].key == k;
        }
      }
      r
  }

  /** The list without the entries of one key. */
  function Drop<V>(list: seq<Entry<V>>, k: Key): (r: seq<Entry<V>>) {
    if list == [] then []
    else if list[0].key == k then Drop(list[1..], k)
    else [list[0]] + Drop(list[1..], k)
  }

  /** A Get moves a present key to the front; a miss changes nothing. */
  function AfterGet<V>(list: seq<Entry<V>>, k: Key): seq<Entry<V>> {
    match Find(list, k)
    case None => list
    case Some(v) => [Entry(k, v)] + Drop(list, k)
  }

  function Trim<V>(list: seq<Entry<V>>, max: nat): seq<Entry<V>> {
    if |list| > max then list[..|list| - 1] else list
  }

  /** A Put refreshes a present key in place of eviction; a new key pushes the
      least recently used one out of a full shard. */
  function AfterPut<V>(list: seq<Entry<V>>, max: nat, k: Key, v: V): seq<Entry<V>> {
    if Has(list, k) then [Entry(k, v)] + Drop(list, k)
    else Trim([Entry(k, v)] + list, max)
  }

  function After<V>(list: seq<Entry<V>>, max: nat, op: Op<V>): seq<Entry<V>> {
    match op
    case Get(k) => AfterGet(list, k)
    case Put(k, v) => AfterPut(list, max, k, v)
  }

  /** The shard after a history, starting empty. */
  function State<V>(max: nat, ops: seq<Op<V>>): seq<Entry<V>> {
    if ops == [] then [] else After(State(max, ops[..|ops| - 1]), max, ops[|ops| - 1])
  }

  // ---------------------------------------------------------------- Drop

  predicate Distinct<V>(list: seq<Entry<V>>) {
    forall i, j :: 0 <= i < j < |list| ==> list[i].key != list[j].key
  }

  lemma {:induction false} DropFacts<V>(list: seq<Entry<V>>, k: Key)
    ensures forall e :: e in Drop(list, k) <==> e in list && e.key != k
    ensures |Drop(list, k)| <= |list|
  {
    if list != [] {
      DropFacts(list[1..], k);
      assert list == [list[0]] + list[1..];
    }
  }

  lemma {:induction false} DropDistinct<V>(list: seq<Entry<V>>, k: Key)
    requires Distinct(list)
    ensures Distinct(Drop(list, k))
  {
    if list != [] {
      var rest := Drop(list[1..], k);
      DropDistinct(list[1..], k);
      DropFacts(list[1..], k);
      if list[0].key != k {
        assert !Has(list[1..], list[0].key);
        DropHas(list[1..], k, list[0].key);
        PushDistinct(list[0], rest);
      }
    }
  }

  /** Dropping a key of a list with distinct keys removes exactly its entry. */
  lemma {:induction false} DropAt<V>(list: seq<Entry<V>>, i: nat)
    requires Distinct(list) && i < |list|
    ensures Drop(list, list[i].key) == list[..i] + list[i + 1..]
    ensures Find(list, list[i].key) == Some(list[i].value)
  {
    if i == 0 {
      DropAbsent(list[1..], list[0].key);
    } else {
      DropAt(list[1..], i - 1);
      assert list[1..][..i - 1] == list[1..i];
      assert list[..i] == [list[0]] + list[1..i];
      assert list[1..][i..] == list[i + 1..];
    }
  }

  lemma {:induction false} DropAbsent<V>(list: seq<Entry<V>>, k: Key)
    requires !Has(list, k)
    ensures Drop(list, k) == list
  {
    if list != [] {
      assert list[0].key != k;
      forall i | 0 <= i < |list[1..]|
        ensures list[1..][i].key != k
      {
        assert list[1..][i] == list[i + 1];
      }
      DropAbsent(list[1..], k);
    }
  }

  lemma HasIn<V>(list: seq<Entry<V>>, k: Key)
    ensures Has(list, k) <==> exists e :: e in list && e.key == k
  {
    if Has(list, k) {
      var i :| 0 <= i < |list| && list[i].key == k;
      assert list[i] in list;
    }
  }

  /** A move to the front keeps the length. */
  lemma FrontLength<V>(list: seq<Entry<V>>, k: Key)
    requires Distinct(list) && Has(list, k)
    ensures |Drop(list, k)| == |list| - 1
    ensures Find(list, k).Some?
  {
    var i :| 0 <= i < |list| && list[i].key == k;
    DropAt(list, i);
  }

  // ---------------------------------------------------------------- the shape of a shard

  ghost predicate Shape<V>(list: seq<Entry<V>>, max: nat) {
    Distinct(list) && |list| <= max
  }

  lemma PushDistinct<V>(e: Entry<V>, list: seq<Entry<V>>)
    requires Distinct(list) && !Has(list, e.key)
    ensures Distinct([e] + list)
  {}

  lemma DropHas<V>(list: seq<Entry<V>>, k: Key, k': Key)
    ensures Has(Drop(list, k), k') <==> Has(list, k') && k' != k
  {
    DropFacts(list, k);
    HasIn(list, k');
    HasIn(Drop(list, k), k');
  }

  /** Every operation keeps keys distinct and the shard within its capacity. */
  lemma AfterShape<V>(list: seq<Entry<V>>, max: nat, op: Op<V>)
    requires Shape(list, max) && 1 <= max
    ensures Shape(After(list, max, op), max)
  {
    DropFacts(list, op.key);
    DropDistinct(list, op.key);
    DropHas(list, op.key, op.key);
    if Has(list, op.key) {
      FrontLength(list, op.key);
      var e := if op.Put? then Entry(op.key, op.value) else Entry(op.key, Find(list, op.key).value);
      PushDistinct(e, Drop(list, op.key));
    } else if op.Put? {
      PushDistinct(Entry(op.key, op.value), list);
    }
  }

  /** Where the entries of the next state come from. */
  lemma AfterEntries<V>(list: seq<Entry<V>>, max: nat, op: Op<V>, e: Entry<V>)
    requires e in After(list, max, op)
    ensures || (op.Put? && e == Entry(op.key, op.value))
            || (e in list && (op.Put? ==> e.key != op.key))
  {
    DropFacts(list, op.key);
    HasIn(list, op.key);
    if op.Put? && !Has(list, op.key) {
      assert e in [Entry(op.key, op.value)] + list;
    }
  }

  lemma {:induction false} StateShape<V>(max: nat, ops: seq<Op<V>>)
    requires 1 <= max
    ensures Shape(State(max, ops), max)
  {
    if ops != [] {
      StateShape(max, ops[..|ops| - 1]);
      AfterShape(State(max, ops[..|ops| - 1]), max, ops[|ops| - 1]);
    }
  }
}
