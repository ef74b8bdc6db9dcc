/** The LRU cache as the source writes it (pkg/cacheutil/lru.go): shards of a
    list and a map, mutated in place.  container/list is a sequence of elements. */
module LruCache {
  import opened RecencyList
  import opened ShardedLru
  import opened Wrappers

  class Element<V> {
    const key: Key
    var value: V

    constructor (key: Key, value: V)
      ensures this.key == key && this.value == value
    {
      this.key := key;
      this.value := value;
    }
  }

  ghost function Listing<V>(ll: seq<Element<V>>): (list: seq<Entry<V>>)
    reads ll
    ensures |list| == |ll|
    ensures forall i :: 0 <= i < |ll| ==> list[i] == Entry(ll[i].key, ll[i].value)
  {
    seq(|ll|, i requires 0 <= i < |ll| reads ll => Entry(ll[i].key, ll[i].value))
  }

  /** The list and the map hold the same elements, under distinct keys. */
  ghost predicate Linked<V>(ll: seq<Element<V>>, item: map<Key, Element<V>>) {
    && (forall i, j :: 0 <= i < j < |ll| ==> ll[i].key != ll[j].key)
    && (forall i :: 0 <= i < |ll| ==> ll[i].key in item && item[ll[i].key] == ll[i])
    && (forall k :: k in item ==> item[k] in ll && item[k].key == k)
  }

  function Moved<V>(ll: seq<Element<V>>, i: nat): (r: seq<Element<V>>)
    requires i < |ll|
  {
    [ll[i]] + (ll[..i] + ll[i + 1..])
  }

  lemma MovedSame<V>(ll: seq<Element<V>>, i: nat)
    requires i < |ll|
    ensures |Moved(ll, i)| == |ll|
    ensures forall e :: e in Moved(ll, i) <==> e in ll
  {
    forall e | e in ll
      ensures e in Moved(ll, i)
    {
      var j :| 0 <= j < |ll| && ll[j] == e;
      assert Moved(ll, i)[if j == i then 0 else if j < i then j + 1 else j] == e;
    }
  }

  /** Bringing an element to the front keeps list and map linked. */
  lemma MovedLinked<V>(ll: seq<Element<V>>, item: map<Key, Element<V>>, i: nat)
    requires Linked(ll, item) && i < |ll|
    ensures Linked(Moved(ll, i), item)
    ensures |Moved(ll, i)| == |ll|
    ensures forall e :: e in Moved(ll, i) <==> e in ll
  {
    MovedSame(ll, i);
    var m := Moved(ll, i);
    forall j | 0 <= j < |m|
      ensures m[j].key in item && item[m[j].key] == m[j]
    {
      assert m[j] in ll;
    }
  }

  lemma ListingPush<V>(e: Element<V>, ll: seq<Element<V>>)
    ensures Listing([e] + ll) == [Entry(e.key, e.value)] + Listing(ll)
  {}

  lemma ListingMoved<V>(ll: seq<Element<V>>, i: nat)
    requires i < |ll|
    ensures var list := Listing(ll);
            Listing(Moved(ll, i)) == [list[i]] + (list[..i] + list[i + 1..])
  {
    var list, moved := Listing(ll), Moved(ll, i);
    var expected := [list[i]] + (list[..i] + list[i + 1..]);
    forall j | 0 <= j < |moved|
      ensures Listing(moved)[j] == expected[j]
    {
      var k := if j == 0 then i else if j <= i then j - 1 else j;
      assert moved[j] == ll[k];
      assert expected[j] == list[k];
    }
  }

  lemma MovedListing<V>(ll: seq<Element<V>>, i: nat)
    requires i < |ll| && forall j, k :: 0 <= j < k < |ll| ==> ll[j].key != ll[k].key
    ensures Listing(Moved(ll, i)) == [Entry(ll[i].key, ll[i].value)] + Drop(Listing(ll), ll[i].key)
    ensures Find(Listing(ll), ll[i].key) == Some(ll[i].value)
  {
    var list := Listing(ll);
    assert Distinct(list);
    DropAt(list, i);
    ListingMoved(ll, i);
  }

  lemma PushedLinked<V>(ll: seq<Element<V>>, item: map<Key, Element<V>>, e: Element<V>)
    requires Linked(ll, item) && e.key !in item
    ensures Linked([e] + ll, item[e.key := e])
  {
    var pushed := [e] + ll;
    assert pushed[0] == e;
    forall k | k in item
      ensures item[k] in pushed
    {
      assert item[k] in ll;
    }
  }

  lemma EvictedLinked<V>(ll: seq<Element<V>>, item: map<Key, Element<V>>)
    requires Linked(ll, item) && ll != []
    ensures Linked(ll[..|ll| - 1], item - {ll[|ll| - 1].key})
  {
    var rest := ll[..|ll| - 1];
    assert ll == rest + [ll[|ll| - 1]];
  }

  class Shard<V> {
    const max: nat
    var ll: seq<Element<V>>
    var item: map<Key, Element<V>>

    /** The list and the map hold the same elements, under distinct keys. */
    ghost predicate Valid()
      reads this
    {
      1 <= max && |ll| <= max && Linked(ll, item)
    }

    ghost function Contents(): (list: seq<Entry<V>>)
      reads this, ll
      ensures |list| == |ll|
      ensures forall i :: 0 <= i < |ll| ==> list[i] == Entry(ll[i].key, ll[i].value)
    {
      Listing(ll)
    }

    constructor (max: nat)
      requires 1 <= max
      ensures Valid() && Contents() == [] && this.max == max
    {
      this.max := max;
      ll := [];
      item := map[];
    }

    lemma KeyPresent(k: Key)
      requires Valid()
      ensures k in item <==> Has(Contents(), k)
    {
      if k in item {
        var i :| 0 <= i < |ll| && ll[i] == item[k];
        assert Contents()[i].key == k;
      }
    }

    method IndexOf(element: Element<V>) returns (i: nat)
      requires element in ll
      ensures i < |ll| && ll[i] == element
    {
      i := 0;
      while ll[i] != element
        invariant 0 <= i < |ll|
        invariant exists j :: i <= j < |ll| && ll[j] == element
        decreases |ll| - i
      {
        i := i + 1;
      }
    }

    /** list.MoveToFront. */
    method MoveToFront(element: Element<V>)
      requires Valid() && element in ll
      modifies this`ll
      ensures Valid() && |ll| == |old(ll)|
      ensures forall e :: e in ll ==> e in old(ll)
      ensures Contents() == [Entry(element.key, element.value)] + Drop(old(Contents()), element.key)
      ensures Find(old(Contents()), element.key) == Some(element.value)
    {
      var i := IndexOf(element);
      MovedLinked(ll, item, i);
      MovedListing(ll, i);
      ll := [ll[i]] + (ll[..i] + ll[i + 1..]);
    }

    method Get(key: Key) returns (r: Option<V>)
      requires Valid()
      modifies this`ll
      ensures Valid() && forall e :: e in ll ==> e in old(ll)
      ensures r == Find(old(Contents()), key)
      ensures Contents() == AfterGet(old(Contents()), key)
    {
      KeyPresent(key);
      if key !in item {
        return None;
      }
      var element := item[key];
      MoveToFront(element);
      return Some(element.value);
    }

    method Put(key: Key, value: V)
      requires Valid()
      modifies this`ll, this`item, ll
      ensures Valid()
      ensures forall e :: e in ll ==> e in old(ll) || (fresh(e) && e.key == key)
      ensures Contents() == AfterPut(old(Contents()), max, key, value)
    {
      KeyPresent(key);
      if key in item {
        var element := item[key];
        element.value := value;
        RewriteDrop(old(Contents()), Contents(), key);
        MoveToFront(element);
        return;
      }
      PushNew(key, value);
      Evict();
    }

    /** Changing the value under k does not change what is left without k. */
    static lemma {:induction false} RewriteDrop(xs: seq<Entry<V>>, ys: seq<Entry<V>>, k: Key)
      requires |xs| == |ys|
      requires forall i :: 0 <= i < |xs| ==> xs[i].key == ys[i].key && (xs[i].key != k ==> xs[i] == ys[i])
      ensures Drop(xs, k) == Drop(ys, k)
    {
      if xs != [] {
        RewriteDrop(xs[1..], ys[1..], k);
      }
    }

    /** Consistent, but one element over capacity at most. */
    ghost predicate Overfull()
      reads this
    {
      1 <= max && 1 <= |ll| <= max + 1 && Linked(ll, item)
    }

    method PushNew(key: Key, value: V)
      requires Valid() && key !in item
      modifies this`ll, this`item
      ensures Overfull()
      ensures |ll| == |old(ll)| + 1 && fresh(ll[0]) && ll[0].key == key && ll == [ll[0]] + old(ll)
      ensures Contents() == [Entry(key, value)] + old(Contents())
    {
      var element := new Element(key, value);
      ghost var before := ll;
      PushedLinked(ll, item, element);
      ll := [element] + ll;
      item := item[key := element];
      ListingPush(element, before);
    }

    method Evict()
      requires Overfull()
      modifies this`ll, this`item
      ensures Valid()
      ensures forall e :: e in ll ==> e in old(ll)
      ensures Contents() == Trim(old(Contents()), max)
    {
      if |ll| > max {
        var oldest := ll[|ll| - 1];
        EvictedLinked(ll, item);
        ll := ll[..|ll| - 1];
        item := item - {oldest.key};
      }
    }
  }

  class Cache<V> {
    const shards: seq<Shard<V>>

    ghost function Elements(): set<Element<V>>
      reads shards
    {
      set s, e | s in shards && e in s.ll :: e
    }

    /** Shards are distinct objects and share no element. */
    ghost predicate Valid()
      reads shards
    {
      && 1 <= |shards|
      && (forall i, j :: 0 <= i < j < |shards| ==> shards[i] != shards[j])
      && (forall i :: 0 <= i < |shards| ==> shards[i].Valid())
      && (forall i :: 0 <= i < |shards| ==> Alone(i))
    }

    ghost predicate Alone(i: nat)
      requires i < |shards|
      reads shards
    {
      forall j, e :: 0 <= j < |shards| && j != i && e in shards[j].ll ==> e !in shards[i].ll
    }

    ghost predicate SizedFor(max: int) {
      |shards| == ShardCount(max) && forall i :: 0 <= i < |shards| ==> shards[i].max == Capacity(max, i)
    }

    constructor (max: int)
      ensures Valid() && SizedFor(max)
      ensures forall i :: 0 <= i < |shards| ==> shards[i].Contents() == []
    {
      var clamped := if max < 1 then 1 else max;
      var count := 1;
      if clamped >= SHARD_THRESHOLD {
        count := SHARD_COUNT;
      }
      var built: seq<Shard<V>> := [];
      var base, rem := clamped / count, clamped % count;
      for i := 0 to count
        invariant |built| == i
        invariant forall j :: 0 <= j < i ==> fresh(built[j]) && built[j].Valid() && built[j].ll == []
        invariant forall j :: 0 <= j < i ==> built[j].max == Capacity(max, j)
        invariant forall j, k :: 0 <= j < k < i ==> built[j] != built[k]
      {
        var shardMax := base;
        if i < rem {
          shardMax := shardMax + 1;
        }
        if shardMax < 1 {
          shardMax := 1;
        }
        var shard := new Shard<V>(shardMax);
        built := built + [shard];
      }
      shards := built;
    }

    /** The inline FNV-1a loop. */
    method Hash(key: Key) returns (h: bv32)
      ensures h == Fnv(key.bytes)
    {
      h := OFFSET32;
      for j := 0 to |key.bytes|
        invariant h == Fnv(key.bytes[..j])
      {
        FnvStep(key.bytes, j);
        h := Mix(h, key.bytes[j]);
      }
      assert key.bytes[..|key.bytes|] == key.bytes;
    }

    method ShardFor(key: Key) returns (i: nat)
      requires 1 <= |shards|
      ensures i == ShardOf(key, |shards|)
    {
      var h := Hash(key);
      i := (h as int) % |shards|;
    }

    method Get(key: Key) returns (r: Option<V>)
      requires Valid()
      modifies shards
      ensures Valid()
      ensures var i := ShardOf(key, |shards|);
              && r == old(Find(shards[i].Contents(), key))
              && shards[i].Contents() == AfterGet(old(shards[i].Contents()), key)
      ensures forall j :: 0 <= j < |shards| && j != ShardOf(key, |shards|) ==>
                shards[j].Contents() == old(shards[j].Contents())
    {
      var i := ShardFor(key);
      r := GetAlone(i, key);
    }

    method GetAlone(i: nat, key: Key) returns (r: Option<V>)
      requires Valid() && i < |shards|
      modifies shards[i]
      ensures Valid() && r == old(Find(shards[i].Contents(), key))
      ensures shards[i].Contents() == AfterGet(old(shards[i].Contents()), key)
      ensures forall j :: 0 <= j < |shards| && j != i ==> shards[j].Contents() == old(shards[j].Contents())
    {
      assert Alone(i);
      r := GetAt(i, key);
      forall j | 0 <= j < |shards| && j != i
        ensures shards[j].Contents() == old(shards[j].Contents())
      {
        assert shards[j].ll == old(shards[j].ll);
      }
    }

    /** Get in one shard; the others are untouched. */
    method GetAt(i: nat, key: Key) returns (r: Option<V>)
      requires Valid() && i < |shards|
      modifies shards[i]
      ensures Valid() && r == old(Find(shards[i].Contents(), key))
      ensures shards[i].Contents() == AfterGet(old(shards[i].Contents()), key)
    {
      r := shards[i].Get(key);
      forall k | 0 <= k < |shards|
        ensures shards[k].Valid() && Alone(k)
      {
        if k != i {
          assert shards[k].ll == old(shards[k].ll);
        }
        assert old(Alone(k)) && old(Alone(i));
      }
    }

    method Put(key: Key, value: V)
      requires Valid()
      modifies shards, Elements()
      ensures Valid()
      ensures var i := ShardOf(key, |shards|);
              shards[i].Contents() == AfterPut(old(shards[i].Contents()), shards[i].max, key, value)
      ensures forall j :: 0 <= j < |shards| && j != ShardOf(key, |shards|) ==>
                shards[j].Contents() == old(shards[j].Contents())
    {
      var i := ShardFor(key);
      assert forall e :: e in shards[i].ll ==> e in Elements();
      PutAlone(i, key, value);
    }

    /** Put in one shard; the others hold what they held. */
    method PutAlone(i: nat, key: Key, value: V)
      requires Valid() && i < |shards|
      modifies shards[i], shards[i].ll
      ensures Valid()
      ensures shards[i].Contents() == AfterPut(old(shards[i].Contents()), shards[i].max, key, value)
      ensures forall j :: 0 <= j < |shards| && j != i ==> shards[j].Contents() == old(shards[j].Contents())
    {
      assert Alone(i);
      PutAt(i, key, value);
      forall j | 0 <= j < |shards| && j != i
        ensures shards[j].Contents() == old(shards[j].Contents())
      {
        assert shards[j].ll == old(shards[j].ll);
      }
    }

    method PutAt(i: nat, key: Key, value: V)
      requires Valid() && i < |shards|
      modifies shards[i], shards[i].ll
      ensures Valid()
      ensures shards[i].Contents() == AfterPut(old(shards[i].Contents()), shards[i].max, key, value)
    {
      shards[i].Put(key, value);
      forall k | 0 <= k < |shards|
        ensures shards[k].Valid() && Alone(k)
      {
        assert old(Alone(k)) && old(Alone(i));
        forall j, e | 0 <= j < |shards| && j != k && e in shards[j].ll
          ensures e !in shards[k].ll
        {
          assert k != i ==> shards[k].ll == old(shards[k].ll);
          assert j != i ==> shards[j].ll == old(shards[j].ll);
        }
      }
    }

    ghost function Sizes(): (ns: seq<nat>)
      reads shards
      ensures |ns| == |shards| && forall i :: 0 <= i < |ns| ==> ns[i] == |shards[i].ll|
    {
      seq(|shards|, i requires 0 <= i < |shards| reads shards => |shards[i].ll|)
    }

    method Len() returns (total: nat)
      ensures total == Total(Sizes())
    {
      total := 0;
      for i := 0 to |shards|
        invariant total == Total(Sizes()[..i])
      {
        assert Sizes()[..i + 1][..i] == Sizes()[..i];
        total := total + |shards[i].ll|;
      }
      assert Sizes()[..|shards|] == Sizes();
    }

    /** Len never exceeds the capacity the cache was built for. */
    lemma LenWithin(max: int)
      requires Valid() && SizedFor(max)
      ensures Total(Sizes()) <= Clamp(max)
    {
      TotalMonotone(Sizes(), Capacities(max));
      CapacitiesShareMax(max);
    }
  }
}
