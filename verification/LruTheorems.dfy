/** What a shard of the LRU cache remembers (pkg/cacheutil/lru.go): exactly the
    most recently touched keys with their last values, and never less than a
    smaller cache run on the same operations. */
module LruTheorems {
  import opened RecencyList
  import opened Wrappers

  // ---------------------------------------------------------------- exactness

  /** The keys touched so far, latest first: by every Put and every Get that hit. */
  ghost function Touches<V>(max: nat, ops: seq<Op<V>>): seq<Key> {
    if ops == [] then []
    else
      var before, op := ops[..|ops| - 1], ops[|ops| - 1];
      if op.Put? || Has(State(max, before), op.key) then [op.key] + Touches(max, before)
      else Touches(max, before)
  }

  /** Distinct keys by last touch. */
  ghost function Ranking(log: seq<Key>): seq<Key> {
    if log == [] then [] else [log[0]] + Strike(Ranking(log[1..]), log[0])
  }

  ghost function Strike(ks: seq<Key>, k: Key): seq<Key> {
    if ks == [] then []
    else if ks[0] == k then Strike(ks[1..], k)
    else [ks[0]] + Strike(ks[1..], k)
  }

  /** The other keys touched since the last touch of k. */
  ghost function Since(log: seq<Key>, k: Key): set<Key> {
    if log == [] || log[0] == k then {} else {log[0]} + Since(log[1..], k)
  }

  ghost function Keys<V>(list: seq<Entry<V>>): (ks: seq<Key>)
    ensures |ks| == |list| && forall i :: 0 <= i < |ks| ==> ks[i] == list[i].key
  {
    seq(|list|, i requires 0 <= i < |list| => list[i].key)
  }

  ghost function First(ks: seq<Key>, n: nat): seq<Key> {
    if |ks| <= n then ks else ks[..n]
  }

  // Strike on prefixes

  lemma {:induction false} StrikeFacts(ks: seq<Key>, k: Key)
    ensures forall x :: x in Strike(ks, k) <==> x in ks && x != k
    ensures |Strike(ks, k)| <= |ks|
    ensures k !in ks ==> Strike(ks, k) == ks
  {
    if ks != [] {
      StrikeFacts(ks[1..], k);
      assert ks == [ks[0]] + ks[1..];
    }
  }

  ghost predicate NoRepeat(ks: seq<Key>) {
    forall i, j :: 0 <= i < j < |ks| ==> ks[i] != ks[j]
  }

  lemma {:induction false} StrikeNoRepeat(ks: seq<Key>, k: Key)
    requires NoRepeat(ks)
    ensures NoRepeat(Strike(ks, k))
    ensures k in ks ==> |Strike(ks, k)| == |ks| - 1
  {
    if ks != [] {
      assert NoRepeat(ks[1..]);
      StrikeNoRepeat(ks[1..], k);
      StrikeFacts(ks[1..], k);
      assert ks == [ks[0]] + ks[1..];
      assert ks[0] !in ks[1..];
      assert ks[0] !in Strike(ks[1..], k);
    }
  }

  lemma {:induction false} RankingFacts(log: seq<Key>)
    ensures NoRepeat(Ranking(log))
    ensures forall x :: x in Ranking(log) <==> x in log
  {
    if log != [] {
      RankingFacts(log[1..]);
      StrikeNoRepeat(Ranking(log[1..]), log[0]);
      StrikeFacts(Ranking(log[1..]), log[0]);
      assert log == [log[0]] + log[1..];
    }
  }

  /** Moving a key that ranks among the first n to the front keeps the others of
      the first n ... */
  lemma {:induction false} FirstStrikeIn(ks: seq<Key>, k: Key, n: nat)
    requires NoRepeat(ks) && k in First(ks, n)
    ensures First([k] + Strike(ks, k), n) == [k] + Strike(First(ks, n), k)
  {
    assert n >= 1 && ks != [];
    if ks[0] == k {
      FirstStrikeHead(ks, n);
    } else {
      var rest, tail := First(ks[1..], n - 1), Strike(ks[1..], k);
      assert First(ks, n) == [ks[0]] + rest;
      assert n >= 2;
      FirstStrikeIn(ks[1..], k, n - 1);
      FirstStrikeStep(ks[0], k, tail, rest, n);
    }
  }

  lemma FirstStrikeStep(x: Key, k: Key, tail: seq<Key>, rest: seq<Key>, n: nat)
    requires n >= 2 && x != k && First([k] + tail, n - 1) == [k] + Strike(rest, k)
    ensures First([k] + ([x] + tail), n) == [k] + Strike([x] + rest, k)
  {
    FirstCons(k, tail, n - 1);
    SameTail(k, First(tail, n - 2), Strike(rest, k));
    StrikeCons(x, rest, k);
    FirstCons(x, tail, n - 1);
    FirstCons(k, [x] + tail, n);
  }

  lemma StrikeCons(x: Key, ks: seq<Key>, k: Key)
    ensures Strike([x] + ks, k) == if x == k then Strike(ks, k) else [x] + Strike(ks, k)
  {
    assert ([x] + ks)[1..] == ks;
  }

  lemma FirstCons(x: Key, ks: seq<Key>, n: nat)
    requires n >= 1
    ensures First([x] + ks, n) == [x] + First(ks, n - 1)
  {}

  lemma FirstStrikeHead(ks: seq<Key>, n: nat)
    requires NoRepeat(ks) && ks != [] && n >= 1
    ensures First([ks[0]] + Strike(ks, ks[0]), n) == [ks[0]] + Strike(First(ks, n), ks[0])
  {
    var k := ks[0];
    assert ks == [k] + ks[1..];
    StrikeFacts(ks[1..], k);
    FirstCons(k, ks[1..], n);
    var rest := First(ks[1..], n - 1);
    StrikeFacts(rest, k);
    assert ([k] + rest)[1..] == rest;
  }

  lemma SameTail(k: Key, xs: seq<Key>, ys: seq<Key>)
    requires [k] + xs == [k] + ys
    ensures xs == ys
  {
    assert xs == ([k] + xs)[1..] == ([k] + ys)[1..] == ys;
  }

  /** ... and moving any other key to the front pushes the last of them out. */
  lemma {:induction false} FirstStrikeOut(ks: seq<Key>, k: Key, n: nat)
    requires n >= 1 && k !in First(ks, n)
    ensures First([k] + Strike(ks, k), n) == [k] + First(ks, n - 1)
  {
    if ks != [] {
      assert First(ks, n)[0] == ks[0] != k;
      if n >= 2 {
        assert First(ks, n) == [ks[0]] + First(ks[1..], n - 1);
        FirstStrikeOut(ks[1..], k, n - 1);
        var tail := Strike(ks[1..], k);
        FirstCons(k, tail, n - 1);
        SameTail(k, First(tail, n - 2), First(ks[1..], n - 2));
        FirstCons(ks[0], tail, n - 1);
        FirstCons(k, [ks[0]] + tail, n);
        assert First(ks, n - 1) == [ks[0]] + First(ks[1..], n - 2);
      }
    }
  }

  lemma {:induction false} KeysDrop<V>(list: seq<Entry<V>>, k: Key)
    ensures Keys(Drop(list, k)) == Strike(Keys(list), k)
  {
    if list != [] {
      KeysDrop(list[1..], k);
      assert Keys(list)[1..] == Keys(list[1..]);
    }
  }

  lemma KeysHas<V>(list: seq<Entry<V>>, k: Key)
    ensures Has(list, k) <==> k in Keys(list)
  {}

  /** The shard holds the first max keys of the ranking, in its order. */
  lemma {:induction false} StateIsRanking<V>(max: nat, ops: seq<Op<V>>)
    requires 1 <= max
    ensures Keys(State(max, ops)) == First(Ranking(Touches(max, ops)), max)
  {
    if ops != [] {
      var before, op := ops[..|ops| - 1], ops[|ops| - 1];
      var list, log := State(max, before), Touches(max, before);
      StateIsRanking(max, before);
      KeysHas(list, op.key);
      KeysDrop(list, op.key);
      RankingFacts(log);
      if Has(list, op.key) {
        FirstStrikeIn(Ranking(log), op.key, max);
        StateHit(list, max, op);
      } else if op.Put? {
        FirstStrikeOut(Ranking(log), op.key, max);
        StateNew(list, max, op, Ranking(log));
      }
    }
  }

  lemma StateHit<V>(list: seq<Entry<V>>, max: nat, op: Op<V>)
    requires Has(list, op.key)
    ensures Keys(After(list, max, op)) == [op.key] + Keys(Drop(list, op.key))
  {}

  lemma StateNew<V>(list: seq<Entry<V>>, max: nat, op: Op<V>, ranking: seq<Key>)
    requires op.Put? && !Has(list, op.key) && 1 <= max
    requires Keys(list) == First(ranking, max)
    ensures Keys(After(list, max, op)) == [op.key] + First(ranking, max - 1)
  {
    var after := After(list, max, op);
    assert Keys([Entry(op.key, op.value)] + list) == [op.key] + Keys(list);
  }

  ghost function Elements(ks: seq<Key>): set<Key> {
    set x | x in ks
  }

  lemma ElementsCons(x: Key, ks: seq<Key>)
    ensures Elements([x] + ks) == {x} + Elements(ks)
  {}

  lemma {:induction false} NoRepeatCount(ks: seq<Key>)
    requires NoRepeat(ks)
    ensures |Elements(ks)| == |ks|
  {
    if ks != [] {
      NoRepeatCount(ks[1..]);
      assert ks == [ks[0]] + ks[1..];
      assert Elements(ks) == {ks[0]} + Elements(ks[1..]);
      assert ks[0] !in Elements(ks[1..]);
    }
  }

  /** Striking another key moves a key at most one place forward. */
  lemma {:induction false} StrikeAt(ks: seq<Key>, k: Key, j: nat) returns (i: nat)
    requires j < |ks| && ks[j] != k
    ensures i < |Strike(ks, k)| && Strike(ks, k)[i] == ks[j]
    ensures Elements(Strike(ks, k)[..i]) == Elements(ks[..j]) - {k}
  {
    if j == 0 {
      i := 0;
      assert Elements(ks[..0]) - {k} == {} == Elements(Strike(ks, k)[..0]);
    } else {
      i := StrikeAt(ks[1..], k, j - 1);
      assert ks[..j] == [ks[0]] + ks[1..][..j - 1];
      ElementsCons(ks[0], ks[1..][..j - 1]);
      if ks[0] != k {
        ElementsCons(ks[0], Strike(ks[1..], k)[..i]);
        i := i + 1;
        assert Strike(ks, k)[..i] == [ks[0]] + Strike(ks[1..], k)[..i - 1];
      }
    }
  }

  lemma {:induction false} RankOf(log: seq<Key>, k: Key) returns (i: nat)
    requires k in log
    ensures i < |Ranking(log)| && Ranking(log)[i] == k
    ensures Elements(Ranking(log)[..i]) == Since(log, k)
  {
    if log[0] == k {
      i := 0;
      assert Elements(Ranking(log)[..0]) == {};
    } else {
      assert log == [log[0]] + log[1..];
      var j := RankOf(log[1..], k);
      i := StrikeAt(Ranking(log[1..]), log[0], j);
      ElementsCons(log[0], Strike(Ranking(log[1..]), log[0])[..i]);
      i := i + 1;
      assert Ranking(log)[..i] == [log[0]] + Strike(Ranking(log[1..]), log[0])[..i - 1];
    }
  }

  /** A key's rank is the number of other keys touched since its last touch. */
  lemma {:induction false} RankIsSince(log: seq<Key>, k: Key, n: nat)
    requires k in log
    ensures k in First(Ranking(log), n) <==> |Since(log, k)| < n
  {
    var ranked := Ranking(log);
    var i := RankOf(log, k);
    RankingFacts(log);
    assert NoRepeat(ranked[..i]);
    NoRepeatCount(ranked[..i]);
    if i < n {
      assert First(ranked, n)[i] == k;
    } else {
      assert forall j :: 0 <= j < |First(ranked, n)| ==> First(ranked, n)[j] == ranked[j] != ranked[i];
    }
  }

  /** Exactness: a key is cached iff it was touched and fewer than max other keys
      were touched since. */
  lemma Exact<V>(max: nat, ops: seq<Op<V>>, k: Key)
    requires 1 <= max
    ensures var log := Touches(max, ops);
            Has(State(max, ops), k) <==> k in log && |Since(log, k)| < max
  {
    var log := Touches(max, ops);
    StateIsRanking(max, ops);
    KeysHas(State(max, ops), k);
    RankingFacts(log);
    if k in log {
      RankIsSince(log, k, max);
    }
  }

  // ---------------------------------------------------------------- last written values

  ghost function LastPut<V>(ops: seq<Op<V>>, k: Key): Option<V> {
    if ops == [] then None
    else if ops[|ops| - 1].Put? && ops[|ops| - 1].key == k then Some(ops[|ops| - 1].value)
    else LastPut(ops[..|ops| - 1], k)
  }

  /** Every entry carries the value of the last Put of its key. */
  lemma {:induction false} EntriesAreLastPuts<V>(max: nat, ops: seq<Op<V>>)
    ensures forall e :: e in State(max, ops) ==> LastPut(ops, e.key) == Some(e.value)
  {
    if ops != [] {
      var before, op := ops[..|ops| - 1], ops[|ops| - 1];
      var list := State(max, before);
      EntriesAreLastPuts(max, before);
      forall e | e in After(list, max, op)
        ensures LastPut(ops, e.key) == Some(e.value)
      {
        AfterEntries(list, max, op, e);
      }
    }
  }

  /** What a Get returns after any history: the value of the last Put, if fewer
      than max other keys were touched since the key was; nothing otherwise. */
  lemma GetReturnsLastPut<V>(max: nat, ops: seq<Op<V>>, k: Key)
    requires 1 <= max
    ensures var log := Touches(max, ops);
            Find(State(max, ops), k)
              == if k in log && |Since(log, k)| < max then LastPut(ops, k) else None
  {
    Exact(max, ops, k);
    EntriesAreLastPuts(max, ops);
  }

  // ---------------------------------------------------------------- inclusion

  /** small is a subsequence of large: same entries, same order, some missing. */
  ghost predicate Within<V>(small: seq<Entry<V>>, large: seq<Entry<V>>)
    decreases |large|
  {
    || small == []
    || (large != [] && small[0] == large[0] && Within(small[1..], large[1..]))
    || (large != [] && Within(small, large[1..]))
  }

  lemma {:induction false} WithinFacts<V>(small: seq<Entry<V>>, large: seq<Entry<V>>)
    requires Within(small, large)
    ensures |small| <= |large|
    ensures forall e :: e in small ==> e in large
    decreases |large|
  {
    if small != [] {
      assert large == [large[0]] + large[1..] && small == [small[0]] + small[1..];
      if small[0] == large[0] && Within(small[1..], large[1..]) {
        WithinFacts(small[1..], large[1..]);
      } else {
        WithinFacts(small, large[1..]);
      }
    }
  }

  lemma {:induction false} WithinDrop<V>(small: seq<Entry<V>>, large: seq<Entry<V>>, k: Key)
    requires Within(small, large)
    ensures Within(Drop(small, k), Drop(large, k))
    decreases |large|
  {
    if small != [] {
      if small[0] == large[0] && Within(small[1..], large[1..]) {
        WithinDrop(small[1..], large[1..], k);
        if small[0].key != k {
          var s, l := Drop(small, k), Drop(large, k);
          assert s[1..] == Drop(small[1..], k) && l[1..] == Drop(large[1..], k);
        }
      } else {
        WithinDrop(small, large[1..], k);
        if large[0].key != k {
          assert Drop(large, k)[1..] == Drop(large[1..], k);
        }
      }
    }
  }

  lemma WithinFront<V>(e: Entry<V>, small: seq<Entry<V>>, large: seq<Entry<V>>)
    requires Within(small, large)
    ensures Within([e] + small, [e] + large)
    ensures Within(small, [e] + large)
  {
    assert ([e] + small)[1..] == small && ([e] + large)[1..] == large;
  }

  lemma {:induction false} WithinTrimSmall<V>(small: seq<Entry<V>>, large: seq<Entry<V>>)
    requires Within(small, large) && small != []
    ensures Within(small[..|small| - 1], large)
    ensures Within(small[..|small| - 1], large[..|large| - 1])
    decreases |large|
  {
    var s, l := small[..|small| - 1], large[..|large| - 1];
    if s != [] {
      assert s[0] == small[0] && s[1..] == small[1..][..|small| - 2];
      if small[0] == large[0] && Within(small[1..], large[1..]) {
        WithinTrimSmall(small[1..], large[1..]);
        WithinFacts(small[1..], large[1..]);
        assert l[1..] == large[1..][..|large| - 2];
      } else {
        WithinTrimSmall(small, large[1..]);
        WithinFacts(small, large[1..]);
        assert l[1..] == large[1..][..|large| - 2];
      }
    }
  }

  /** The smaller shard is as full as it can be. */
  ghost predicate Aligned<V>(small: seq<Entry<V>>, large: seq<Entry<V>>, c: nat) {
    Within(small, large) && |small| == if |large| <= c then |large| else c
  }

  lemma AlignedPut<V>(small: seq<Entry<V>>, large: seq<Entry<V>>, c: nat, c': nat, k: Key, v: V)
    requires 1 <= c <= c' && Shape(small, c) && Shape(large, c') && Aligned(small, large, c)
    ensures Aligned(AfterPut(small, c, k, v), AfterPut(large, c', k, v), c)
  {
    var e := Entry(k, v);
    WithinFacts(small, large);
    HasIn(small, k);
    HasIn(large, k);
    WithinDrop(small, large, k);
    WithinFront(e, Drop(small, k), Drop(large, k));
    if Has(small, k) {
      FrontLength(small, k);
      FrontLength(large, k);
    } else if Has(large, k) {
      FrontLength(large, k);
      DropAbsent(small, k);
      MissingMeansFull(small, large, c, k);
      WithinTrimSmall([e] + small, [e] + Drop(large, k));
    } else {
      WithinFront(e, small, large);
      WithinTrimSmall([e] + small, [e] + large);
    }
  }

  lemma MissingMeansFull<V>(small: seq<Entry<V>>, large: seq<Entry<V>>, c: nat, k: Key)
    requires Aligned(small, large, c) && Distinct(large) && Has(large, k) && !Has(small, k)
    ensures |small| == c < |large|
  {
    WithinDrop(small, large, k);
    DropAbsent(small, k);
    FrontLength(large, k);
    WithinFacts(small, Drop(large, k));
  }

  lemma AlignedGet<V>(small: seq<Entry<V>>, large: seq<Entry<V>>, c: nat, c': nat, k: Key)
    requires Shape(small, c) && Shape(large, c') && Aligned(small, large, c)
    ensures Aligned(AfterGet(small, k), AfterGet(large, k), c)
    ensures Has(small, k) ==> Find(small, k) == Find(large, k)
  {
    WithinFacts(small, large);
    HasIn(small, k);
    HasIn(large, k);
    WithinDrop(small, large, k);
    if Has(small, k) {
      FrontLength(small, k);
      FrontLength(large, k);
      var v, w := Find(small, k).value, Find(large, k).value;
      assert Entry(k, v) in large && Entry(k, w) in large;
      assert v == w;
      WithinFront(Entry(k, v), Drop(small, k), Drop(large, k));
    } else if Has(large, k) {
      FrontLength(large, k);
      DropAbsent(small, k);
      WithinFront(Entry(k, Find(large, k).value), small, Drop(large, k));
    }
  }

  /** Inclusion over every history: although a Get miss never inserts, the
      smaller shard stays an order-preserving part of the larger one. */
  lemma {:induction false} SmallerWithinLarger<V>(c: nat, c': nat, ops: seq<Op<V>>)
    requires 1 <= c <= c'
    ensures Aligned(State(c, ops), State(c', ops), c)
  {
    if ops != [] {
      var before, op := ops[..|ops| - 1], ops[|ops| - 1];
      SmallerWithinLarger(c, c', before);
      StateShape(c, before);
      StateShape(c', before);
      match op
      case Get(k) => AlignedGet(State(c, before), State(c', before), c, c', k);
      case Put(k, v) => AlignedPut(State(c, before), State(c', before), c, c', k, v);
    }
  }

  /** Hence every hit of the smaller shard is a hit of the larger, with the same
      value. */
  lemma HitsIncluded<V>(c: nat, c': nat, ops: seq<Op<V>>, k: Key)
    requires 1 <= c <= c'
    ensures Find(State(c, ops), k).Some? ==> Find(State(c', ops), k) == Find(State(c, ops), k)
  {
    SmallerWithinLarger(c, c', ops);
    StateShape(c, ops);
    StateShape(c', ops);
    AlignedGet(State(c, ops), State(c', ops), c, c', k);
  }
}
