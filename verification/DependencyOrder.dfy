/** Which of the dependency-first orders resolve_components gives
    (scripts/ci/verify_component_registry.py): two laws that leave no choice. */
module DependencyOrder {
  import opened RegistryOrder

  /** What of a list is not in another one, in the order it has. */
  function Without<T(==)>(s: seq<T>, gone: seq<T>): seq<T> {
    if s == [] then []
    else
      var front, last := Without(s[..|s| - 1], gone), s[|s| - 1];
      if last in gone then front else front + [last]
  }

  lemma {:induction false} WithoutHas<T(!new)>(s: seq<T>, gone: seq<T>, x: T)
    ensures x in Without(s, gone) <==> x in s && x !in gone
  {
    if s != [] {
      WithoutHas(s[..|s| - 1], gone, x);
      assert s == s[..|s| - 1] + [s[|s| - 1]];
    }
  }

  lemma SeqAssoc<T>(a: seq<T>, b: seq<T>, c: seq<T>)
    ensures (a + b) + c == a + (b + c)
  {
  }

  lemma WithoutSnoc<T(!new)>(s: seq<T>, x: T, gone: seq<T>)
    ensures Without(s + [x], gone) == if x in gone then Without(s, gone) else Without(s, gone) + [x]
  {
    assert (s + [x])[..|s|] == s;
  }

  lemma WithoutFurther<T(!new)>(s: seq<T>, front: seq<T>, last: T, gone: seq<T>)
    requires Without(s + front, gone) == Without(s, gone) + Without(front, gone)
    ensures Without(s + (front + [last]), gone) == Without(s, gone) + Without(front + [last], gone)
  {
    WithoutSnoc(s + front, last, gone);
    WithoutSnoc(front, last, gone);
    SeqAssoc(s, front, [last]);
    SeqAssoc(Without(s, gone), Without(front, gone), [last]);
  }

  lemma {:induction false} WithoutConcat<T(!new)>(s: seq<T>, t: seq<T>, gone: seq<T>)
    ensures Without(s + t, gone) == Without(s, gone) + Without(t, gone)
  {
    if t == [] {
      assert s + t == s;
    } else {
      var front, last := t[..|t| - 1], t[|t| - 1];
      WithoutConcat(s, front, gone);
      WithoutFurther(s, front, last, gone);
      assert t == front + [last];
    }
  }

  lemma {:induction false} WithoutAll<T(!new)>(s: seq<T>, gone: seq<T>)
    requires Within(s, gone)
    ensures Without(s, gone) == []
  {
    if s != [] {
      assert forall x :: x in s[..|s| - 1] ==> x in s;
      WithoutAll(s[..|s| - 1], gone);
    }
  }

  /** Only what the list can lose matters. */
  lemma {:induction false} WithoutSame<T(!new)>(s: seq<T>, gone: seq<T>, more: seq<T>)
    requires forall x :: x in s ==> (x in gone <==> x in more)
    ensures Without(s, gone) == Without(s, more)
  {
    if s != [] {
      assert forall x :: x in s[..|s| - 1] ==> x in s;
      assert s[|s| - 1] in s;
      WithoutSame(s[..|s| - 1], gone, more);
    }
  }

  predicate Within<T(==,!new)>(s: seq<T>, t: seq<T>) {
    forall x :: x in s ==> x in t
  }

  /** Everything in the list is registered and has its dependencies there too. */
  predicate Closed<T(==,!new)>(g: Graph<T>, s: seq<T>) {
    forall x :: x in s ==> x in g && Within(g[x], s)
  }

  lemma FirstIsClosed<T(!new)>(g: Graph<T>, order: seq<T>, k: nat)
    requires DependencyFirst(g, order) && k <= |order|
    ensures Closed(g, order[..k])
  {
    forall x | x in order[..k] ensures x in g && Within(g[x], order[..k]) {
      var i := IndexOf(order[..k], x);
      assert order[i] == x && order[..k][..i] == order[..i];
    }
  }

  /** A turn whose names are all in a closed list adds only what is in it. */
  lemma {:induction false} StaysWithin<T(!new)>(g: Graph<T>, a: seq<T>, names: seq<T>, after: seq<T>, b: seq<T>)
    requires VisitedAll(g, a, names, after) && Closed(g, b) && Within(a, b) && Within(names, b)
    ensures Within(after, b)
    decreases |after|, 1 + |names|
  {
    if names != [] {
      var front, last := names[..|names| - 1], names[|names| - 1];
      var k :| 0 <= k <= |after| && VisitedAll(g, a, front, after[..k]) && Visited(g, after[..k], last, after);
      StaysWithin(g, a, front, after[..k], b);
      TurnStaysWithin(g, after[..k], last, after, b);
    }
  }

  lemma {:induction false} TurnStaysWithin<T(!new)>(g: Graph<T>, a: seq<T>, name: T, after: seq<T>, b: seq<T>)
    requires Visited(g, a, name, after) && Closed(g, b) && Within(a, b) && name in b
    ensures Within(after, b)
    decreases |after|, 0
  {
    if name !in a {
      var mid := after[..|after| - 1];
      StaysWithin(g, a, g[name], mid, b);
      assert after == mid + [name];
    }
  }

  lemma TurnGrows<T(!new)>(g: Graph<T>, before: seq<T>, name: T, after: seq<T>)
    requires Visited(g, before, name, after)
    ensures before <= after && name in after
  {
    if name !in before {
      VisitedGrows(g, before, g[name], after[..|after| - 1]);
    }
  }

  /** The same turn with more in the list already: it adds what it would have added,
      less what is there. */
  ghost predicate AddsTheRest<T(!new)>(a: seq<T>, after: seq<T>, b: seq<T>, longer: seq<T>) {
    a <= after && longer == b + Without(after[|a|..], b) && Within(after, longer)
  }

  lemma TailJoins<T(!new)>(a: seq<T>, a1: seq<T>, a2: seq<T>)
    requires a <= a1 <= a2
    ensures a2[|a|..] == a1[|a|..] + a2[|a1|..]
  {
  }

  lemma TailSnoc<T(!new)>(a: seq<T>, am: seq<T>, x: T, after: seq<T>)
    requires a <= am && after == am + [x]
    ensures after[|a|..] == am[|a|..] + [x]
  {
  }

  lemma TailIsNew<T(!new)>(a: seq<T>, after: seq<T>, added: seq<T>)
    requires a <= after && Distinct(after) && added == after[|a|..]
    ensures forall x :: x in added ==> x !in a
  {
    forall x | x in added ensures x !in a {
      var j := IndexOf(added, x);
      assert after[|a| + j] == x;
      forall i | 0 <= i < |a| ensures a[i] != x {
        assert after[i] == a[i];
      }
    }
  }

  lemma WithoutOnTop<T(!new)>(first: seq<T>, second: seq<T>, b: seq<T>, b1: seq<T>)
    requires b1 == b + Without(first, b) && forall x :: x in second ==> x !in first
    ensures b1 + Without(second, b1) == b + Without(first + second, b)
  {
    forall x | x in second ensures x in b <==> x in b1 {
      WithoutHas(first, b, x);
    }
    WithoutSame(second, b, b1);
    WithoutConcat(first, second, b);
    SeqAssoc(b, Without(first, b), Without(second, b));
  }

  lemma RestOfBoth<T(!new)>(a: seq<T>, a1: seq<T>, a2: seq<T>, b: seq<T>, b1: seq<T>, b2: seq<T>)
    requires AddsTheRest(a, a1, b, b1) && AddsTheRest(a1, a2, b1, b2) && Distinct(a2)
    ensures AddsTheRest(a, a2, b, b2)
  {
    var first, second := a1[|a|..], a2[|a1|..];
    TailJoins(a, a1, a2);
    TailIsNew(a1, a2, second);
    assert Within(first, a1);
    WithoutOnTop(first, second, b, b1);
  }

  lemma NothingToAdd<T(!new)>(a: seq<T>, after: seq<T>, b: seq<T>)
    requires a <= after && Within(after, b)
    ensures AddsTheRest(a, after, b, b)
  {
    var added := after[|a|..];
    assert Within(added, after);
    WithoutAll(added, b);
  }

  lemma ItselfToo<T(!new)>(a: seq<T>, am: seq<T>, after: seq<T>, b: seq<T>, bm: seq<T>, longer: seq<T>, name: T)
    requires AddsTheRest(a, am, b, bm) && name !in b && after == am + [name] && longer == bm + [name]
    ensures AddsTheRest(a, after, b, longer)
  {
    TailSnoc(a, am, name, after);
    WithoutSnoc(am[|a|..], name, b);
    SeqAssoc(b, Without(am[|a|..], b), [name]);
  }

  lemma {:induction false} TurnAddsTheRest<T(!new)>(g: Graph<T>, a: seq<T>, b: seq<T>, name: T, after: seq<T>,
                                                    longer: seq<T>)
    requires Visited(g, a, name, after) && Visited(g, b, name, longer)
    requires Within(a, b) && Distinct(after) && Closed(g, b) && DependencyFirst(g, longer)
    ensures AddsTheRest(a, after, b, longer)
    decreases |after|, 0
  {
    if name in b {
      TurnGrows(g, a, name, after);
      TurnStaysWithin(g, a, name, after, b);
      NothingToAdd(a, after, b);
    } else {
      var am, bm := after[..|after| - 1], longer[..|longer| - 1];
      PrefixIsFirst(g, longer, |bm|);
      TurnsAddTheRest(g, a, b, g[name], am, bm);
      ItselfToo(a, am, after, b, bm, longer, name);
    }
  }

  lemma PrefixIsFirst<T(!new)>(g: Graph<T>, order: seq<T>, k: nat)
    requires DependencyFirst(g, order) && k <= |order|
    ensures DependencyFirst(g, order[..k])
  {
    forall i | 0 <= i < k
      ensures order[..k][i] in g && forall d :: d in g[order[..k][i]] ==> d in order[..k][..i]
    {
      assert order[..k][..i] == order[..i];
    }
  }

  lemma {:induction false} TurnsAddTheRest<T(!new)>(g: Graph<T>, a: seq<T>, b: seq<T>, names: seq<T>, after: seq<T>,
                                                    longer: seq<T>)
    requires VisitedAll(g, a, names, after) && VisitedAll(g, b, names, longer)
    requires Within(a, b) && Distinct(after) && Closed(g, b) && DependencyFirst(g, longer)
    ensures AddsTheRest(a, after, b, longer)
    decreases |after|, 1 + |names|
  {
    if names != [] {
      var front, last := names[..|names| - 1], names[|names| - 1];
      var i :| 0 <= i <= |after| && VisitedAll(g, a, front, after[..i]) && Visited(g, after[..i], last, after);
      var j :| 0 <= j <= |longer| && VisitedAll(g, b, front, longer[..j]) && Visited(g, longer[..j], last, longer);
      PrefixIsFirst(g, longer, j);
      FirstIsClosed(g, longer, j);
      TurnsAddTheRest(g, a, b, front, after[..i], longer[..j]);
      TurnAddsTheRest(g, after[..i], longer[..j], last, after, longer);
      RestOfBoth(a, after[..i], after, b, longer[..j], longer);
    }
  }

  lemma {:induction false} SameTurns<T(!new)>(g: Graph<T>, before: seq<T>, names: seq<T>, a: seq<T>, b: seq<T>)
    requires VisitedAll(g, before, names, a) && VisitedAll(g, before, names, b)
    ensures a == b
    decreases |a|, 1 + |names|
  {
    if names != [] {
      var front, last := names[..|names| - 1], names[|names| - 1];
      var i :| 0 <= i <= |a| && VisitedAll(g, before, front, a[..i]) && Visited(g, a[..i], last, a);
      var j :| 0 <= j <= |b| && VisitedAll(g, before, front, b[..j]) && Visited(g, b[..j], last, b);
      SameTurns(g, before, front, a[..i], b[..j]);
      if last !in a[..i] {
        SameTurns(g, a[..i], g[last], a[..|a| - 1], b[..|b| - 1]);
        assert a == a[..|a| - 1] + [last] && b == b[..|b| - 1] + [last];
      }
    }
  }

  /** A list of names has one order. */
  lemma OrderIsUnique<T(!new)>(g: Graph<T>, names: seq<T>, a: seq<T>, b: seq<T>)
    requires OrderOf(g, names, a) && OrderOf(g, names, b)
    ensures a == b
  {
    SameTurns(g, [], names, a, b);
  }

  /** One component alone: the order of its dependencies, as it declares them, and
      then itself. */
  lemma OrderOfOne<T(!new)>(g: Graph<T>, name: T, order: seq<T>)
    requires OrderOf(g, [name], order)
    ensures name in g && order != [] && order[|order| - 1] == name
    ensures OrderOf(g, g[name], order[..|order| - 1])
  {
    var k :| 0 <= k <= |order| && VisitedAll(g, [], [name][..0], order[..k]) && Visited(g, order[..k], name, order);
    assert [name][..0] == [] && order[..k] == [];
    PrefixIsFirst(g, order, |order| - 1);
  }

  /** One more name: nothing moves, and what it adds stands as it would alone, less
      what is there already. */
  lemma OrderOfOneMore<T(!new)>(g: Graph<T>, names: seq<T>, name: T, order: seq<T>, alone: seq<T>, longer: seq<T>)
    requires OrderOf(g, names, order) && OrderOf(g, [name], alone) && OrderOf(g, names + [name], longer)
    ensures longer == order + Without(alone, order)
  {
    var all := names + [name];
    assert all[..|all| - 1] == names;
    var k :| 0 <= k <= |longer| && VisitedAll(g, [], names, longer[..k]) && Visited(g, longer[..k], name, longer);
    SameTurns(g, [], names, order, longer[..k]);
    FirstIsClosed(g, longer, k);
    var i :| 0 <= i <= |alone| && VisitedAll(g, [], [name][..0], alone[..i]) && Visited(g, alone[..i], name, alone);
    assert [name][..0] == [] && alone[..i] == [];
    TurnAddsTheRest(g, [], order, name, alone, longer);
    assert alone[|alone[..i]|..] == alone;
  }
}
