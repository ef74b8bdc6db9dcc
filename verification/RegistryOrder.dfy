/** Dependency-first component order (scripts/ci/verify_component_registry.py,
    resolve_components): a depth-first search with three node states, which also
    serves load_registry as its cycle check. */
module RegistryOrder {

  /** For every registered component, its declared dependencies. */
  type Graph<T(==)> = map<T, seq<T>>

  predicate Distinct<T(==)>(s: seq<T>) {
    forall i, j :: 0 <= i < j < |s| ==> s[i] != s[j]
  }

  /** Every component comes after all its dependencies. */
  predicate DependencyFirst<T(==)>(g: Graph<T>, order: seq<T>) {
    forall i :: 0 <= i < |order| ==> order[i] in g && forall d :: d in g[order[i]] ==> d in order[..i]
  }

  predicate Follows<T(==)>(g: Graph<T>, path: seq<T>) {
    forall i :: 0 <= i < |path| - 1 ==> path[i] in g && path[i + 1] in g[path[i]]
  }

  predicate IsCycle<T(==)>(g: Graph<T>, path: seq<T>) {
    |path| >= 2 && path[0] == path[|path| - 1] && Follows(g, path)
  }

  /** Some chain of dependencies leads from one component to the other. */
  ghost predicate Reaches<T(!new)>(g: Graph<T>, from: T, to: T) {
    exists path :: path != [] && path[0] == from && path[|path| - 1] == to && Follows(g, path)
  }

  ghost predicate OnCycle<T(!new)>(g: Graph<T>, n: T) {
    exists path :: IsCycle(g, path) && path[0] == n
  }

  /** Everything a component needs, itself included, is registered and on no cycle. */
  ghost predicate Resolvable<T(!new)>(g: Graph<T>, n: T) {
    forall m :: Reaches(g, n, m) ==> m in g && !OnCycle(g, m)
  }

  datatype Outcome<T> =
    | Ordered(order: seq<T>)
    | NothingRequested
    | UnknownComponent(name: T)
    | DependencyCycle(path: seq<T>)

  /** What is reported does stand in the way of this component: it needs the unknown
      name, or the start of the cycle. */
  ghost predicate Blocks<T(!new)>(g: Graph<T>, r: Outcome<T>, n: T) {
    match r
    case UnknownComponent(name) => name !in g && Reaches(g, n, name)
    case DependencyCycle(path) => IsCycle(g, path) && Reaches(g, n, path[0])
    case _ => false
  }

  // ---------------------------------------------------------------- what an order means

  function IndexOf<T(==)>(s: seq<T>, x: T): (i: nat)
    requires x in s
    ensures i < |s| && s[i] == x && x !in s[..i]
  {
    if s[0] == x then 0 else IndexOf(s[1..], x) + 1
  }

  /** The first names of a list are ordered. */
  predicate Handled<T(==)>(names: seq<T>, i: nat, order: seq<T>) {
    i <= |names| && forall k :: 0 <= k < i ==> names[k] in order
  }

  lemma HandledNext<T>(names: seq<T>, i: nat, order: seq<T>, longer: seq<T>)
    requires i < |names| && Handled(names, i, order) && order <= longer && names[i] in longer
    ensures Handled(names, i + 1, longer)
  {
    forall k | 0 <= k < i ensures names[k] in longer {
      assert longer[IndexOf(order, names[k])] == names[k];
    }
  }

  lemma PrefixHolds<T>(s: seq<T>, j: nat, k: nat)
    ensures j < k <= |s| ==> s[j] in s[..k]
  {
    if j < k <= |s| {
      assert s[..k][j] == s[j];
    }
  }

  lemma EarlierThan<T>(s: seq<T>, x: T, i: nat)
    requires i <= |s| && x in s[..i]
    ensures x in s && IndexOf(s, x) < i
  {
    var j := IndexOf(s[..i], x);
    assert s[j] == x;
    PrefixHolds(s, j, IndexOf(s, x));
  }

  /** Along a chain of dependencies the position in the order only goes down. */
  lemma {:induction false} PathsGoDown<T>(g: Graph<T>, order: seq<T>, path: seq<T>)
    requires DependencyFirst(g, order) && Follows(g, path) && path != [] && path[0] in order
    ensures path[|path| - 1] in order
    ensures |path| > 1 ==> IndexOf(order, path[|path| - 1]) < IndexOf(order, path[0])
  {
    if |path| > 1 {
      EarlierThan(order, path[1], IndexOf(order, path[0]));
      PathsGoDown(g, order, path[1..]);
    }
  }

  /** So an order rules out every cycle through its members. */
  lemma OrderExcludesCycles<T>(g: Graph<T>, order: seq<T>, path: seq<T>)
    requires DependencyFirst(g, order) && path != [] && path[0] in order
    ensures !IsCycle(g, path)
  {
    if Follows(g, path) {
      PathsGoDown(g, order, path);
    }
  }

  lemma ReachesItself<T(!new)>(g: Graph<T>, n: T)
    ensures Reaches(g, n, n)
  {
    assert Follows(g, [n]) && [n][0] == n;
  }

  lemma ReachesOn<T(!new)>(g: Graph<T>, n: T, d: T, m: T)
    requires n in g && d in g[n] && Reaches(g, d, m)
    ensures Reaches(g, n, m)
  {
    var path :| path != [] && path[0] == d && path[|path| - 1] == m && Follows(g, path);
    var longer := [n] + path;
    assert longer[0] == n && longer[|longer| - 1] == m;
    forall i | 0 <= i < |longer| - 1 ensures longer[i] in g && longer[i + 1] in g[longer[i]] {
      if i > 0 {
        assert longer[i] == path[i - 1] && longer[i + 1] == path[i];
      }
    }
  }

  lemma BlocksOn<T(!new)>(g: Graph<T>, r: Outcome<T>, n: T, d: T)
    requires n in g && d in g[n] && Blocks(g, r, d)
    ensures Blocks(g, r, n)
  {
    ReachesOn(g, n, d, if r.UnknownComponent? then r.name else r.path[0]);
  }

  /** Members of an order have nothing in their way ... */
  lemma OrderedIsResolvable<T(!new)>(g: Graph<T>, order: seq<T>, n: T)
    requires DependencyFirst(g, order) && n in order
    ensures Resolvable(g, n)
  {
    forall m | Reaches(g, n, m) ensures m in g && !OnCycle(g, m) {
      var path :| path != [] && path[0] == n && path[|path| - 1] == m && Follows(g, path);
      PathsGoDown(g, order, path);
      forall cycle | cycle != [] && cycle[0] == m ensures !IsCycle(g, cycle) {
        OrderExcludesCycles(g, order, cycle);
      }
    }
  }

  /** ... and what is reported instead of an order rules one out. */
  lemma BlockedIsUnresolvable<T(!new)>(g: Graph<T>, r: Outcome<T>, n: T)
    requires Blocks(g, r, n)
    ensures !Resolvable(g, n)
  {
    if r.DependencyCycle? {
      assert OnCycle(g, r.path[0]);
    }
  }

  // ---------------------------------------------------------------- which order it is

  /** The order after a component's turn: unchanged when it is there already, otherwise
      longer by what its dependencies add, one after the other, and then itself. */
  ghost predicate Visited<T(!new)>(g: Graph<T>, before: seq<T>, name: T, after: seq<T>)
    decreases |after|, 0
  {
    if name in before then after == before
    else
      after != [] && after[|after| - 1] == name && name in g
      && VisitedAll(g, before, g[name], after[..|after| - 1])
  }

  ghost predicate VisitedAll<T(!new)>(g: Graph<T>, before: seq<T>, names: seq<T>, after: seq<T>)
    decreases |after|, 1 + |names|
  {
    if names == [] then after == before
    else
      exists k :: 0 <= k <= |after| && VisitedAll(g, before, names[..|names| - 1], after[..k])
                  && Visited(g, after[..k], names[|names| - 1], after)
  }

  lemma VisitedNow<T(!new)>(g: Graph<T>, before: seq<T>, name: T, mid: seq<T>, after: seq<T>)
    requires name !in before && name in g && VisitedAll(g, before, g[name], mid) && after == mid + [name]
    ensures Visited(g, before, name, after)
  {
    assert after[..|after| - 1] == mid;
  }

  lemma VisitedNext<T(!new)>(g: Graph<T>, before: seq<T>, names: seq<T>, i: nat, mid: seq<T>, after: seq<T>)
    requires i < |names| && VisitedAll(g, before, names[..i], mid) && mid <= after && Visited(g, mid, names[i], after)
    ensures VisitedAll(g, before, names[..i + 1], after)
  {
    assert names[..i + 1][..i] == names[..i];
    assert after[..|mid|] == mid;
  }

  /** The order of a list of names. */
  ghost predicate OrderOf<T(!new)>(g: Graph<T>, names: seq<T>, order: seq<T>) {
    Distinct(order) && DependencyFirst(g, order) && VisitedAll(g, [], names, order)
  }

  // ---------------------------------------------------------------- the search

  class Resolver<T(==,!new)> {
    const graph: Graph<T>
    /** 1 while on the stack, 2 once ordered. */
    var state: map<T, int>
    var ordered: seq<T>
    var stack: seq<T>

    constructor (graph: Graph<T>)
      ensures this.graph == graph && Valid() && ordered == [] && stack == []
    {
      this.graph := graph;
      state, ordered, stack := map[], [], [];
    }

    ghost predicate Valid()
      reads this
    {
      && (forall n :: n in state ==> n in graph && (state[n] == 1 || state[n] == 2))
      && (forall n :: n in ordered <==> n in state && state[n] == 2)
      && (forall n :: n in stack <==> n in state && state[n] == 1)
      && Distinct(ordered)
      && Distinct(stack)
      && DependencyFirst(graph, ordered)
      && Follows(graph, stack)
    }

    ghost function Unvisited(): set<T>
      reads this
    {
      graph.Keys - state.Keys
    }

    /** A component in progress goes on the stack. */
    method Enter(name: T)
      requires Valid() && name in graph && name !in state
      requires stack == [] || name in graph[stack[|stack| - 1]]
      modifies this
      ensures Valid() && stack == old(stack) + [name] && ordered == old(ordered)
      ensures Unvisited() == old(Unvisited()) - {name} && name in old(Unvisited())
    {
      state := state[name := 1];
      stack := stack + [name];
    }

    /** A component whose dependencies are all ordered is ordered itself. */
    method Leave(name: T)
      requires Valid() && stack != [] && stack[|stack| - 1] == name && name in graph
      requires forall d :: d in graph[name] ==> d in ordered
      modifies this
      ensures Valid() && stack == old(stack[..|stack| - 1]) && ordered == old(ordered) + [name]
      ensures Unvisited() == old(Unvisited())
    {
      stack := stack[..|stack| - 1];
      state := state[name := 2];
      ordered := ordered + [name];
      assert forall i :: 0 <= i < |ordered| - 1 ==> ordered[..i] == old(ordered)[..i];
      assert ordered[..|ordered| - 1] == old(ordered);
    }

    /** The stack from the repeated component on, closed up. */
    method CycleFrom(name: T) returns (path: seq<T>)
      requires Valid() && name in stack && name in graph[stack[|stack| - 1]]
      ensures IsCycle(graph, path) && path[0] == name
    {
      var start := IndexOf(stack, name);
      path := stack[start..] + [name];
    }

    /** Orders a component after everything it depends on, and nothing else, or
        reports what stands in its way. */
    method Visit(name: T) returns (r: Outcome<T>)
      requires Valid() && (stack == [] || name in graph[stack[|stack| - 1]])
      modifies this
      ensures r.Ordered? ==> Valid() && stack == old(stack) && r.order == ordered
      ensures r.Ordered? ==> name in ordered && old(ordered) <= ordered && Unvisited() <= old(Unvisited())
      ensures r.Ordered? ==> Visited(graph, old(ordered), name, ordered)
      ensures r.Ordered? ==> forall m :: m in ordered && m !in old(ordered) ==> Reaches(graph, name, m)
      ensures !r.Ordered? ==> Blocks(graph, r, name)
      decreases Unvisited(), 0
    {
      ReachesItself(graph, name);
      if name !in graph {
        return UnknownComponent(name);
      }
      var current := if name in state then state[name] else 0;
      if current == 2 {
        return Ordered(ordered);
      }
      if current == 1 {
        var path := CycleFrom(name);
        return DependencyCycle(path);
      }
      Enter(name);
      r := VisitDependencies(name);
      if !r.Ordered? {
        return r;
      }
      ghost var mid := ordered;
      Leave(name);
      VisitedNow(graph, old(ordered), name, mid, ordered);
      return Ordered(ordered);
    }

    method VisitDependencies(name: T) returns (r: Outcome<T>)
      requires Valid() && stack != [] && stack[|stack| - 1] == name && name in graph
      modifies this
      ensures r.Ordered? ==> Valid() && stack == old(stack)
      ensures r.Ordered? ==> old(ordered) <= ordered && Unvisited() <= old(Unvisited())
      ensures r.Ordered? ==> VisitedAll(graph, old(ordered), graph[name], ordered)
      ensures r.Ordered? ==> forall d :: d in graph[name] ==> d in ordered
      ensures r.Ordered? ==> forall m :: m in ordered && m !in old(ordered) ==> Reaches(graph, name, m)
      ensures !r.Ordered? ==> Blocks(graph, r, name)
      decreases Unvisited(), 1
    {
      var deps := graph[name];
      for i := 0 to |deps|
        invariant Valid() && stack == old(stack)
        invariant old(ordered) <= ordered && Unvisited() <= old(Unvisited())
        invariant Handled(deps, i, ordered)
        invariant VisitedAll(graph, old(ordered), deps[..i], ordered)
        invariant forall m :: m in ordered && m !in old(ordered) ==> Reaches(graph, name, m)
      {
        ghost var before := ordered;
        var v := Visit(deps[i]);
        if !v.Ordered? {
          BlocksOn(graph, v, name, deps[i]);
          return v;
        }
        HandledNext(deps, i, before, ordered);
        VisitedNext(graph, old(ordered), deps, i, before, ordered);
        forall m | m in ordered && m !in before ensures Reaches(graph, name, m) {
          ReachesOn(graph, name, deps[i], m);
        }
      }
      assert deps[..|deps|] == deps;
      return Ordered(ordered);
    }
  }

  /** dict.fromkeys: the first occurrence of every name. */
  function Unique<T(==,!new)>(names: seq<T>): (r: seq<T>)
    ensures Distinct(r) && forall n :: n in r <==> n in names
    ensures r == [] <==> names == []
  {
    if names == [] then []
    else
      var front := Unique(names[..|names| - 1]);
      var last := names[|names| - 1];
      if last in front then front else front + [last]
  }

  lemma {:induction false} VisitedGrows<T(!new)>(g: Graph<T>, before: seq<T>, names: seq<T>, after: seq<T>)
    requires VisitedAll(g, before, names, after)
    ensures before <= after && forall n :: n in names ==> n in after
    decreases |after|, 1 + |names|
  {
    if names != [] {
      var front, last := names[..|names| - 1], names[|names| - 1];
      var k :| 0 <= k <= |after| && VisitedAll(g, before, front, after[..k]) && Visited(g, after[..k], last, after);
      VisitedGrows(g, before, front, after[..k]);
      if last !in after[..k] {
        VisitedGrows(g, after[..k], g[last], after[..|after| - 1]);
      }
      assert names == front + [last];
    }
  }

  /** A name asked for again changes nothing. */
  lemma {:induction false} UniqueVisits<T(!new)>(g: Graph<T>, names: seq<T>, after: seq<T>)
    requires VisitedAll(g, [], Unique(names), after)
    ensures VisitedAll(g, [], names, after)
    decreases |names|
  {
    if names != [] {
      var front, last := names[..|names| - 1], names[|names| - 1];
      if last in Unique(front) {
        UniqueVisits(g, front, after);
        VisitedGrows(g, [], Unique(front), after);
        assert after[..|after|] == after;
      } else {
        var u := Unique(names);
        assert u == Unique(front) + [last] && u[..|u| - 1] == Unique(front);
        var k :| 0 <= k <= |after| && VisitedAll(g, [], u[..|u| - 1], after[..k])
                 && Visited(g, after[..k], last, after);
        UniqueVisits(g, front, after[..k]);
      }
    }
  }

  /** Everything in the order is needed by a requested component. */
  ghost predicate NeededBy<T(!new)>(g: Graph<T>, requested: seq<T>, order: seq<T>) {
    forall m :: m in order ==> exists n :: n in requested && Reaches(g, n, m)
  }

  lemma NeededByMore<T(!new)>(g: Graph<T>, requested: seq<T>, name: T, before: seq<T>, after: seq<T>)
    requires NeededBy(g, requested, before) && name in requested
    requires forall m :: m in after && m !in before ==> Reaches(g, name, m)
    ensures NeededBy(g, requested, after)
  {
  }

  ghost predicate AllResolvable<T(!new)>(g: Graph<T>, requested: seq<T>) {
    forall n :: n in requested ==> Resolvable(g, n)
  }

  ghost predicate BlocksSome<T(!new)>(g: Graph<T>, r: Outcome<T>, requested: seq<T>) {
    exists n :: n in requested && Blocks(g, r, n)
  }

  lemma SomeIsBlocked<T(!new)>(g: Graph<T>, r: Outcome<T>, requested: seq<T>, name: T)
    requires name in requested && Blocks(g, r, name)
    ensures BlocksSome(g, r, requested) && !AllResolvable(g, requested)
  {
    BlockedIsUnresolvable(g, r, name);
  }

  lemma OrderIsFound<T(!new)>(g: Graph<T>, requested: seq<T>, order: seq<T>)
    requires Distinct(order) && DependencyFirst(g, order) && VisitedAll(g, [], Unique(requested), order)
    ensures OrderOf(g, requested, order) && AllResolvable(g, requested)
    ensures forall n :: n in requested ==> n in order
  {
    UniqueVisits(g, requested, order);
    VisitedGrows(g, [], requested, order);
    forall n | n in requested ensures Resolvable(g, n) {
      OrderedIsResolvable(g, order, n);
    }
  }

  /** An order is found exactly when every requested component is resolvable: it is
      duplicate-free and dependency-first, and it holds the requested names and what
      they need, nothing else.  Otherwise what is reported stands in the way of a
      requested component. */
  method ResolveComponents<T(==,!new)>(graph: Graph<T>, requested: seq<T>) returns (r: Outcome<T>)
    ensures r.NothingRequested? <==> requested == []
    ensures r.Ordered? <==> requested != [] && AllResolvable(graph, requested)
    ensures r.Ordered? ==> Distinct(r.order) && DependencyFirst(graph, r.order) && OrderOf(graph, requested, r.order)
    ensures r.Ordered? ==> forall n :: n in requested ==> n in r.order
    ensures r.Ordered? ==> NeededBy(graph, requested, r.order)
    ensures r.Ordered? || r.NothingRequested? || BlocksSome(graph, r, requested)
  {
    var names := Unique(requested);
    if names == [] {
      return NothingRequested;
    }
    var resolver := new Resolver(graph);
    for i := 0 to |names|
      invariant resolver.Valid() && resolver.stack == []
      invariant VisitedAll(graph, [], names[..i], resolver.ordered)
      invariant NeededBy(graph, requested, resolver.ordered)
    {
      assert names[i] in requested;
      ghost var before := resolver.ordered;
      var v := resolver.Visit(names[i]);
      if !v.Ordered? {
        SomeIsBlocked(graph, v, requested, names[i]);
        return v;
      }
      NeededByMore(graph, requested, names[i], before, resolver.ordered);
      VisitedNext(graph, [], names, i, before, resolver.ordered);
    }
    assert names[..|names|] == names;
    OrderIsFound(graph, requested, resolver.ordered);
    return Ordered(resolver.ordered);
  }
}
