/** Which inputs the fingerprint of a registered component covers
    (scripts/ci/verify_component_fingerprint.py, component_fingerprint, without the
    memo table), and how far down the dependencies they reach. */
module ComponentTree {
  import opened ChunkCode
  import opened FingerprintLayout
  import opened Fingerprint
  import opened RegistryOrder
  import opened SortedText

  /** One registry entry.  load_registry always stores both timeouts; here they are
      the text str() prints for them. */
  datatype Definition = Definition(
    dependencies: seq<Bytes>,
    paths: seq<Bytes>,
    goPackages: seq<Bytes>,
    raceEnabled: bool,
    timeout: Bytes,
    raceTimeout: Bytes,
    nodeTests: bool)

  /** Everything a fingerprint run reads: the registry with the order its
      validation found, the working tree, the planned commands of a component in a
      mode, the toolchain in key order, and the environment. */
  datatype World = World(
    registry: map<Bytes, Definition>,
    order: seq<Bytes>,
    probe: Bytes -> PathState,
    read: Bytes -> Bytes,
    isFile: Bytes -> bool,
    plan: (Bytes, Bytes, bool) -> seq<Bytes>,
    tools: seq<(Bytes, Bytes)>,
    goos: Bytes,
    goarch: Bytes)

  function Dependencies(registry: map<Bytes, Definition>): Graph<Bytes> {
    map n | n in registry :: registry[n].dependencies
  }

  /** load_registry accepted the registry: all names are known, no cycle. */
  predicate Loaded(w: World) {
    && DependencyFirst(Dependencies(w.registry), w.order)
    && forall n :: n in w.registry ==> n in w.order
  }

  // ---------------------------------------------------------------- package directories

  predicate StartsWith(s: Bytes, prefix: Bytes) {
    |prefix| <= |s| && s[..|prefix|] == prefix
  }

  predicate EndsWith(s: Bytes, suffix: Bytes) {
    |suffix| <= |s| && s[|s| - |suffix|..] == suffix
  }

  function StripSlashes(s: Bytes): (r: Bytes)
    ensures r == [] || r[|r| - 1] != 47
  {
    if s != [] && s[|s| - 1] == 47 then StripSlashes(s[..|s| - 1]) else s
  }

  /** "./", "/..." and "...". */
  const HERE: Bytes := [46, 47]
  const BELOW: Bytes := [47, 46, 46, 46]
  const DOTS: Bytes := [46, 46, 46]

  function GoPackageDir(package: Bytes): Bytes {
    var value := if StartsWith(package, HERE) then package[2..] else package;
    var bare :=
      if EndsWith(value, BELOW) then value[..|value| - 4]
      else if EndsWith(value, DOTS) then value[..|value| - 3]
      else value;
    StripSlashes(bare)
  }

  /** The directories of the package patterns; a pattern that reduces to nothing is
      skipped. */
  function SourceDirs(packages: seq<Bytes>): seq<Bytes> {
    if packages == [] then []
    else
      var dir := GoPackageDir(packages[0]);
      (if dir == [] then [] else [dir]) + SourceDirs(packages[1..])
  }

  lemma PatternEnds(d: Bytes, tail: Bytes)
    ensures EndsWith(d + tail, tail) && (d + tail)[..|d|] == d
  {
  }

  lemma LastOfSuffix(d: Bytes, tail: Bytes)
    requires d != [] && tail != []
    ensures EndsWith(d, tail) ==> d[|d| - 1] == tail[|tail| - 1]
  {
    if EndsWith(d, tail) {
      assert d[|d| - |tail|..][|tail| - 1] == d[|d| - 1];
    }
  }

  lemma PatternStarts(head: Bytes, d: Bytes)
    ensures StartsWith(head + d, head) && (head + d)[|head|..] == d
  {
  }

  predicate PlainDirectory(d: Bytes) {
    d != [] && d[|d| - 1] != 47 && d[|d| - 1] != 46 && !StartsWith(d, HERE)
  }

  lemma {:induction false} WholeSubtree(d: Bytes)
    requires PlainDirectory(d)
    ensures GoPackageDir(d) == d && GoPackageDir(d + BELOW) == d && !StartsWith(d + BELOW, HERE)
  {
    PatternEnds(d, BELOW);
    LastOfSuffix(d, BELOW);
    LastOfSuffix(d, DOTS);
    StillPlain(d, BELOW);
  }

  lemma StillPlain(d: Bytes, tail: Bytes)
    requires PlainDirectory(d) && (tail != [] ==> tail[0] == 46 || tail[0] == 47)
    ensures tail == [47] || tail == BELOW || tail == DOTS ==> !StartsWith(d + tail, HERE)
  {
    var tree := d + tail;
    assert tree[0] == d[0];
    assert |d| > 1 ==> tree[..2] == d[..2];
  }

  lemma DotsSuffix(d: Bytes)
    requires d != []
    ensures EndsWith(d + DOTS, BELOW) ==> d[|d| - 1] == 47
  {
    var tree := d + DOTS;
    if EndsWith(tree, BELOW) {
      assert tree[|tree| - 4..][0] == tree[|tree| - 4] == d[|d| - 1];
    }
  }

  lemma {:induction false} NameAndDots(d: Bytes)
    requires PlainDirectory(d)
    ensures GoPackageDir(d + DOTS) == d && !StartsWith(d + DOTS, HERE)
  {
    var tree := d + DOTS;
    PatternEnds(d, DOTS);
    StillPlain(d, DOTS);
    DotsSuffix(d);
  }

  lemma {:induction false} NameAndSlash(d: Bytes)
    requires PlainDirectory(d)
    ensures GoPackageDir(d + [47]) == d && !StartsWith(d + [47], HERE)
  {
    var tree := d + [47];
    StillPlain(d, [47]);
    LastOfSuffix(tree, BELOW);
    LastOfSuffix(tree, DOTS);
    assert tree[..|tree| - 1] == d && StripSlashes(d) == d;
    assert StripSlashes(tree) == StripSlashes(tree[..|tree| - 1]);
  }

  lemma FromHere(pattern: Bytes)
    requires !StartsWith(pattern, HERE)
    ensures GoPackageDir(HERE + pattern) == GoPackageDir(pattern)
  {
    PatternStarts(HERE, pattern);
  }

  /** How a package pattern may be written for a directory. */
  predicate Spells(p: Bytes, d: Bytes) {
    || p == d || p == d + BELOW || p == d + DOTS || p == d + [47]
    || p == HERE + d || p == HERE + (d + BELOW) || p == HERE + (d + DOTS) || p == HERE + (d + [47])
  }

  /** A directory is recognised however its package pattern is written. */
  lemma {:induction false} PatternsOfOneDirectory(d: Bytes, p: Bytes)
    requires PlainDirectory(d) && Spells(p, d)
    ensures GoPackageDir(p) == d
  {
    WholeSubtree(d);
    NameAndDots(d);
    NameAndSlash(d);
    FromHere(d);
    FromHere(d + BELOW);
    FromHere(d + DOTS);
    FromHere(d + [47]);
  }

  // ---------------------------------------------------------------- the inputs of one component

  function Probed(w: World, entries: seq<Bytes>): (r: seq<(Bytes, PathState)>)
    ensures |r| == |entries|
    ensures forall i :: 0 <= i < |entries| ==> r[i] == (entries[i], w.probe(entries[i]))
  {
    seq(|entries|, i requires 0 <= i < |entries| => (entries[i], w.probe(entries[i])))
  }

  function AsRead(w: World, name: Bytes): seq<(Bytes, Bytes)> {
    [(name, w.read(name))]
  }

  function GoManifests(w: World, d: Definition): seq<(Bytes, Bytes)> {
    if d.goPackages == [] then [] else AsRead(w, Ascii("go.mod")) + AsRead(w, Ascii("go.sum"))
  }

  function IfFile(w: World, name: Bytes): seq<(Bytes, Bytes)> {
    if w.isFile(name) then AsRead(w, name) else []
  }

  function NodeManifests(w: World, d: Definition): seq<(Bytes, Bytes)> {
    if !d.nodeTests then []
    else
      IfFile(w, Ascii("package.json")) + IfFile(w, Ascii("package-lock.json"))
      + IfFile(w, Ascii("npm-shrinkwrap.json"))
  }

  function SettingsOf(w: World, d: Definition): Settings {
    Settings(d.raceEnabled, d.timeout, d.raceTimeout, GoManifests(w, d) + NodeManifests(w, d),
             w.tools, w.goos, w.goarch)
  }

  lemma DependenciesComeFirst(w: World, name: Bytes)
    requires Loaded(w) && name in w.registry
    ensures forall d :: d in Sorted(w.registry[name].dependencies) ==> d in w.registry && d in w.order
    ensures forall d :: d in Sorted(w.registry[name].dependencies) ==> IndexOf(w.order, d) < IndexOf(w.order, name)
  {
    SameMembers(w.registry[name].dependencies);
    forall d | d in w.registry[name].dependencies
      ensures d in w.registry && d in w.order && IndexOf(w.order, d) < IndexOf(w.order, name)
    {
      EarlierThan(w.order, d, IndexOf(w.order, name));
      assert w.order[IndexOf(w.order, d)] in Dependencies(w.registry);
    }
  }

  function TreeOf(w: World, name: Bytes, mode: Bytes, live: bool): Tree
    requires Loaded(w) && name in w.registry
    decreases IndexOf(w.order, name)
  {
    var d := w.registry[name];
    var names := Sorted(d.dependencies);
    DependenciesComeFirst(w, name);
    Tree(name, mode,
         seq(|names|, i requires 0 <= i < |names| => assert names[i] in names; TreeOf(w, names[i], mode, live)),
         Probed(w, Sorted(d.paths)),
         Probed(w, SourceDirs(Sorted(d.goPackages))),
         w.plan(name, mode, live),
         SettingsOf(w, d))
  }

  lemma GoAreManifests(w: World, d: Definition)
    ensures AllManifests(GoManifests(w, d))
  {
  }

  lemma NodeAreManifests(w: World, d: Definition)
    ensures AllManifests(NodeManifests(w, d))
  {
  }

  /** What is read off a registry satisfies Readable as soon as the toolchain does. */
  lemma ProbedIsReadable(w: World, d: Definition)
    requires w.tools != [] ==> !IsManifest(w.tools[0].0)
    ensures Readable(SettingsOf(w, d))
  {
    GoAreManifests(w, d);
    NodeAreManifests(w, d);
    assert AllManifests(GoManifests(w, d) + NodeManifests(w, d));
  }

  // ---------------------------------------------------------------- reach

  /** The dependencies of a tree are the trees of the sorted dependencies. */
  lemma DependencyTree(w: World, name: Bytes, mode: Bytes, live: bool, i: nat)
    requires Loaded(w) && name in w.registry
    ensures var names, trees := Sorted(w.registry[name].dependencies), TreeOf(w, name, mode, live).dependencies;
            && |trees| == |names|
            && (i < |names| ==>
                  && names[i] in w.registry && names[i] in w.registry[name].dependencies
                  && names[i] in w.order && IndexOf(w.order, names[i]) < IndexOf(w.order, name)
                  && trees[i] == TreeOf(w, names[i], mode, live) && trees[i].name == names[i])
  {
    DependenciesComeFirst(w, name);
    SameMembers(w.registry[name].dependencies);
  }

  lemma SameDependency(w: World, v: World, name: Bytes, d: Bytes, mode: Bytes, wl: bool, vl: bool)
    requires Loaded(w) && Loaded(v) && name in w.registry && name in v.registry
    requires TreeOf(w, name, mode, wl) == TreeOf(v, name, mode, vl)
    requires d in w.registry[name].dependencies
    ensures d in w.registry && d in v.registry && d in v.registry[name].dependencies
    ensures TreeOf(w, d, mode, wl) == TreeOf(v, d, mode, vl)
  {
    SameMembers(w.registry[name].dependencies);
    var ws, vs := Sorted(w.registry[name].dependencies), Sorted(v.registry[name].dependencies);
    var i := IndexOf(ws, d);
    DependencyTree(w, name, mode, wl, i);
    DependencyTree(v, name, mode, vl, i);
  }

  lemma FollowsTail<T>(g: Graph<T>, path: seq<T>)
    requires Follows(g, path) && |path| > 1
    ensures path[0] in g && path[1] in g[path[0]] && Follows(g, path[1..])
    ensures path[1..][0] == path[1] && path[1..][|path| - 2] == path[|path| - 1]
  {
  }

  lemma {:induction false} SameDownTheChain(w: World, v: World, chain: seq<Bytes>, mode: Bytes, wl: bool, vl: bool)
    requires Loaded(w) && Loaded(v) && chain != [] && chain[0] in w.registry && chain[0] in v.registry
    requires Follows(Dependencies(w.registry), chain)
    requires TreeOf(w, chain[0], mode, wl) == TreeOf(v, chain[0], mode, vl)
    ensures chain[|chain| - 1] in w.registry && chain[|chain| - 1] in v.registry
    ensures TreeOf(w, chain[|chain| - 1], mode, wl) == TreeOf(v, chain[|chain| - 1], mode, vl)
  {
    if |chain| > 1 {
      FollowsTail(Dependencies(w.registry), chain);
      SameDependency(w, v, chain[0], chain[1], mode, wl, vl);
      SameDownTheChain(w, v, chain[1..], mode, wl, vl);
    }
  }

  lemma SamePath(w: World, v: World, name: Bytes, p: Bytes, mode: Bytes, wl: bool, vl: bool)
    requires Loaded(w) && Loaded(v) && name in w.registry && name in v.registry
    requires TreeOf(w, name, mode, wl) == TreeOf(v, name, mode, vl)
    requires p in w.registry[name].paths
    ensures p in v.registry[name].paths && w.probe(p) == v.probe(p)
  {
    var ws, vs := Sorted(w.registry[name].paths), Sorted(v.registry[name].paths);
    SameMembers(w.registry[name].paths);
    SameMembers(v.registry[name].paths);
    ProbedAlike(w, v, ws, vs, p);
  }

  lemma {:induction false} PackageIsSource(packages: seq<Bytes>, p: Bytes, dir: Bytes)
    requires p in packages && PlainDirectory(dir) && Spells(p, dir)
    ensures dir in SourceDirs(packages)
  {
    if packages[0] == p {
      PatternsOfOneDirectory(dir, p);
    } else {
      PackageIsSource(packages[1..], p, dir);
    }
  }

  lemma ProbedAlike(w: World, v: World, ws: seq<Bytes>, vs: seq<Bytes>, entry: Bytes)
    requires Probed(w, ws) == Probed(v, vs) && entry in ws
    ensures entry in vs && w.probe(entry) == v.probe(entry)
  {
    var i := IndexOf(ws, entry);
    assert Probed(w, ws)[i] == (entry, w.probe(entry)) && Probed(v, vs)[i] == (vs[i], v.probe(vs[i]));
  }

  lemma SameSource(w: World, v: World, name: Bytes, p: Bytes, dir: Bytes, mode: Bytes, wl: bool, vl: bool)
    requires Loaded(w) && Loaded(v) && name in w.registry && name in v.registry
    requires TreeOf(w, name, mode, wl) == TreeOf(v, name, mode, vl)
    requires p in w.registry[name].goPackages && PlainDirectory(dir) && Spells(p, dir)
    ensures w.probe(dir) == v.probe(dir)
  {
    var ws, vs := Sorted(w.registry[name].goPackages), Sorted(v.registry[name].goPackages);
    SameMembers(w.registry[name].goPackages);
    PackageIsSource(ws, p, dir);
    ProbedAlike(w, v, SourceDirs(ws), SourceDirs(vs), dir);
  }

  // ---------------------------------------------------------------- manifests

  const GO_MANIFESTS: seq<Bytes> := [Ascii("go.mod"), Ascii("go.sum")]
  const NODE_MANIFESTS: seq<Bytes> := [Ascii("package.json"), Ascii("package-lock.json"), Ascii("npm-shrinkwrap.json")]

  function Manifests(w: World, d: Definition): seq<(Bytes, Bytes)> {
    GoManifests(w, d) + NodeManifests(w, d)
  }

  /** Which manifests are covered, and that they are covered as they are read. */
  lemma ManifestCovered(w: World, d: Definition, name: Bytes, content: Bytes)
    requires name in GO_MANIFESTS || name in NODE_MANIFESTS
    ensures (name, content) in Manifests(w, d) <==>
              && content == w.read(name)
              && if name in GO_MANIFESTS then d.goPackages != [] else d.nodeTests && w.isFile(name)
  {
    ManifestNamesDiffer();
    GoCovered(w, d, name, content);
    NodeCovered(w, d, name, content);
  }

  lemma ManifestNamesDiffer()
    ensures forall name :: name in GO_MANIFESTS ==> name !in NODE_MANIFESTS
  {
    assert |Ascii("go.mod")| == 6 && |Ascii("go.sum")| == 6;
    assert |Ascii("package.json")| == 12 && |Ascii("package-lock.json")| == 17 && |Ascii("npm-shrinkwrap.json")| == 19;
  }

  lemma GoCovered(w: World, d: Definition, name: Bytes, content: Bytes)
    ensures (name, content) in GoManifests(w, d) <==>
              name in GO_MANIFESTS && content == w.read(name) && d.goPackages != []
  {
  }

  lemma NodeCovered(w: World, d: Definition, name: Bytes, content: Bytes)
    ensures (name, content) in NodeManifests(w, d) <==>
              name in NODE_MANIFESTS && content == w.read(name) && d.nodeTests && w.isFile(name)
  {
  }

  /** Everything around a component that the fingerprint covers is the same in both
      worlds: its dependencies, its paths and package sources with all files below
      them, its planned commands and settings, the manifests it is built from, the
      toolchain and the platform. */
  ghost predicate SameSurroundings(w: World, v: World, name: Bytes, mode: Bytes, wl: bool, vl: bool)
    requires name in w.registry && name in v.registry
  {
    var d, e := w.registry[name], v.registry[name];
    && (forall x :: x in d.dependencies ==> x in e.dependencies)
    && (forall p :: p in d.paths ==> p in e.paths && w.probe(p) == v.probe(p))
    && (forall p, dir :: p in d.goPackages && PlainDirectory(dir) && Spells(p, dir) ==> w.probe(dir) == v.probe(dir))
    && w.plan(name, mode, wl) == v.plan(name, mode, vl)
    && d.raceEnabled == e.raceEnabled && d.timeout == e.timeout && d.raceTimeout == e.raceTimeout
    && (forall m :: m in GO_MANIFESTS && d.goPackages != [] ==> e.goPackages != [] && w.read(m) == v.read(m))
    && (forall m :: m in NODE_MANIFESTS && d.nodeTests && w.isFile(m) ==>
          e.nodeTests && v.isFile(m) && w.read(m) == v.read(m))
    && w.tools == v.tools && w.goos == v.goos && w.goarch == v.goarch
  }

  lemma SameManifests(w: World, v: World, d: Definition, e: Definition, m: Bytes)
    requires Manifests(w, d) == Manifests(v, e)
    ensures m in GO_MANIFESTS && d.goPackages != [] ==> e.goPackages != [] && w.read(m) == v.read(m)
    ensures m in NODE_MANIFESTS && d.nodeTests && w.isFile(m) ==> e.nodeTests && v.isFile(m) && w.read(m) == v.read(m)
  {
    if m in GO_MANIFESTS || m in NODE_MANIFESTS {
      ManifestNamesDiffer();
      ManifestCovered(w, d, m, w.read(m));
      ManifestCovered(v, e, m, w.read(m));
    }
  }

  lemma SettingsFields(w: World, v: World, name: Bytes, mode: Bytes, wl: bool, vl: bool)
    requires Loaded(w) && Loaded(v) && name in w.registry && name in v.registry
    requires TreeOf(w, name, mode, wl) == TreeOf(v, name, mode, vl)
    ensures var d, e := w.registry[name], v.registry[name];
            && d.raceEnabled == e.raceEnabled && d.timeout == e.timeout && d.raceTimeout == e.raceTimeout
            && Manifests(w, d) == Manifests(v, e)
            && w.tools == v.tools && w.goos == v.goos && w.goarch == v.goarch
    ensures w.plan(name, mode, wl) == v.plan(name, mode, vl)
  {
  }

  lemma SameTreeSameSurroundings(w: World, v: World, name: Bytes, mode: Bytes, wl: bool, vl: bool)
    requires Loaded(w) && Loaded(v) && name in w.registry && name in v.registry
    requires TreeOf(w, name, mode, wl) == TreeOf(v, name, mode, vl)
    ensures SameSurroundings(w, v, name, mode, wl, vl)
  {
    var d, e := w.registry[name], v.registry[name];
    SettingsFields(w, v, name, mode, wl, vl);
    forall x | x in d.dependencies ensures x in e.dependencies {
      SameDependency(w, v, name, x, mode, wl, vl);
    }
    forall p | p in d.paths ensures p in e.paths && w.probe(p) == v.probe(p) {
      SamePath(w, v, name, p, mode, wl, vl);
    }
    forall p, dir | p in d.goPackages && PlainDirectory(dir) && Spells(p, dir) ensures w.probe(dir) == v.probe(dir) {
      SameSource(w, v, name, p, dir, mode, wl, vl);
    }
    forall m ensures m in GO_MANIFESTS && d.goPackages != [] ==> e.goPackages != [] && w.read(m) == v.read(m)
      ensures m in NODE_MANIFESTS && d.nodeTests && w.isFile(m) ==>
                e.nodeTests && v.isFile(m) && w.read(m) == v.read(m)
    {
      SameManifests(w, v, d, e, m);
    }
  }

  /** No stale verdict: while the fingerprint of the first component of a dependency
      chain stays the same, so does everything around the last one. */
  lemma FingerprintReachesDown(H: Hash, w: World, v: World, chain: seq<Bytes>, mode: Bytes, wl: bool, vl: bool)
    requires Loaded(w) && Loaded(v) && chain != [] && chain[0] in w.registry && chain[0] in v.registry
    requires Follows(Dependencies(w.registry), chain)
    requires Print(H, TreeOf(w, chain[0], mode, wl)) == Print(H, TreeOf(v, chain[0], mode, vl))
    requires Proper(H, TreeOf(w, chain[0], mode, wl)) && Proper(H, TreeOf(v, chain[0], mode, vl))
    requires CollisionFree(H, Messages(H, TreeOf(w, chain[0], mode, wl)) + Messages(H, TreeOf(v, chain[0], mode, vl)))
    ensures chain[|chain| - 1] in w.registry && chain[|chain| - 1] in v.registry
    ensures SameSurroundings(w, v, chain[|chain| - 1], mode, wl, vl)
  {
    PrintInjective(H, TreeOf(w, chain[0], mode, wl), TreeOf(v, chain[0], mode, vl));
    SameDownTheChain(w, v, chain, mode, wl, vl);
    SameTreeSameSurroundings(w, v, chain[|chain| - 1], mode, wl, vl);
  }

  /** A fingerprint is of one component in one mode. */
  lemma FingerprintNamesComponent(H: Hash, w: World, v: World, name: Bytes, other: Bytes, mode: Bytes, another: Bytes,
                                  wl: bool, vl: bool)
    requires Loaded(w) && Loaded(v) && name in w.registry && other in v.registry
    requires Print(H, TreeOf(w, name, mode, wl)) == Print(H, TreeOf(v, other, another, vl))
    requires Proper(H, TreeOf(w, name, mode, wl)) && Proper(H, TreeOf(v, other, another, vl))
    requires CollisionFree(H, Messages(H, TreeOf(w, name, mode, wl)) + Messages(H, TreeOf(v, other, another, vl)))
    ensures name == other && mode == another
  {
    PrintInjective(H, TreeOf(w, name, mode, wl), TreeOf(v, other, another, vl));
  }

  // ---------------------------------------------------------------- indifference

  predicate SameUpToOrder(d: Definition, e: Definition) {
    && multiset(d.dependencies) == multiset(e.dependencies)
    && multiset(d.paths) == multiset(e.paths)
    && e == d.(dependencies := e.dependencies, paths := e.paths)
  }

  ghost predicate Reordered(w: World, v: World) {
    && v.probe == w.probe && v.read == w.read && v.isFile == w.isFile && v.plan == w.plan
    && v.tools == w.tools && v.goos == w.goos && v.goarch == w.goarch
    && forall n :: n in w.registry ==> n in v.registry && SameUpToOrder(w.registry[n], v.registry[n])
  }

  lemma SameManifest(w: World, v: World, name: Bytes)
    requires Reordered(w, v)
    ensures AsRead(w, name) == AsRead(v, name) && IfFile(w, name) == IfFile(v, name)
  {
  }

  lemma SameSettings(w: World, v: World, d: Definition, e: Definition)
    requires Reordered(w, v) && SameUpToOrder(d, e)
    ensures SettingsOf(w, d) == SettingsOf(v, e)
  {
    SameManifest(w, v, Ascii("go.mod"));
    SameManifest(w, v, Ascii("go.sum"));
    SameManifest(w, v, Ascii("package.json"));
    SameManifest(w, v, Ascii("package-lock.json"));
    SameManifest(w, v, Ascii("npm-shrinkwrap.json"));
    assert GoManifests(w, d) == GoManifests(v, e);
    assert NodeManifests(w, d) == NodeManifests(v, e);
  }

  lemma SameTop(w: World, v: World, d: Definition, e: Definition)
    requires Reordered(w, v) && SameUpToOrder(d, e)
    ensures Sorted(d.dependencies) == Sorted(e.dependencies)
    ensures Probed(w, Sorted(d.paths)) == Probed(v, Sorted(e.paths))
    ensures Probed(w, SourceDirs(Sorted(d.goPackages))) == Probed(v, SourceDirs(Sorted(e.goPackages)))
    ensures SettingsOf(w, d) == SettingsOf(v, e)
  {
    SortedForgetsOrder(d.dependencies, e.dependencies);
    SortedForgetsOrder(d.paths, e.paths);
    SameSettings(w, v, d, e);
  }

  /** Reordering dependency or path lists in the registry changes no fingerprint. */
  lemma {:induction false} OrderIsIrrelevant(w: World, v: World, name: Bytes, mode: Bytes, live: bool)
    requires Loaded(w) && Loaded(v) && name in w.registry && Reordered(w, v)
    ensures name in v.registry && TreeOf(w, name, mode, live) == TreeOf(v, name, mode, live)
    decreases IndexOf(w.order, name)
  {
    var names := Sorted(w.registry[name].dependencies);
    SameTop(w, v, w.registry[name], v.registry[name]);
    DependenciesComeFirst(w, name);
    var wt, vt := TreeOf(w, name, mode, live).dependencies, TreeOf(v, name, mode, live).dependencies;
    assert |wt| == |names| == |vt|;
    forall i | 0 <= i < |names| ensures wt[i] == vt[i] {
      assert names[i] in names;
      OrderIsIrrelevant(w, v, names[i], mode, live);
    }
    assert wt == vt;
  }
}
