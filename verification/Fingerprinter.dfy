/** The running fingerprint computation (scripts/ci/verify_component_fingerprint.py):
    a hasher fed chunk by chunk and a memo table shared by the recursive calls. */
module Fingerprinters {
  import opened ChunkCode
  import opened FingerprintLayout
  import opened Fingerprint
  import opened RegistryOrder
  import opened SortedText
  import opened ComponentTree

  class Hasher {
    /** The bytes fed so far. */
    var fed: Bytes
    ghost var chunks: seq<Bytes>

    ghost predicate Valid()
      reads this
    {
      fed == Encode(chunks)
    }

    constructor ()
      ensures Valid() && chunks == []
    {
      fed := [];
      chunks := [];
    }

    method Update(data: Bytes)
      requires Valid()
      modifies this
      ensures Valid() && chunks == old(chunks) + [data]
    {
      fed := fed + BigEndian(|data|, 8);
      fed := fed + data;
      chunks := chunks + [data];
      assert chunks[..|chunks| - 1] == old(chunks);
      assert fed == old(fed) + Frame(data);
    }
  }

  lemma {:induction false} DirectorySnoc(entry: Bytes, fs: seq<(Bytes, Bytes)>, f: (Bytes, Bytes))
    ensures DirectoryChunks(entry, fs + [f]) == DirectoryChunks(entry, fs) + [Slash(entry, f.0), f.1]
  {
    if fs == [] {
      assert fs + [f] == [f];
    } else {
      DirectorySnoc(entry, fs[1..], f);
      assert (fs + [f])[1..] == fs[1..] + [f];
    }
  }

  lemma {:induction false} TriplesSnoc(tag: Bytes, xs: seq<(Bytes, Bytes)>, x: (Bytes, Bytes))
    ensures Triples(tag, xs + [x]) == Triples(tag, xs) + [tag, x.0, x.1]
  {
    if xs == [] {
      assert xs + [x] == [x];
    } else {
      TriplesSnoc(tag, xs[1..], x);
      assert (xs + [x])[1..] == xs[1..] + [x];
    }
  }

  lemma {:induction false} TaggedSnoc(tag: Bytes, xs: seq<Bytes>, x: Bytes)
    ensures Tagged(tag, xs + [x]) == Tagged(tag, xs) + [tag, x]
  {
    if xs == [] {
      assert xs + [x] == [x];
    } else {
      TaggedSnoc(tag, xs[1..], x);
      assert (xs + [x])[1..] == xs[1..] + [x];
    }
  }

  lemma PairsSnoc(xs: seq<(Bytes, Bytes)>, x: (Bytes, Bytes))
    ensures Pairs(xs + [x]) == Pairs(xs) + [x.0, x.1]
  {
    PairsConcat(xs, [x]);
    assert Pairs([x]) == [x.0, x.1] + Pairs([x][1..]);
  }

  method FeedDirectory(hasher: Hasher, entry: Bytes, files: seq<(Bytes, Bytes)>)
    requires hasher.Valid()
    modifies hasher
    ensures hasher.Valid() && hasher.chunks == old(hasher.chunks) + DirectoryChunks(entry, files)
  {
    for i := 0 to |files|
      invariant hasher.Valid()
      invariant hasher.chunks == old(hasher.chunks) + DirectoryChunks(entry, files[..i])
    {
      hasher.Update(Slash(entry, files[i].0));
      hasher.Update(files[i].1);
      DirectorySnoc(entry, files[..i], files[i]);
      assert files[..i + 1] == files[..i] + [files[i]];
    }
    assert files[..|files|] == files;
  }

  /** _hash_path. */
  method HashPath(H: Hash, entry: Bytes, st: PathState) returns (digest: Bytes)
    ensures digest == PathHash(H, entry, st)
  {
    var hasher := new Hasher();
    match st {
      case File(content) =>
        hasher.Update(entry);
        hasher.Update(content);
        assert hasher.chunks == [entry, content];
      case Directory(files) =>
        FeedDirectory(hasher, entry, files);
      case Missing =>
        hasher.Update(Ascii("<missing:") + entry + Ascii(">"));
        assert hasher.chunks == [Ascii("<missing:") + entry + Ascii(">")];
    }
    assert hasher.chunks == PathChunks(entry, st);
    digest := H(hasher.fed);
  }

  method FeedTriple(hasher: Hasher, tag: Bytes, key: Bytes, digest: Bytes)
    requires hasher.Valid()
    modifies hasher
    ensures hasher.Valid() && hasher.chunks == old(hasher.chunks) + [tag, key, digest]
  {
    hasher.Update(tag);
    hasher.Update(key);
    hasher.Update(digest);
  }

  lemma NextTriple(tag: Bytes, xs: seq<(Bytes, Bytes)>, i: nat, before: seq<Bytes>)
    requires i < |xs|
    ensures before + Triples(tag, xs[..i + 1]) == before + Triples(tag, xs[..i]) + [tag, xs[i].0, xs[i].1]
  {
    TriplesSnoc(tag, xs[..i], xs[i]);
    assert xs[..i + 1] == xs[..i] + [xs[i]];
  }

  /** Feeds one tagged section of hashed paths. */
  method FeedPaths(H: Hash, hasher: Hasher, tag: Bytes, ps: seq<(Bytes, PathState)>)
    requires hasher.Valid()
    modifies hasher
    ensures hasher.Valid() && hasher.chunks == old(hasher.chunks) + Triples(tag, PathHashes(H, ps))
  {
    ghost var hashes := PathHashes(H, ps);
    for i := 0 to |ps|
      invariant hasher.Valid()
      invariant hasher.chunks == old(hasher.chunks) + Triples(tag, hashes[..i])
    {
      var digest := HashPath(H, ps[i].0, ps[i].1);
      FeedTriple(hasher, tag, ps[i].0, digest);
      NextTriple(tag, hashes, i, old(hasher.chunks));
    }
    assert hashes[..|hashes|] == hashes;
  }

  method FeedCommands(hasher: Hasher, commands: seq<Bytes>)
    requires hasher.Valid()
    modifies hasher
    ensures hasher.Valid() && hasher.chunks == old(hasher.chunks) + Tagged(Ascii("command"), commands)
  {
    for i := 0 to |commands|
      invariant hasher.Valid()
      invariant hasher.chunks == old(hasher.chunks) + Tagged(Ascii("command"), commands[..i])
    {
      hasher.Update(Ascii("command"));
      hasher.Update(commands[i]);
      TaggedSnoc(Ascii("command"), commands[..i], commands[i]);
      assert commands[..i + 1] == commands[..i] + [commands[i]];
    }
    assert commands[..|commands|] == commands;
  }

  method FeedPairs(hasher: Hasher, pairs: seq<(Bytes, Bytes)>)
    requires hasher.Valid()
    modifies hasher
    ensures hasher.Valid() && hasher.chunks == old(hasher.chunks) + Pairs(pairs)
  {
    for i := 0 to |pairs|
      invariant hasher.Valid()
      invariant hasher.chunks == old(hasher.chunks) + Pairs(pairs[..i])
    {
      hasher.Update(pairs[i].0);
      hasher.Update(pairs[i].1);
      PairsSnoc(pairs[..i], pairs[i]);
      assert pairs[..i + 1] == pairs[..i] + [pairs[i]];
    }
    assert pairs[..|pairs|] == pairs;
  }

  lemma SixMore(c: seq<Bytes>, a: Bytes, b: Bytes, d: Bytes, e: Bytes, f: Bytes, g: Bytes)
    ensures c + [a] + [b] + [d] + [e] + [f] + [g] == c + [a, b, d, e, f, g]
  {
  }

  method FeedFlags(hasher: Hasher, s: Settings)
    requires hasher.Valid()
    modifies hasher
    ensures hasher.Valid() && hasher.chunks == old(hasher.chunks) + Flags(s)
  {
    hasher.Update(Ascii("race_enabled"));
    hasher.Update(Ascii(if s.raceEnabled then "true" else "false"));
    hasher.Update(Ascii("timeout_seconds"));
    hasher.Update(s.timeout);
    hasher.Update(Ascii("race_timeout_seconds"));
    hasher.Update(s.raceTimeout);
    SixMore(old(hasher.chunks), Ascii("race_enabled"), Ascii(if s.raceEnabled then "true" else "false"),
            Ascii("timeout_seconds"), s.timeout, Ascii("race_timeout_seconds"), s.raceTimeout);
  }

  method FeedPlatform(hasher: Hasher, s: Settings)
    requires hasher.Valid()
    modifies hasher
    ensures hasher.Valid() && hasher.chunks == old(hasher.chunks) + Platform(s)
  {
    hasher.Update(Ascii("GOOS=") + s.goos);
    hasher.Update(Ascii("GOARCH=") + s.goarch);
  }

  lemma Assoc(a: seq<Bytes>, b: seq<Bytes>, c: seq<Bytes>)
    ensures (a + b) + c == a + (b + c)
  {
  }

  lemma Regroup(a: seq<Bytes>, b: seq<Bytes>, c: seq<Bytes>, d: seq<Bytes>, e: seq<Bytes>)
    ensures (((a + b) + c) + d) + e == a + (b + (c + (d + e)))
  {
  }

  /** The settings, manifests, toolchain and platform at the end of the layout. */
  method FeedSettings(hasher: Hasher, s: Settings)
    requires hasher.Valid()
    modifies hasher
    ensures hasher.Valid() && hasher.chunks == old(hasher.chunks) + FlagsOn(s)
  {
    FeedFlags(hasher, s);
    FeedPairs(hasher, s.manifests);
    FeedPairs(hasher, s.tools);
    FeedPlatform(hasher, s);
    Regroup(old(hasher.chunks), Flags(s), Pairs(s.manifests), Pairs(s.tools), Platform(s));
  }

  /** Everything after the dependencies. */
  method FeedBody(H: Hash, hasher: Hasher, paths: seq<(Bytes, PathState)>, sources: seq<(Bytes, PathState)>,
                  commands: seq<Bytes>, settings: Settings, ghost s: Sheet)
    requires hasher.Valid()
    requires s.paths == PathHashes(H, paths) && s.sources == PathHashes(H, sources)
    requires s.commands == commands && s.settings == settings
    modifies hasher
    ensures hasher.Valid() && hasher.chunks == old(hasher.chunks) + PathsOn(s)
  {
    FeedPaths(H, hasher, Ascii("path"), paths);
    FeedPaths(H, hasher, Ascii("go-package-source"), sources);
    FeedCommands(hasher, commands);
    FeedSettings(hasher, settings);
    Regroup(old(hasher.chunks), Triples(Ascii("path"), s.paths), Triples(Ascii("go-package-source"), s.sources),
            Tagged(Ascii("command"), s.commands), FlagsOn(s.settings));
  }

  class Fingerprinter {
    const H: Hash
    const world: World
    var memo: map<(Bytes, Bytes, bool), Bytes>

    constructor (H: Hash, world: World)
      requires Loaded(world)
      ensures this.H == H && this.world == world && Sound() && memo == map[]
    {
      this.H, this.world := H, world;
      memo := map[];
    }

    function Fresh(name: Bytes, mode: Bytes, live: bool): Bytes
      requires Loaded(world) && name in world.registry
    {
      Print(H, TreeOf(world, name, mode, live))
    }

    /** Whatever is in the memo table is what a recomputation would give. */
    ghost predicate Sound()
      reads this
    {
      && Loaded(world)
      && forall name, mode, live :: (name, mode, live) in memo ==>
           name in world.registry && memo[(name, mode, live)] == Fresh(name, mode, live)
    }

    method Remember(name: Bytes, mode: Bytes, live: bool, digest: Bytes)
      requires Sound() && name in world.registry && digest == Fresh(name, mode, live)
      modifies this`memo
      ensures Sound() && memo == old(memo)[(name, mode, live) := digest]
    {
      memo := memo[(name, mode, live) := digest];
    }

    /** The fingerprint of a component, reusing what an earlier call computed. */
    method ComponentFingerprint(name: Bytes, mode: Bytes, live: bool) returns (digest: Bytes)
      requires Sound() && name in world.registry
      modifies this`memo
      ensures Sound() && digest == Fresh(name, mode, live)
      ensures (name, mode, live) in memo
      decreases IndexOf(world.order, name), 2
    {
      if (name, mode, live) in memo {
        return memo[(name, mode, live)];
      }
      digest := Compute(name, mode, live);
      Remember(name, mode, live, digest);
    }

    method Compute(name: Bytes, mode: Bytes, live: bool) returns (digest: Bytes)
      requires Sound() && name in world.registry
      modifies this`memo
      ensures Sound() && digest == Fresh(name, mode, live)
      decreases IndexOf(world.order, name), 1
    {
      DependenciesComeFirst(world, name);
      var d := world.registry[name];
      var names := Sorted(d.dependencies);
      ghost var ts := TreeOf(world, name, mode, live).dependencies;
      ghost var s := SheetOf(H, TreeOf(world, name, mode, live));
      DependencyPrints(H, world, name, mode, live, names, ts);
      var hasher := new Hasher();
      FeedTriple(hasher, Ascii(SCHEMA), name, mode);
      FeedDependencies(hasher, names, mode, live, IndexOf(world.order, name), Prints(H, ts));
      FeedBody(H, hasher, Probed(world, Sorted(d.paths)), Probed(world, SourceDirs(Sorted(d.goPackages))),
               world.plan(name, mode, live), SettingsOf(world, d), s);
      Assembled(s);
      digest := H(hasher.fed);
    }

    method FeedDependencies(hasher: Hasher, names: seq<Bytes>, mode: Bytes, live: bool,
                            ghost height: nat, ghost prints: seq<(Bytes, Bytes)>)
      requires Sound() && hasher.Valid() && AllBelow(world, names, height) && |prints| == |names|
      requires forall i :: 0 <= i < |names| ==> prints[i] == (names[i], Fresh(names[i], mode, live))
      modifies this`memo, hasher
      ensures Sound() && hasher.Valid()
      ensures hasher.chunks == old(hasher.chunks) + Triples(Ascii("dependency"), prints)
      decreases height, 0
    {
      for i := 0 to |names|
        invariant Sound() && hasher.Valid()
        invariant hasher.chunks == old(hasher.chunks) + Triples(Ascii("dependency"), prints[..i])
      {
        FeedDependency(hasher, names[i], mode, live);
        NextTriple(Ascii("dependency"), prints, i, old(hasher.chunks));
      }
      assert prints[..|prints|] == prints;
    }

    method FeedDependency(hasher: Hasher, name: Bytes, mode: Bytes, live: bool)
      requires Sound() && hasher.Valid() && name in world.registry
      modifies this`memo, hasher
      ensures Sound() && hasher.Valid()
      ensures hasher.chunks == old(hasher.chunks) + [Ascii("dependency"), name, Fresh(name, mode, live)]
      decreases IndexOf(world.order, name), 3
    {
      var digest := ComponentFingerprint(name, mode, live);
      FeedTriple(hasher, Ascii("dependency"), name, digest);
    }
  }

  predicate AllBelow(w: World, names: seq<Bytes>, height: nat) {
    forall i :: 0 <= i < |names| ==>
      names[i] in w.registry && names[i] in w.order && IndexOf(w.order, names[i]) < height
  }

  lemma DependencyPrints(H: Hash, w: World, name: Bytes, mode: Bytes, live: bool, names: seq<Bytes>, ts: seq<Tree>)
    requires Loaded(w) && name in w.registry && names == Sorted(w.registry[name].dependencies)
    requires ts == TreeOf(w, name, mode, live).dependencies
    ensures AllBelow(w, names, IndexOf(w.order, name)) && |ts| == |names|
    ensures forall i :: 0 <= i < |names| ==> Prints(H, ts)[i] == (names[i], Print(H, TreeOf(w, names[i], mode, live)))
  {
    DependencyTree(w, name, mode, live, 0);
    forall i | 0 <= i < |names|
      ensures names[i] in w.registry && names[i] in w.order && IndexOf(w.order, names[i]) < IndexOf(w.order, name)
      ensures ts[i] == TreeOf(w, names[i], mode, live) && ts[i].name == names[i]
    {
      DependencyTree(w, name, mode, live, i);
    }
  }

  lemma Assembled(s: Sheet)
    ensures (([] + [Ascii(SCHEMA), s.name, s.mode]) + Triples(Ascii("dependency"), s.dependencies)) + PathsOn(s)
         == Layout(s)
  {
    assert [] + [Ascii(SCHEMA), s.name, s.mode] == [Ascii(SCHEMA), s.name, s.mode];
    Assoc([Ascii(SCHEMA), s.name, s.mode], Triples(Ascii("dependency"), s.dependencies), PathsOn(s));
  }
}
