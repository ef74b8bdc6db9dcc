/** What a component fingerprint covers, and the chunks it is computed from
    (scripts/ci/verify_component_fingerprint.py).  Text is given as its UTF-8
    bytes, lists in the sorted order in which the source reads them. */
module FingerprintLayout {
  import opened ChunkCode

  function Ascii(s: string): (r: Bytes)
    ensures |r| == |s|
    ensures forall i :: 0 <= i < |s| ==> r[i] == if s[i] as int < 256 then s[i] as int else 0
  {
    seq(|s|, i requires 0 <= i < |s| => if s[i] as int < 256 then s[i] as int else 0)
  }

  // ---------------------------------------------------------------- one hashed path

  /** What _hash_path finds: a regular file, a directory with the regular files
      below it in walk order, or neither.  Contents are as _read_bytes returns
      them. */
  datatype PathState =
    | File(content: Bytes)
    | Directory(files: seq<(Bytes, Bytes)>)
    | Missing

  function Slash(entry: Bytes, rel: Bytes): Bytes {
    entry + [47] + rel
  }

  function DirectoryChunks(entry: Bytes, files: seq<(Bytes, Bytes)>): (r: seq<Bytes>)
    ensures |r| == 2 * |files|
  {
    if files == [] then []
    else [Slash(entry, files[0].0), files[0].1] + DirectoryChunks(entry, files[1..])
  }

  function PathChunks(entry: Bytes, st: PathState): seq<Bytes> {
    match st
    case File(content) => [entry, content]
    case Directory(files) => DirectoryChunks(entry, files)
    case Missing => [Ascii("<missing:") + entry + Ascii(">")]
  }

  lemma {:induction false} DirectoryInjective(entry: Bytes, fs: seq<(Bytes, Bytes)>, gs: seq<(Bytes, Bytes)>)
    requires DirectoryChunks(entry, fs) == DirectoryChunks(entry, gs)
    ensures fs == gs
  {
    assert |fs| == |gs|;
    if fs != [] {
      var a, b := DirectoryChunks(entry, fs), DirectoryChunks(entry, gs);
      assert a[2..] == DirectoryChunks(entry, fs[1..]) && b[2..] == DirectoryChunks(entry, gs[1..]);
      assert a[0] == b[0] && a[1] == b[1];
      assert fs[0].0 == a[0][|entry| + 1..] == b[0][|entry| + 1..] == gs[0].0;
      DirectoryInjective(entry, fs[1..], gs[1..]);
      SameCons(fs, gs);
    }
  }

  /** A directory's files in walk order: where each one is, then what is in it. */
  lemma {:induction false} DirectoryInOrder(entry: Bytes, files: seq<(Bytes, Bytes)>, i: nat)
    requires i < |files|
    ensures DirectoryChunks(entry, files)[2 * i] == entry + Ascii("/") + files[i].0
    ensures DirectoryChunks(entry, files)[2 * i + 1] == files[i].1
  {
    assert Ascii("/") == [47];
    if i > 0 {
      DirectoryInOrder(entry, files[1..], i - 1);
    }
  }

  lemma EntryIsShorter(entry: Bytes, files: seq<(Bytes, Bytes)>)
    ensures files != [] ==> DirectoryChunks(entry, files)[0] != entry
  {
    if files != [] {
      assert |Slash(entry, files[0].0)| > |entry|;
    }
  }

  lemma MarkerIsOne(entry: Bytes)
    ensures |PathChunks(entry, Missing)| == 1
    ensures forall files :: |PathChunks(entry, Directory(files))| == 2 * |files|
  {
  }

  /** Under one registry path, different states give different chunks: a
      directory holding one file is not mistaken for that file. */
  lemma PathChunksInjective(entry: Bytes, s: PathState, t: PathState)
    requires PathChunks(entry, s) == PathChunks(entry, t)
    ensures s == t
  {
    MarkerIsOne(entry);
    if s.Directory? {
      EntryIsShorter(entry, s.files);
    }
    if t.Directory? {
      EntryIsShorter(entry, t.files);
    }
    if s.Directory? && t.Directory? {
      DirectoryInjective(entry, s.files, t.files);
    }
  }

  // ---------------------------------------------------------------- one component

  /** Flags, dependency manifests, toolchain and platform. */
  datatype Settings = Settings(
    raceEnabled: bool,
    timeout: Bytes,
    raceTimeout: Bytes,
    manifests: seq<(Bytes, Bytes)>,
    tools: seq<(Bytes, Bytes)>,
    goos: Bytes,
    goarch: Bytes)

  /** The top level of a fingerprint, with the hashes of dependencies and paths
      already computed. */
  datatype Sheet = Sheet(
    name: Bytes,
    mode: Bytes,
    dependencies: seq<(Bytes, Bytes)>,
    paths: seq<(Bytes, Bytes)>,
    sources: seq<(Bytes, Bytes)>,
    commands: seq<Bytes>,
    settings: Settings)

  const SCHEMA := "verify-fingerprint-schema-v1"

  function Triples(tag: Bytes, xs: seq<(Bytes, Bytes)>): (r: seq<Bytes>)
    ensures |r| == 3 * |xs|
  {
    if xs == [] then [] else [tag, xs[0].0, xs[0].1] + Triples(tag, xs[1..])
  }

  function Tagged(tag: Bytes, xs: seq<Bytes>): (r: seq<Bytes>)
    ensures |r| == 2 * |xs|
  {
    if xs == [] then [] else [tag, xs[0]] + Tagged(tag, xs[1..])
  }

  function Pairs(xs: seq<(Bytes, Bytes)>): (r: seq<Bytes>)
    ensures |r| == 2 * |xs|
  {
    if xs == [] then [] else [xs[0].0, xs[0].1] + Pairs(xs[1..])
  }

  function Flags(s: Settings): (r: seq<Bytes>)
    ensures |r| == 6
  {
    [Ascii("race_enabled"), Ascii(if s.raceEnabled then "true" else "false"),
     Ascii("timeout_seconds"), s.timeout, Ascii("race_timeout_seconds"), s.raceTimeout]
  }

  function Platform(s: Settings): (r: seq<Bytes>)
    ensures |r| == 2
  {
    [Ascii("GOOS=") + s.goos, Ascii("GOARCH=") + s.goarch]
  }

  function ToolsOn(s: Settings): (r: seq<Bytes>)
    ensures |r| >= 2
  {
    Pairs(s.tools) + Platform(s)
  }

  function FlagsOn(s: Settings): (r: seq<Bytes>)
    ensures |r| >= 8
  {
    Flags(s) + (Pairs(s.manifests) + ToolsOn(s))
  }

  function CommandsOn(s: Sheet): (r: seq<Bytes>)
    ensures |r| >= 8
  {
    Tagged(Ascii("command"), s.commands) + FlagsOn(s.settings)
  }

  function SourcesOn(s: Sheet): (r: seq<Bytes>)
    ensures |r| >= 8
  {
    Triples(Ascii("go-package-source"), s.sources) + CommandsOn(s)
  }

  function PathsOn(s: Sheet): (r: seq<Bytes>)
    ensures |r| >= 8
  {
    Triples(Ascii("path"), s.paths) + SourcesOn(s)
  }

  /** The chunks in the order in which component_fingerprint feeds them. */
  function Layout(s: Sheet): seq<Bytes> {
    [Ascii(SCHEMA), s.name, s.mode] + (Triples(Ascii("dependency"), s.dependencies) + PathsOn(s))
  }

  /** With one entry of every kind: which chunks there are, their tags and their order. */
  lemma LayoutOfEach(s: Sheet, f: Settings)
    requires |s.dependencies| == |s.paths| == |s.sources| == |s.commands| == |f.manifests| == |f.tools| == 1
    requires s.settings == f
    ensures Layout(s) ==
            [Ascii("verify-fingerprint-schema-v1"), s.name, s.mode,
             Ascii("dependency"), s.dependencies[0].0, s.dependencies[0].1,
             Ascii("path"), s.paths[0].0, s.paths[0].1,
             Ascii("go-package-source"), s.sources[0].0, s.sources[0].1,
             Ascii("command"), s.commands[0]] + SettingsOfEach(f)
  {
    FlagsOfEach(f);
  }

  function SettingsOfEach(f: Settings): seq<Bytes>
    requires |f.manifests| == |f.tools| == 1
  {
    [Ascii("race_enabled"), Ascii(if f.raceEnabled then "true" else "false"),
     Ascii("timeout_seconds"), f.timeout, Ascii("race_timeout_seconds"), f.raceTimeout,
     f.manifests[0].0, f.manifests[0].1, f.tools[0].0, f.tools[0].1,
     Ascii("GOOS=") + f.goos, Ascii("GOARCH=") + f.goarch]
  }

  lemma FlagsOfEach(f: Settings)
    requires |f.manifests| == |f.tools| == 1
    ensures FlagsOn(f) == SettingsOfEach(f)
  {
    assert f.manifests[1..] == [] && f.tools[1..] == [];
  }

  // ---------------------------------------------------------------- taking the layout apart

  lemma HeadTail(a: seq<Bytes>, b: seq<Bytes>, r: seq<Bytes>, s: seq<Bytes>)
    requires |a| == |b| && a + r == b + s
    ensures a == b && r == s
  {
    assert a == (a + r)[..|a|] == (b + s)[..|a|] == b;
    assert r == (a + r)[|a|..] == (b + s)[|a|..] == s;
  }

  lemma {:induction false} PeelTriples(tag: Bytes, xs: seq<(Bytes, Bytes)>, ys: seq<(Bytes, Bytes)>,
                                       r: seq<Bytes>, s: seq<Bytes>)
    requires Triples(tag, xs) + r == Triples(tag, ys) + s
    requires r != [] && s != [] && r[0] != tag && s[0] != tag
    ensures xs == ys && r == s
    decreases |xs|
  {
    var all, same := Triples(tag, xs) + r, Triples(tag, ys) + s;
    if xs != [] {
      assert all == [tag, xs[0].0, xs[0].1] + (Triples(tag, xs[1..]) + r);
    }
    if ys != [] {
      assert same == [tag, ys[0].0, ys[0].1] + (Triples(tag, ys[1..]) + s);
    }
    if xs != [] && ys != [] {
      HeadTail([tag, xs[0].0, xs[0].1], [tag, ys[0].0, ys[0].1], Triples(tag, xs[1..]) + r, Triples(tag, ys[1..]) + s);
      PeelTriples(tag, xs[1..], ys[1..], r, s);
      SameCons(xs, ys);
    } else {
      assert xs == [] ==> all == r;
      assert ys == [] ==> same == s;
    }
  }

  lemma {:induction false} PeelTagged(tag: Bytes, xs: seq<Bytes>, ys: seq<Bytes>, r: seq<Bytes>, s: seq<Bytes>)
    requires Tagged(tag, xs) + r == Tagged(tag, ys) + s
    requires r != [] && s != [] && r[0] != tag && s[0] != tag
    ensures xs == ys && r == s
    decreases |xs|
  {
    var all, same := Tagged(tag, xs) + r, Tagged(tag, ys) + s;
    if xs != [] {
      assert all == [tag, xs[0]] + (Tagged(tag, xs[1..]) + r);
    }
    if ys != [] {
      assert same == [tag, ys[0]] + (Tagged(tag, ys[1..]) + s);
    }
    if xs != [] && ys != [] {
      HeadTail([tag, xs[0]], [tag, ys[0]], Tagged(tag, xs[1..]) + r, Tagged(tag, ys[1..]) + s);
      PeelTagged(tag, xs[1..], ys[1..], r, s);
      SameCons(xs, ys);
    } else {
      assert xs == [] ==> all == r;
      assert ys == [] ==> same == s;
    }
  }

  predicate IsManifest(name: Bytes) {
    || name == Ascii("go.mod") || name == Ascii("go.sum")
    || name == Ascii("package.json") || name == Ascii("package-lock.json") || name == Ascii("npm-shrinkwrap.json")
  }

  predicate AllManifests(xs: seq<(Bytes, Bytes)>) {
    forall i :: 0 <= i < |xs| ==> IsManifest(xs[i].0)
  }

  lemma {:induction false} PeelManifests(xs: seq<(Bytes, Bytes)>, ys: seq<(Bytes, Bytes)>, r: seq<Bytes>, s: seq<Bytes>)
    requires Pairs(xs) + r == Pairs(ys) + s
    requires AllManifests(xs) && AllManifests(ys)
    requires r != [] && s != [] && !IsManifest(r[0]) && !IsManifest(s[0])
    ensures xs == ys && r == s
    decreases |xs|
  {
    var all, same := Pairs(xs) + r, Pairs(ys) + s;
    if xs != [] {
      assert all == [xs[0].0, xs[0].1] + (Pairs(xs[1..]) + r);
    }
    if ys != [] {
      assert same == [ys[0].0, ys[0].1] + (Pairs(ys[1..]) + s);
    }
    if xs != [] && ys != [] {
      HeadTail([xs[0].0, xs[0].1], [ys[0].0, ys[0].1], Pairs(xs[1..]) + r, Pairs(ys[1..]) + s);
      PeelManifests(xs[1..], ys[1..], r, s);
      SameCons(xs, ys);
    } else {
      assert xs == [] ==> all == r;
      assert ys == [] ==> same == s;
    }
  }

  lemma {:induction false} PairsInjective(xs: seq<(Bytes, Bytes)>, ys: seq<(Bytes, Bytes)>)
    requires Pairs(xs) == Pairs(ys)
    ensures xs == ys
  {
    assert |xs| == |ys|;
    if xs != [] {
      HeadTail([xs[0].0, xs[0].1], [ys[0].0, ys[0].1], Pairs(xs[1..]), Pairs(ys[1..]));
      PairsInjective(xs[1..], ys[1..]);
      SameCons(xs, ys);
    }
  }

  lemma TagsDiffer()
    ensures Ascii("dependency") != Ascii("path")
    ensures Ascii("dependency") != Ascii("go-package-source") && Ascii("path") != Ascii("go-package-source")
    ensures Ascii("dependency") != Ascii("command") && Ascii("path") != Ascii("command")
    ensures Ascii("go-package-source") != Ascii("command")
    ensures Ascii("dependency") != Ascii("race_enabled") && Ascii("path") != Ascii("race_enabled")
    ensures Ascii("go-package-source") != Ascii("race_enabled") && Ascii("command") != Ascii("race_enabled")
  {
    assert |Ascii("dependency")| == 10 && |Ascii("path")| == 4 && |Ascii("go-package-source")| == 17;
    assert |Ascii("command")| == 7 && |Ascii("race_enabled")| == 12;
  }

  lemma PlatformIsNoManifest(goos: Bytes)
    ensures !IsManifest(Ascii("GOOS=") + goos)
  {
    assert (Ascii("GOOS=") + goos)[0] == 71;
    assert Ascii("go.mod")[0] == 103 && Ascii("go.sum")[0] == 103;
    assert Ascii("package.json")[0] == 112 && Ascii("package-lock.json")[0] == 112;
    assert Ascii("npm-shrinkwrap.json")[0] == 110;
  }

  /** Manifests have manifest names, and the first tool is not called like a
      manifest.  The toolchain probe reports only go, node and python. */
  predicate Readable(s: Settings) {
    AllManifests(s.manifests) && (s.tools != [] ==> !IsManifest(s.tools[0].0))
  }

  lemma NoManifestAhead(s: Settings)
    requires Readable(s)
    ensures !IsManifest(ToolsOn(s)[0])
  {
    PlatformIsNoManifest(s.goos);
    if s.tools != [] {
      assert Pairs(s.tools)[0] == s.tools[0].0;
    }
  }

  lemma FirstTags(s: Sheet)
    ensures FlagsOn(s.settings)[0] == Ascii("race_enabled")
    ensures CommandsOn(s)[0] == Ascii("command") || CommandsOn(s)[0] == Ascii("race_enabled")
    ensures SourcesOn(s)[0] == Ascii("go-package-source") || SourcesOn(s)[0] == CommandsOn(s)[0]
    ensures PathsOn(s)[0] == Ascii("path") || PathsOn(s)[0] == SourcesOn(s)[0]
  {
  }

  lemma PrefixCancels(a: Bytes, x: Bytes, y: Bytes)
    requires a + x == a + y
    ensures x == y
  {
    assert x == (a + x)[|a|..] == (a + y)[|a|..] == y;
  }

  lemma ToolsInjective(s: Settings, t: Settings)
    requires ToolsOn(s) == ToolsOn(t)
    ensures s.tools == t.tools && s.goos == t.goos && s.goarch == t.goarch
  {
    HeadTail(Pairs(s.tools), Pairs(t.tools), Platform(s), Platform(t));
    PairsInjective(s.tools, t.tools);
    assert Platform(s)[0] == Platform(t)[0] && Platform(s)[1] == Platform(t)[1];
    PrefixCancels(Ascii("GOOS="), s.goos, t.goos);
    PrefixCancels(Ascii("GOARCH="), s.goarch, t.goarch);
  }

  lemma FlagsInjective(s: Settings, t: Settings)
    requires Flags(s) == Flags(t)
    ensures s.raceEnabled == t.raceEnabled && s.timeout == t.timeout && s.raceTimeout == t.raceTimeout
  {
    var a, b := Flags(s), Flags(t);
    assert |a[1]| == |b[1]| && a[3] == b[3] && a[5] == b[5];
    assert |Ascii("true")| == 4 && |Ascii("false")| == 5;
  }

  lemma SettingsInjective(s: Settings, t: Settings)
    requires Readable(s) && Readable(t) && FlagsOn(s) == FlagsOn(t)
    ensures s == t
  {
    HeadTail(Flags(s), Flags(t), Pairs(s.manifests) + ToolsOn(s), Pairs(t.manifests) + ToolsOn(t));
    FlagsInjective(s, t);
    NoManifestAhead(s);
    NoManifestAhead(t);
    PeelManifests(s.manifests, t.manifests, ToolsOn(s), ToolsOn(t));
    ToolsInjective(s, t);
  }

  /** The chunk list determines every input: although sections carry no counts,
      the tags show where one ends. */
  lemma LayoutInjective(s: Sheet, t: Sheet)
    requires Readable(s.settings) && Readable(t.settings) && Layout(s) == Layout(t)
    ensures s == t
  {
    TagsDiffer();
    FirstTags(s);
    FirstTags(t);
    HeadTail([Ascii(SCHEMA), s.name, s.mode], [Ascii(SCHEMA), t.name, t.mode],
             Triples(Ascii("dependency"), s.dependencies) + PathsOn(s),
             Triples(Ascii("dependency"), t.dependencies) + PathsOn(t));
    assert [Ascii(SCHEMA), s.name, s.mode][1] == [Ascii(SCHEMA), t.name, t.mode][1];
    assert [Ascii(SCHEMA), s.name, s.mode][2] == [Ascii(SCHEMA), t.name, t.mode][2];
    PeelTriples(Ascii("dependency"), s.dependencies, t.dependencies, PathsOn(s), PathsOn(t));
    PeelTriples(Ascii("path"), s.paths, t.paths, SourcesOn(s), SourcesOn(t));
    PeelTriples(Ascii("go-package-source"), s.sources, t.sources, CommandsOn(s), CommandsOn(t));
    PeelTagged(Ascii("command"), s.commands, t.commands, FlagsOn(s.settings), FlagsOn(t.settings));
    SettingsInjective(s.settings, t.settings);
  }

  lemma {:induction false} PairsConcat(xs: seq<(Bytes, Bytes)>, ys: seq<(Bytes, Bytes)>)
    ensures Pairs(xs + ys) == Pairs(xs) + Pairs(ys)
  {
    if xs == [] {
      assert xs + ys == ys;
    } else {
      PairsConcat(xs[1..], ys);
      var all, head := xs + ys, [xs[0].0, xs[0].1];
      assert all[0] == xs[0] && all[1..] == xs[1..] + ys;
      assert Pairs(all) == head + (Pairs(xs[1..]) + Pairs(ys));
      assert Pairs(xs) == head + Pairs(xs[1..]);
    }
  }

  lemma Ambiguous(s: Settings) returns (t: Settings)
    requires AllManifests(s.manifests) && !Readable(s)
    ensures t != s && AllManifests(t.manifests) && FlagsOn(t) == FlagsOn(s)
  {
    t := s.(manifests := s.manifests + [s.tools[0]], tools := s.tools[1..]);
    assert |t.tools| != |s.tools|;
    assert s.tools == [s.tools[0]] + t.tools;
    PairsConcat(s.manifests, [s.tools[0]]);
    PairsConcat([s.tools[0]], t.tools);
    assert Pairs(t.manifests) + ToolsOn(t) == Pairs(s.manifests) + ToolsOn(s);
    assert Flags(t) == Flags(s) && Platform(t) == Platform(s);
  }

  /** Exactly this is needed: manifest and toolchain chunks carry no tag, so a
      first tool with a manifest's name reads like one more manifest. */
  lemma ManifestOrTool(s: Sheet)
    requires AllManifests(s.settings.manifests) && !Readable(s.settings)
    ensures exists t: Sheet :: t != s && AllManifests(t.settings.manifests) && Layout(t) == Layout(s)
  {
    var other := Ambiguous(s.settings);
    var t := s.(settings := other);
    assert Layout(t) == Layout(s);
  }
}
