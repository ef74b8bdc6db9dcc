/** The recursive component fingerprint (scripts/ci/verify_component_fingerprint.py)
    as a function of everything it reads, and what equal fingerprints imply.  The
    hash is a parameter: SHA-256 followed by hexdigest. */
module Fingerprint {
  import opened ChunkCode
  import opened FingerprintLayout

  type Hash = Bytes -> Bytes

  /** All inputs of one fingerprint, dependencies included. */
  datatype Tree = Tree(
    name: Bytes,
    mode: Bytes,
    dependencies: seq<Tree>,
    paths: seq<(Bytes, PathState)>,
    sources: seq<(Bytes, PathState)>,
    commands: seq<Bytes>,
    settings: Settings)

  function PathHash(H: Hash, entry: Bytes, st: PathState): Bytes {
    H(Encode(PathChunks(entry, st)))
  }

  function PathHashes(H: Hash, ps: seq<(Bytes, PathState)>): (r: seq<(Bytes, Bytes)>)
    ensures |r| == |ps|
  {
    seq(|ps|, i requires 0 <= i < |ps| => (ps[i].0, PathHash(H, ps[i].0, ps[i].1)))
  }

  function Prints(H: Hash, ts: seq<Tree>): (r: seq<(Bytes, Bytes)>)
    ensures |r| == |ts|
    decreases ts
  {
    seq(|ts|, i requires 0 <= i < |ts| => (ts[i].name, Print(H, ts[i])))
  }

  function SheetOf(H: Hash, t: Tree): Sheet
    decreases t, 0
  {
    Sheet(t.name, t.mode, Prints(H, t.dependencies), PathHashes(H, t.paths), PathHashes(H, t.sources),
          t.commands, t.settings)
  }

  function Print(H: Hash, t: Tree): Bytes
    decreases t, 1
  {
    H(Encode(Layout(SheetOf(H, t))))
  }

  // ---------------------------------------------------------------- what gets hashed

  function PathMessages(ps: seq<(Bytes, PathState)>): set<Bytes> {
    if ps == [] then {} else {Encode(PathChunks(ps[0].0, ps[0].1))} + PathMessages(ps[1..])
  }

  function DependencyMessages(H: Hash, ts: seq<Tree>): set<Bytes>
    decreases ts
  {
    if ts == [] then {} else Messages(H, ts[0]) + DependencyMessages(H, ts[1..])
  }

  /** Every byte string hashed on the way to one fingerprint. */
  function Messages(H: Hash, t: Tree): set<Bytes>
    decreases t
  {
    {Encode(Layout(SheetOf(H, t)))} + PathMessages(t.paths) + PathMessages(t.sources)
    + DependencyMessages(H, t.dependencies)
  }

  /** The hash tells these messages apart.  Only messages that are really hashed
      are concerned: no hash of fixed length is injective on all strings. */
  ghost predicate CollisionFree(H: Hash, messages: set<Bytes>) {
    forall a, b :: a in messages && b in messages && H(a) == H(b) ==> a == b
  }

  predicate PathsFit(ps: seq<(Bytes, PathState)>) {
    forall i :: 0 <= i < |ps| ==> Fit(PathChunks(ps[i].0, ps[i].1))
  }

  /** All chunk lengths fit into eight bytes (otherwise to_bytes raises) and the
      toolchain is not taken for a manifest. */
  predicate Proper(H: Hash, t: Tree)
    decreases t
  {
    && Fit(Layout(SheetOf(H, t)))
    && Readable(t.settings)
    && PathsFit(t.paths)
    && PathsFit(t.sources)
    && forall i :: 0 <= i < |t.dependencies| ==> Proper(H, t.dependencies[i])
  }

  // ---------------------------------------------------------------- injectivity

  lemma {:induction false} PathIsHashed(ps: seq<(Bytes, PathState)>, i: nat)
    requires i < |ps|
    ensures Encode(PathChunks(ps[i].0, ps[i].1)) in PathMessages(ps)
  {
    if i > 0 {
      PathIsHashed(ps[1..], i - 1);
    }
  }

  lemma WithinEither<T>(x: set<T>, a: set<T>, b: set<T>)
    requires x <= a || x <= b
    ensures x <= a + b
  {
  }

  lemma {:induction false} DependencyIsHashed(H: Hash, ts: seq<Tree>, i: nat)
    requires i < |ts|
    ensures Messages(H, ts[i]) <= DependencyMessages(H, ts)
    decreases |ts|
  {
    if i > 0 {
      DependencyIsHashed(H, ts[1..], i - 1);
      assert ts[1..][i - 1] == ts[i];
    }
    WithinEither(Messages(H, ts[i]), Messages(H, ts[0]), DependencyMessages(H, ts[1..]));
  }

  lemma PathHashesInjective(H: Hash, ps: seq<(Bytes, PathState)>, qs: seq<(Bytes, PathState)>)
    requires PathHashes(H, ps) == PathHashes(H, qs)
    requires PathsFit(ps) && PathsFit(qs)
    requires CollisionFree(H, PathMessages(ps) + PathMessages(qs))
    ensures ps == qs
  {
    assert |ps| == |qs|;
    forall i | 0 <= i < |ps| ensures ps[i] == qs[i] {
      assert PathHashes(H, ps)[i] == PathHashes(H, qs)[i];
      PathIsHashed(ps, i);
      PathIsHashed(qs, i);
      EncodeInjective(PathChunks(ps[i].0, ps[i].1), PathChunks(qs[i].0, qs[i].1));
      PathChunksInjective(ps[i].0, ps[i].1, qs[i].1);
    }
  }

  lemma Fewer(H: Hash, fewer: set<Bytes>, messages: set<Bytes>)
    requires CollisionFree(H, messages) && fewer <= messages
    ensures CollisionFree(H, fewer)
  {
  }

  lemma SheetsEqual(H: Hash, t: Tree, u: Tree)
    requires Print(H, t) == Print(H, u)
    requires Proper(H, t) && Proper(H, u)
    requires CollisionFree(H, Messages(H, t) + Messages(H, u))
    ensures SheetOf(H, t) == SheetOf(H, u)
  {
    assert Encode(Layout(SheetOf(H, t))) in Messages(H, t);
    assert Encode(Layout(SheetOf(H, u))) in Messages(H, u);
    EncodeInjective(Layout(SheetOf(H, t)), Layout(SheetOf(H, u)));
    LayoutInjective(SheetOf(H, t), SheetOf(H, u));
  }

  lemma PathsEqual(H: Hash, t: Tree, u: Tree)
    requires SheetOf(H, t) == SheetOf(H, u)
    requires Proper(H, t) && Proper(H, u)
    requires CollisionFree(H, Messages(H, t) + Messages(H, u))
    ensures t.paths == u.paths && t.sources == u.sources
  {
    Fewer(H, PathMessages(t.paths) + PathMessages(u.paths), Messages(H, t) + Messages(H, u));
    PathHashesInjective(H, t.paths, u.paths);
    Fewer(H, PathMessages(t.sources) + PathMessages(u.sources), Messages(H, t) + Messages(H, u));
    PathHashesInjective(H, t.sources, u.sources);
  }

  /** Equal fingerprints mean equal inputs, all the way down the dependencies,
      unless two of the hashed messages collide. */
  lemma {:induction false} PrintInjective(H: Hash, t: Tree, u: Tree)
    requires Print(H, t) == Print(H, u)
    requires Proper(H, t) && Proper(H, u)
    requires CollisionFree(H, Messages(H, t) + Messages(H, u))
    ensures t == u
    decreases t
  {
    SheetsEqual(H, t, u);
    PathsEqual(H, t, u);
    Fewer(H, DependencyMessages(H, t.dependencies) + DependencyMessages(H, u.dependencies),
          Messages(H, t) + Messages(H, u));
    DependenciesEqual(H, t.dependencies, u.dependencies);
  }

  lemma {:induction false} DependenciesEqual(H: Hash, ts: seq<Tree>, us: seq<Tree>)
    requires Prints(H, ts) == Prints(H, us)
    requires forall i :: 0 <= i < |ts| ==> Proper(H, ts[i])
    requires forall i :: 0 <= i < |us| ==> Proper(H, us[i])
    requires CollisionFree(H, DependencyMessages(H, ts) + DependencyMessages(H, us))
    ensures ts == us
    decreases ts
  {
    forall i | 0 <= i < |ts| ensures ts[i] == us[i] {
      assert Prints(H, ts)[i] == Prints(H, us)[i];
      DependencyIsHashed(H, ts, i);
      DependencyIsHashed(H, us, i);
      Fewer(H, Messages(H, ts[i]) + Messages(H, us[i]), DependencyMessages(H, ts) + DependencyMessages(H, us));
      PrintInjective(H, ts[i], us[i]);
    }
  }
}
