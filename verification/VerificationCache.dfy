/** The on-disk verification cache (scripts/ci/verify_component_cache.py) and its use
    by the runner (scripts/ci/verify_component_runner.py, process_component). */
module VerificationCache {
  import opened ChunkCode
  import opened FingerprintLayout
  import opened Fingerprint
  import opened CachePaths

  datatype Field =
    | SchemaVersion | CacheSchemaVersion | Gate | FingerprintField | Status
    | Mode | DurationMs | Toolchain | CompletedAt | Other(name: Bytes)

  datatype Value =
    | Text(text: Bytes)
    | Number(n: int)
    | Versions(versions: seq<(Bytes, Bytes)>)
    | Opaque

  type Record = map<Field, Value>

  /** What reading and parsing one cache file can come to.  ParserRaises stands for
      every exception that is neither an OSError nor a JSONDecodeError: bytes that
      are no UTF-8, nesting beyond the recursion limit, an integer beyond the digit
      limit. */
  datatype FileText =
    | Unreadable
    | ParserRaises
    | NotJson
    | NotObject
    | Object(record: Record)

  /** Files by the path the code opens; what the file system makes of ".." and links is
      not followed. */
  type Disk = map<Path, FileText>

  datatype Answer = Hit(record: Record) | Miss | Raised

  const SCHEMA_VERSION := 1

  predicate Has(r: Record, field: Field, v: Value) {
    field in r && r[field] == v
  }

  /** A file that says PASS for this fingerprint under the current schema. */
  predicate Vouches(f: FileText, fingerprint: Bytes) {
    && f.Object?
    && Has(f.record, Status, Text(Ascii("PASS")))
    && Has(f.record, FingerprintField, Text(fingerprint))
    && Has(f.record, CacheSchemaVersion, Text(Ascii(SCHEMA)))
  }

  function ReadCacheEntry(disk: Disk, root: Path, component: Bytes, fingerprint: Bytes): (a: Answer)
    ensures a.Hit? ==> EntryPath(root, component, fingerprint) in disk
    ensures a.Hit? ==> disk[EntryPath(root, component, fingerprint)] == Object(a.record)
    ensures a.Hit? ==> Has(a.record, Status, Text(Ascii("PASS"))) && Has(a.record, FingerprintField, Text(fingerprint))
  {
    var path := EntryPath(root, component, fingerprint);
    if path !in disk then Miss
    else
      match disk[path]
      case Unreadable => Miss
      case ParserRaises => Raised
      case NotJson => Miss
      case NotObject => Miss
      case Object(raw) =>
        if !Has(raw, Status, Text(Ascii("PASS"))) then Miss
        else if !Has(raw, FingerprintField, Text(fingerprint)) then Miss
        else Hit(raw)
  }

  /** A hit is exactly a vouching file; a missing, unreadable, non-PASS, mismatched or
      old-schema record and text that is no JSON are misses.  A file on which reading
      or parsing raises anything but the two exceptions caught is neither: the
      exception passes through. */
  function CacheHitEntry(disk: Disk, root: Path, component: Bytes, fingerprint: Bytes): (a: Answer)
    ensures var path := EntryPath(root, component, fingerprint);
            && (a.Hit? <==> path in disk && Vouches(disk[path], fingerprint))
            && (a.Raised? <==> path in disk && disk[path].ParserRaises?)
            && (a.Hit? ==> disk[path] == Object(a.record))
  {
    var entry := ReadCacheEntry(disk, root, component, fingerprint);
    if !entry.Hit? then entry
    else if !Has(entry.record, CacheSchemaVersion, Text(Ascii(SCHEMA))) then Miss
    else entry
  }

  /** The artifacts that are not regular files, in declaration order. */
  function Missing(artifacts: seq<Bytes>, isFile: Bytes -> bool): (r: seq<Bytes>)
    ensures forall a :: a in r <==> a in artifacts && !isFile(a)
    ensures r == [] <==> forall a :: a in artifacts ==> isFile(a)
  {
    if artifacts == [] then []
    else
      var front := Missing(artifacts[..|artifacts| - 1], isFile);
      var last := artifacts[|artifacts| - 1];
      if isFile(last) then front else front + [last]
  }

  method MissingRequiredArtifacts(artifacts: seq<Bytes>, isFile: Bytes -> bool) returns (missing: seq<Bytes>)
    ensures missing == Missing(artifacts, isFile)
    ensures missing == [] <==> forall a :: a in artifacts ==> isFile(a)
  {
    missing := [];
    for i := 0 to |artifacts|
      invariant missing == Missing(artifacts[..i], isFile)
    {
      assert artifacts[..i + 1][..i] == artifacts[..i];
      if !isFile(artifacts[i]) {
        missing := missing + [artifacts[i]];
      }
    }
    assert artifacts[..|artifacts|] == artifacts;
  }

  /** How processing one component ends; LookupRaised is an exception that leaves
      process_component: of the lookup, or of int() on the duration of a hit. */
  datatype Outcome = CachedPass | Passed | Failed | LookupRaised

  /** What the run reports of a component, if it lives to report anything. */
  datatype Verdict = Pass | Fail | Aborted

  /** A worker records an exception as a failure; with a single job there are no
      workers and the exception ends the run. */
  function Reported(outcome: Outcome, jobs: int): Verdict {
    match outcome
    case CachedPass => Pass
    case Passed => Pass
    case Failed => Fail
    case LookupRaised => if jobs <= 1 then Aborted else Fail
  }

  /** One gate to verify: what its fingerprint covers, and the circumstances.  intReads
      says of a value that is no number whether int() takes it, or 0 in its place. */
  datatype Job = Job(
    root: Path, tree: Tree, artifacts: seq<Bytes>, isFile: Bytes -> bool,
    durationMs: nat, now: Bytes, writable: bool, intReads: Value -> bool)

  predicate DurationReads(r: Record, job: Job) {
    DurationMs in r ==> r[DurationMs].Number? || job.intReads(r[DurationMs])
  }

  function PathOf(H: Hash, job: Job): Path {
    EntryPath(job.root, job.tree.name, Print(H, job.tree))
  }

  function Lookup(H: Hash, disk: Disk, job: Job): Answer {
    if Missing(job.artifacts, job.isFile) != [] then Miss
    else CacheHitEntry(disk, job.root, job.tree.name, Print(H, job.tree))
  }

  /** The record of a pass under one fingerprint. */
  function RecordUnder(fp: Bytes, job: Job): (r: Record)
    ensures Vouches(Object(r), fp) && r[FingerprintField] == Text(fp)
    ensures r.Keys == {SchemaVersion, CacheSchemaVersion, Gate, FingerprintField, Status, Mode, DurationMs, Toolchain,
                       CompletedAt}
    ensures Has(r, SchemaVersion, Number(1)) && Has(r, CacheSchemaVersion, Text(Ascii(SCHEMA)))
    ensures Has(r, Gate, Text(job.tree.name)) && Has(r, Mode, Text(job.tree.mode))
    ensures Has(r, DurationMs, Number(job.durationMs)) && Has(r, CompletedAt, Text(job.now))
    ensures Has(r, Toolchain, Versions(job.tree.settings.tools))
  {
    map[SchemaVersion := Number(SCHEMA_VERSION),
        CacheSchemaVersion := Text(Ascii(SCHEMA)),
        Gate := Text(job.tree.name),
        FingerprintField := Text(fp),
        Status := Text(Ascii("PASS")),
        Mode := Text(job.tree.mode),
        DurationMs := Number(job.durationMs),
        Toolchain := Versions(job.tree.settings.tools),
        CompletedAt := Text(job.now)]
  }

  function PassRecord(H: Hash, job: Job): Record {
    RecordUnder(Print(H, job.tree), job)
  }

  function AfterPass(H: Hash, disk: Disk, job: Job): Disk {
    if job.writable then disk[PathOf(H, job) := Object(PassRecord(H, job))] else disk
  }

  /** Looking up, and running the gate unless there is a usable hit. */
  function Verified(H: Hash, gate: Tree -> bool, disk: Disk, job: Job): (Outcome, Disk) {
    var found := Lookup(H, disk, job);
    if found.Raised? || (found.Hit? && !DurationReads(found.record, job)) then (LookupRaised, disk)
    else if found.Hit? then (CachedPass, disk)
    else if gate(job.tree) then (Passed, AfterPass(H, disk, job))
    else (Failed, disk)
  }

  class Cache {
    var disk: Disk

    constructor ()
      ensures disk == map[]
    {
      disk := map[];
    }

    /** Only a success is stored, under the component and fingerprint it is for. */
    method StoreCachePass(H: Hash, job: Job) returns (ok: bool)
      modifies this
      ensures ok == job.writable && disk == AfterPass(H, old(disk), job)
      ensures ok ==> CacheHitEntry(disk, job.root, job.tree.name, Print(H, job.tree)) == Hit(PassRecord(H, job))
    {
      ok := job.writable;
      if job.writable {
        disk := disk[PathOf(H, job) := Object(PassRecord(H, job))];
      }
    }

    method ProcessComponent(H: Hash, gate: Tree -> bool, job: Job) returns (outcome: Outcome)
      modifies this
      ensures (outcome, disk) == Verified(H, gate, old(disk), job)
      ensures outcome == CachedPass ==> forall a :: a in job.artifacts ==> job.isFile(a)
    {
      var missing := MissingRequiredArtifacts(job.artifacts, job.isFile);
      var entry := Miss;
      if missing == [] {
        entry := CacheHitEntry(disk, job.root, job.tree.name, Print(H, job.tree));
      }
      if entry.Raised? {
        return LookupRaised;
      }
      if entry.Hit? {
        if !DurationReads(entry.record, job) {
          return LookupRaised;
        }
        return CachedPass;
      }
      if !gate(job.tree) {
        return Failed;
      }
      var ok := StoreCachePass(H, job);
      return Passed;
    }
  }

  // ---------------------------------------------------------------- whole histories

  /** Between verifications files may vanish, be damaged or be moved about; only
      forging a record that vouches is excluded. */
  datatype Event =
    | Verify(job: Job)
    | Forget(path: Path)
    | Damage(path: Path, text: FileText)
    | Copy(from: Path, to: Path)

  predicate Allowed(e: Event) {
    e.Damage? ==> !(e.text.Object? && Has(e.text.record, Status, Text(Ascii("PASS"))))
  }

  function Touched(disk: Disk, e: Event): Disk
    requires !e.Verify?
  {
    match e
    case Forget(path) => map p | p in disk && p != path :: disk[p]
    case Damage(path, text) => disk[path := text]
    case Copy(from, to) => if from in disk then disk[to := disk[from]] else disk
  }

  /** The trees of all verifications in a history. */
  function Trees(events: seq<Event>): seq<Tree> {
    if events == [] then []
    else
      var front, last := Trees(events[..|events| - 1]), events[|events| - 1];
      if last.Verify? then front + [last.job.tree] else front
  }

  function DiskAfter(H: Hash, gate: Tree -> bool, events: seq<Event>): Disk {
    if events == [] then map[]
    else
      var disk, last := DiskAfter(H, gate, events[..|events| - 1]), events[|events| - 1];
      if last.Verify? then Verified(H, gate, disk, last.job).1 else Touched(disk, last)
  }

  /** Every record that vouches was stored by a verification of those very inputs
      whose gate passed. */
  ghost predicate Earned(H: Hash, gate: Tree -> bool, f: FileText, trees: seq<Tree>) {
    forall fp :: Vouches(f, fp) ==> exists i :: 0 <= i < |trees| && gate(trees[i]) && fp == Print(H, trees[i])
  }

  lemma EarnedGrows(H: Hash, gate: Tree -> bool, f: FileText, trees: seq<Tree>, t: Tree)
    requires Earned(H, gate, f, trees)
    ensures Earned(H, gate, f, trees + [t])
  {
    forall fp | Vouches(f, fp)
      ensures exists i :: 0 <= i < |trees + [t]| && gate((trees + [t])[i]) && fp == Print(H, (trees + [t])[i])
    {
      var i :| 0 <= i < |trees| && gate(trees[i]) && fp == Print(H, trees[i]);
      assert (trees + [t])[i] == trees[i];
    }
  }

  lemma StoredIsEarned(H: Hash, gate: Tree -> bool, job: Job, trees: seq<Tree>)
    requires gate(job.tree)
    ensures Earned(H, gate, Object(PassRecord(H, job)), trees + [job.tree])
  {
    var all := trees + [job.tree];
    assert all[|trees|] == job.tree;
    forall fp | Vouches(Object(PassRecord(H, job)), fp)
      ensures exists i :: 0 <= i < |all| && gate(all[i]) && fp == Print(H, all[i])
    {
      assert fp == Print(H, all[|trees|]);
    }
  }

  ghost predicate DiskEarned(H: Hash, gate: Tree -> bool, disk: Disk, trees: seq<Tree>) {
    forall path :: path in disk ==> Earned(H, gate, disk[path], trees)
  }

  lemma StoreKeepsEarned(H: Hash, gate: Tree -> bool, disk: Disk, path: Path, f: FileText, trees: seq<Tree>)
    requires DiskEarned(H, gate, disk, trees) && Earned(H, gate, f, trees)
    ensures DiskEarned(H, gate, disk[path := f], trees)
  {
  }

  /** A verification writes only when the gate passed, and then its record. */
  lemma VerifyWrites(H: Hash, gate: Tree -> bool, disk: Disk, job: Job)
    ensures Verified(H, gate, disk, job).1 == disk ||
            (gate(job.tree) && Verified(H, gate, disk, job).1 == AfterPass(H, disk, job))
  {
  }

  lemma GrowthKeepsEarned(H: Hash, gate: Tree -> bool, disk: Disk, trees: seq<Tree>, t: Tree)
    requires DiskEarned(H, gate, disk, trees)
    ensures DiskEarned(H, gate, disk, trees + [t])
  {
    forall path | path in disk ensures Earned(H, gate, disk[path], trees + [t]) {
      EarnedGrows(H, gate, disk[path], trees, t);
    }
  }

  lemma VerifyKeepsEarned(H: Hash, gate: Tree -> bool, disk: Disk, job: Job, trees: seq<Tree>)
    requires DiskEarned(H, gate, disk, trees)
    ensures DiskEarned(H, gate, Verified(H, gate, disk, job).1, trees + [job.tree])
  {
    var record, after := Object(PassRecord(H, job)), Verified(H, gate, disk, job).1;
    VerifyWrites(H, gate, disk, job);
    GrowthKeepsEarned(H, gate, disk, trees, job.tree);
    if after != disk {
      StoredIsEarned(H, gate, job, trees);
      StoreKeepsEarned(H, gate, disk, PathOf(H, job), record, trees + [job.tree]);
    }
  }

  lemma TouchKeepsEarned(H: Hash, gate: Tree -> bool, disk: Disk, e: Event, trees: seq<Tree>)
    requires DiskEarned(H, gate, disk, trees) && !e.Verify? && Allowed(e)
    ensures DiskEarned(H, gate, Touched(disk, e), trees)
  {
  }

  lemma {:induction false} AllEarned(H: Hash, gate: Tree -> bool, events: seq<Event>)
    requires forall e :: e in events ==> Allowed(e)
    ensures DiskEarned(H, gate, DiskAfter(H, gate, events), Trees(events))
  {
    if events != [] {
      var front, last := events[..|events| - 1], events[|events| - 1];
      assert last in events;
      AllEarned(H, gate, front);
      if last.Verify? {
        VerifyKeepsEarned(H, gate, DiskAfter(H, gate, front), last.job, Trees(front));
      } else {
        TouchKeepsEarned(H, gate, DiskAfter(H, gate, front), last, Trees(front));
      }
    }
  }

  /** These inputs are proper and no two messages hashed for them collide. */
  ghost predicate Sound(H: Hash, trees: seq<Tree>) {
    && (forall t :: t in trees ==> Proper(H, t))
    && CollisionFree(H, DependencyMessages(H, trees))
  }

  lemma SamePrintSameTree(H: Hash, trees: seq<Tree>, i: nat, j: nat)
    requires Sound(H, trees) && i < |trees| && j < |trees|
    requires Print(H, trees[i]) == Print(H, trees[j])
    ensures trees[i] == trees[j]
  {
    DependencyIsHashed(H, trees, i);
    DependencyIsHashed(H, trees, j);
    Fewer(H, Messages(H, trees[i]) + Messages(H, trees[j]), DependencyMessages(H, trees));
    PrintInjective(H, trees[i], trees[j]);
  }

  /** An earned record that vouches for a fingerprint vouches for the gate. */
  lemma VouchedFor(H: Hash, gate: Tree -> bool, f: FileText, trees: seq<Tree>, tree: Tree)
    requires Sound(H, trees + [tree]) && Earned(H, gate, f, trees)
    requires Vouches(f, Print(H, tree))
    ensures gate(tree)
  {
    var i :| 0 <= i < |trees| && gate(trees[i]) && Print(H, tree) == Print(H, trees[i]);
    var all := trees + [tree];
    assert all[i] == trees[i] && all[|trees|] == tree;
    SamePrintSameTree(H, all, i, |trees|);
  }

  lemma HitIsEarned(H: Hash, gate: Tree -> bool, events: seq<Event>, job: Job)
    requires forall e :: e in events ==> Allowed(e)
    requires Sound(H, Trees(events) + [job.tree])
    requires Lookup(H, DiskAfter(H, gate, events), job).Hit?
    ensures gate(job.tree)
  {
    AllEarned(H, gate, events);
    VouchedFor(H, gate, DiskAfter(H, gate, events)[PathOf(H, job)], Trees(events), job.tree);
  }

  /** Every PASS record carries its duration as a number. */
  predicate Numbered(f: FileText) {
    f.Object? && Has(f.record, Status, Text(Ascii("PASS"))) ==> DurationMs in f.record && f.record[DurationMs].Number?
  }

  predicate AllNumbered(disk: Disk) {
    forall path :: path in disk ==> Numbered(disk[path])
  }

  lemma VerifyKeepsNumbered(H: Hash, gate: Tree -> bool, disk: Disk, job: Job)
    requires AllNumbered(disk)
    ensures AllNumbered(Verified(H, gate, disk, job).1)
  {
    VerifyWrites(H, gate, disk, job);
    assert Numbered(Object(PassRecord(H, job)));
  }

  lemma TouchKeepsNumbered(disk: Disk, e: Event)
    requires AllNumbered(disk) && !e.Verify? && Allowed(e)
    ensures AllNumbered(Touched(disk, e))
  {
  }

  lemma {:induction false} StaysNumbered(H: Hash, gate: Tree -> bool, events: seq<Event>)
    requires forall e :: e in events ==> Allowed(e)
    ensures AllNumbered(DiskAfter(H, gate, events))
  {
    if events != [] {
      var front, last := events[..|events| - 1], events[|events| - 1];
      assert last in events;
      StaysNumbered(H, gate, front);
      if last.Verify? {
        VerifyKeepsNumbered(H, gate, DiskAfter(H, gate, front), last.job);
      } else {
        TouchKeepsNumbered(DiskAfter(H, gate, front), last);
      }
    }
  }

  lemma HitReads(H: Hash, gate: Tree -> bool, events: seq<Event>, job: Job)
    requires forall e :: e in events ==> Allowed(e)
    requires Lookup(H, DiskAfter(H, gate, events), job).Hit?
    ensures DurationReads(Lookup(H, DiskAfter(H, gate, events), job).record, job)
  {
    StaysNumbered(H, gate, events);
    assert Numbered(DiskAfter(H, gate, events)[PathOf(H, job)]);
  }

  /** The lookup comes upon a file it raises on. */
  predicate LookupRaises(H: Hash, disk: Disk, job: Job) {
    Missing(job.artifacts, job.isFile) == [] && PathOf(H, job) in disk && disk[PathOf(H, job)].ParserRaises?
  }

  /** The cache never changes a verdict: after any history, what is reported of a job
      is what running its gate would say, unless the lookup raises, which fails the
      component or ends the run but never passes it.  It rests on no two messages
      hashed on the way colliding. */
  lemma CacheEqualsRecomputation(H: Hash, gate: Tree -> bool, events: seq<Event>, job: Job, jobs: int)
    requires forall e :: e in events ==> Allowed(e)
    requires Sound(H, Trees(events) + [job.tree])
    ensures Reported(Verified(H, gate, DiskAfter(H, gate, events), job).0, jobs) ==
            if LookupRaises(H, DiskAfter(H, gate, events), job) then (if jobs <= 1 then Aborted else Fail)
            else if gate(job.tree) then Pass else Fail
  {
    if Lookup(H, DiskAfter(H, gate, events), job).Hit? {
      HitIsEarned(H, gate, events, job);
      HitReads(H, gate, events, job);
    }
  }

  /** Jobs that share a file are about the same inputs, however their components are
      spelled: the file is named by the digest. */
  lemma SharedFileSameInputs(H: Hash, job: Job, other: Job)
    requires SLASH !in Print(H, job.tree) && SLASH !in Print(H, other.tree)
    requires Sound(H, [job.tree, other.tree]) && PathOf(H, job) == PathOf(H, other)
    ensures job.tree == other.tree
  {
    var fp, gp := Print(H, job.tree), Print(H, other.tree);
    FileNamesAlike(job.root, job.tree.name, fp, other.root, other.tree.name, gp);
    SamePrintSameTree(H, [job.tree, other.tree], 0, 1);
  }

  /** And it is of use: a stored pass is found again while the artifacts are there. */
  lemma PassIsRemembered(H: Hash, gate: Tree -> bool, disk: Disk, job: Job, again: Job)
    requires Verified(H, gate, disk, job).0 == Passed && job.writable
    requires again.tree == job.tree && again.root == job.root && forall a :: a in again.artifacts ==> again.isFile(a)
    ensures Verified(H, gate, Verified(H, gate, disk, job).1, again) == (CachedPass, Verified(H, gate, disk, job).1)
  {
    var record, after := PassRecord(H, job), AfterPass(H, disk, job);
    assert Missing(again.artifacts, again.isFile) == [];
    assert after[PathOf(H, job)] == Object(record);
    assert Lookup(H, after, again) == Hit(record);
  }
}
