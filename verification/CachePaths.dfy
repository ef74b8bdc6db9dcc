/** The path of a cache record (scripts/ci/verify_component_cache.py, cache_entry_path),
    joined as pathlib does on POSIX. */
module CachePaths {
  import opened ChunkCode
  import opened FingerprintLayout

  const SLASH: Byte := 47
  const DOT: Byte := 46

  /** How many slashes it starts with, none, one or two, and the segments between. */
  datatype Path = Path(leading: nat, segments: seq<Bytes>)

  // ---------------------------------------------------------------- splitting a name

  /** The bytes behind the last slash. */
  function LastPiece(p: Bytes): Bytes {
    if p == [] || p[|p| - 1] == SLASH then [] else LastPiece(p[..|p| - 1]) + [p[|p| - 1]]
  }

  /** Empty pieces and single dots are dropped. */
  function Kept(piece: Bytes): seq<Bytes> {
    if piece == [] || piece == [DOT] then [] else [piece]
  }

  /** The segments that a slash has closed. */
  function ClosedSegments(p: Bytes): seq<Bytes> {
    if p == [] then []
    else
      var front := p[..|p| - 1];
      if p[|p| - 1] == SLASH then ClosedSegments(front) + Kept(LastPiece(front)) else ClosedSegments(front)
  }

  function Segments(p: Bytes): seq<Bytes> {
    ClosedSegments(p) + Kept(LastPiece(p))
  }

  /** Two leading slashes are kept, more are one. */
  function Leading(p: Bytes): nat {
    if p == [] || p[0] != SLASH then 0
    else if |p| >= 2 && p[1] == SLASH && (|p| == 2 || p[2] != SLASH) then 2
    else 1
  }

  predicate Relative(p: Bytes) {
    Leading(p) == 0
  }

  /** The operator / of Path: an absolute right side replaces the left. */
  function Joined(base: Path, p: Bytes): Path {
    if Relative(p) then Path(base.leading, base.segments + Segments(p)) else Path(Leading(p), Segments(p))
  }

  // ---------------------------------------------------------------- the path of a record

  function CacheRoot(root: Path): Path {
    Joined(root, Ascii(".cache/pipelinegen/verify"))
  }

  function FileName(fingerprint: Bytes): Bytes {
    fingerprint + Ascii(".json")
  }

  function EntryPath(root: Path, component: Bytes, fingerprint: Bytes): Path {
    Joined(Joined(CacheRoot(root), component), FileName(fingerprint))
  }

  // ---------------------------------------------------------------- which names are alike

  lemma SegmentsSnoc(p: Bytes, b: Byte)
    ensures LastPiece(p + [b]) == if b == SLASH then [] else LastPiece(p) + [b]
    ensures ClosedSegments(p + [b]) == if b == SLASH then Segments(p) else ClosedSegments(p)
  {
    assert (p + [b])[..|p|] == p;
  }

  lemma Assoc<T>(a: seq<T>, b: seq<T>, c: seq<T>)
    ensures (a + b) + c == a + (b + c)
  {
  }

  lemma FrontAndLast<T>(p: seq<T>, q: seq<T>)
    requires q != []
    ensures q == q[..|q| - 1] + [q[|q| - 1]] && p + q == (p + q[..|q| - 1]) + [q[|q| - 1]]
  {
  }

  /** The new name q behind what p closed. */
  predicate StartsAnew(p: Bytes, q: Bytes, all: Bytes) {
    LastPiece(all) == LastPiece(q) && ClosedSegments(all) == ClosedSegments(p) + ClosedSegments(q)
  }

  lemma AfterSlashStep(p: Bytes, front: Bytes, all: Bytes, b: Byte)
    requires StartsAnew(p, front, all)
    ensures StartsAnew(p, front + [b], all + [b])
  {
    SegmentsSnoc(all, b);
    SegmentsSnoc(front, b);
    Assoc(ClosedSegments(p), ClosedSegments(front), Kept(LastPiece(front)));
  }

  /** Behind a slash a new name starts. */
  lemma {:induction false} AfterSlash(p: Bytes, q: Bytes)
    requires LastPiece(p) == []
    ensures StartsAnew(p, q, p + q)
    decreases |q|
  {
    if q == [] {
      assert p + q == p;
    } else {
      var front, last := q[..|q| - 1], q[|q| - 1];
      AfterSlash(p, front);
      AfterSlashStep(p, front, p + front, last);
      FrontAndLast(p, q);
    }
  }

  /** A slash only separates the segments before it from those behind it. */
  lemma SegmentsOfParts(p: Bytes, q: Bytes)
    ensures Segments((p + [SLASH]) + q) == Segments(p) + Segments(q)
  {
    SegmentsSnoc(p, SLASH);
    AfterSlash(p + [SLASH], q);
    Assoc(Segments(p), ClosedSegments(q), Kept(LastPiece(q)));
  }

  lemma {:induction false} PlainName(p: Bytes)
    requires SLASH !in p
    ensures LastPiece(p) == p && ClosedSegments(p) == []
  {
    if p != [] {
      PlainName(p[..|p| - 1]);
      assert p[|p| - 1] in p && p == p[..|p| - 1] + [p[|p| - 1]];
    }
  }

  /** One leading slash, exactly two, or three and more. */
  lemma LeadingSlashes(p: Bytes)
    ensures p == [] || p[0] != SLASH ==> Leading(p) == 0
    ensures p == [] || p[0] != SLASH ==> Leading([SLASH] + p) == 1 && Leading([SLASH, SLASH] + p) == 2
    ensures Leading([SLASH, SLASH, SLASH] + p) == 1
  {
  }

  lemma AsciiPlain(name: string)
    requires '/' !in name
    ensures SLASH !in Ascii(name)
  {
    forall i | 0 <= i < |name| ensures Ascii(name)[i] != SLASH {
      assert name[i] in name;
    }
  }

  lemma AsciiBelow(p: string, q: string, all: string)
    requires all == (p + "/") + q
    ensures Ascii(all) == (Ascii(p) + [SLASH]) + Ascii(q)
  {
  }

  lemma NameBelow(p: string, q: string, all: string)
    requires '/' !in q && |q| > 1 && all == (p + "/") + q
    ensures Segments(Ascii(all)) == Segments(Ascii(p)) + [Ascii(q)]
  {
    AsciiBelow(p, q, all);
    AsciiPlain(q);
    SegmentsOfParts(Ascii(p), Ascii(q));
    PlainName(Ascii(q));
  }

  lemma FirstName()
    ensures Segments(Ascii(".cache")) == [Ascii(".cache")]
  {
    AsciiPlain(".cache");
    PlainName(Ascii(".cache"));
  }

  lemma TwoNames()
    ensures Segments(Ascii(".cache/pipelinegen")) == Segments(Ascii(".cache")) + [Ascii("pipelinegen")]
  {
    NameBelow(".cache", "pipelinegen", ".cache/pipelinegen");
  }

  lemma ThreeNames()
    ensures Segments(Ascii(".cache/pipelinegen/verify"))
         == Segments(Ascii(".cache/pipelinegen")) + [Ascii("verify")]
  {
    NameBelow(".cache/pipelinegen", "verify", ".cache/pipelinegen/verify");
  }

  /** Records live in .cache/pipelinegen/verify below the root. */
  lemma CacheRootIs(root: Path)
    ensures CacheRoot(root).leading == root.leading
    ensures CacheRoot(root).segments == root.segments + [Ascii(".cache"), Ascii("pipelinegen"), Ascii("verify")]
  {
    assert Relative(Ascii(".cache/pipelinegen/verify"));
    FirstName();
    TwoNames();
    ThreeNames();
  }

  lemma FileNameIsPlain(fingerprint: Bytes)
    requires SLASH !in fingerprint
    ensures Relative(FileName(fingerprint)) && Segments(FileName(fingerprint)) == [FileName(fingerprint)]
  {
    var name := FileName(fingerprint);
    assert |Ascii(".json")| == 5 && SLASH !in Ascii(".json");
    assert name[0] in name;
    PlainName(name);
  }

  lemma LastSegment(root: Path, component: Bytes, fingerprint: Bytes)
    requires SLASH !in fingerprint
    ensures var folder, path := Joined(CacheRoot(root), component), EntryPath(root, component, fingerprint);
            path == Path(folder.leading, folder.segments + [FileName(fingerprint)])
  {
    FileNameIsPlain(fingerprint);
  }

  lemma SameFileName(f: Bytes, g: Bytes)
    requires FileName(f) == FileName(g)
    ensures f == g
  {
    assert f == FileName(f)[..|f|] && g == FileName(g)[..|g|];
  }

  /** Two names lead to one directory below base: they start alike and have the same
      segments, or one of them spells out base. */
  predicate SameFolder(base: Path, c: Bytes, d: Bytes) {
    if Relative(c) == Relative(d) then Leading(c) == Leading(d) && Segments(c) == Segments(d)
    else if Relative(c) then base.leading == Leading(d) && base.segments + Segments(c) == Segments(d)
    else base.leading == Leading(c) && base.segments + Segments(d) == Segments(c)
  }

  lemma FoldersAlike(base: Path, c: Bytes, d: Bytes)
    ensures Joined(base, c) == Joined(base, d) <==> SameFolder(base, c, d)
  {
    assert (base.segments + Segments(c))[|base.segments|..] == Segments(c);
    assert (base.segments + Segments(d))[|base.segments|..] == Segments(d);
  }

  /** Whatever directories they are in, one file has one fingerprint. */
  lemma FileNamesAlike(root: Path, c: Bytes, f: Bytes, other: Path, d: Bytes, g: Bytes)
    requires SLASH !in f && SLASH !in g && EntryPath(root, c, f) == EntryPath(other, d, g)
    ensures f == g && Joined(CacheRoot(root), c) == Joined(CacheRoot(other), d)
  {
    LastSegment(root, c, f);
    LastSegment(other, d, g);
    SnocAlike(Joined(CacheRoot(root), c).segments, FileName(f), Joined(CacheRoot(other), d).segments, FileName(g));
    SameFileName(f, g);
  }

  /** Two component/fingerprint pairs share a file exactly when the fingerprints are
      the same and the names lead to the same directory; a digest holds no slash. */
  lemma EntryPathsExactly(root: Path, c: Bytes, f: Bytes, d: Bytes, g: Bytes)
    requires SLASH !in f && SLASH !in g
    ensures EntryPath(root, c, f) == EntryPath(root, d, g) <==> f == g && SameFolder(CacheRoot(root), c, d)
  {
    FoldersAlike(CacheRoot(root), c, d);
    if EntryPath(root, c, f) == EntryPath(root, d, g) {
      FileNamesAlike(root, c, f, root, d, g);
    }
  }

  lemma SnocAlike<T>(s: seq<T>, x: T, t: seq<T>, y: T)
    requires s + [x] == t + [y]
    ensures s == t && x == y
  {
    assert s == (s + [x])[..|s|] && t == (t + [y])[..|t|];
    assert x == (s + [x])[|s|] && y == (t + [y])[|t|];
  }

  lemma SameEntry(root: Path, c: Bytes, d: Bytes, f: Bytes)
    requires Relative(c) && Relative(d) && Segments(c) == Segments(d)
    ensures EntryPath(root, c, f) == EntryPath(root, d, f)
  {
  }

  lemma StaysRelative(p: Bytes, q: Bytes)
    requires Relative(p) && p != []
    ensures Relative(p + q)
  {
    assert (p + q)[0] == p[0];
  }

  lemma NothingHasNoSegments()
    ensures Segments([]) == [] && Segments([DOT]) == []
  {
    PlainName([DOT]);
  }

  /** "./a" is "a". */
  lemma DotAlias(root: Path, c: Bytes, d: Bytes, f: Bytes)
    requires Relative(c) && d == ([DOT] + [SLASH]) + c
    ensures EntryPath(root, d, f) == EntryPath(root, c, f)
  {
    SegmentsOfParts([DOT], c);
    NothingHasNoSegments();
    StaysRelative([DOT] + [SLASH], c);
    SameEntry(root, d, c, f);
  }

  /** "a/" is "a". */
  lemma TrailingAlias(root: Path, c: Bytes, d: Bytes, f: Bytes)
    requires Relative(c) && c != [] && d == c + [SLASH]
    ensures EntryPath(root, d, f) == EntryPath(root, c, f)
  {
    SegmentsOfParts(c, []);
    NothingHasNoSegments();
    assert d + [] == d;
    StaysRelative(c, [SLASH]);
    SameEntry(root, d, c, f);
  }

  lemma SlashAddsNothing(rest: Bytes, more: Bytes)
    requires more == [SLASH] + rest
    ensures Segments(more) == Segments(rest)
  {
    SegmentsOfParts([], rest);
    NothingHasNoSegments();
    assert ([] + [SLASH]) + rest == more;
  }

  /** "a//b" is "a/b". */
  lemma DoubledAlias(root: Path, c: Bytes, rest: Bytes, more: Bytes, f: Bytes)
    requires Relative(c) && c != [] && more == [SLASH] + rest
    ensures EntryPath(root, (c + [SLASH]) + more, f) == EntryPath(root, (c + [SLASH]) + rest, f)
  {
    SlashAddsNothing(rest, more);
    SegmentsOfParts(c, rest);
    SegmentsOfParts(c, more);
    StaysRelative(c, [SLASH]);
    StaysRelative(c + [SLASH], rest);
    StaysRelative(c + [SLASH], more);
    SameEntry(root, (c + [SLASH]) + more, (c + [SLASH]) + rest, f);
  }
}
