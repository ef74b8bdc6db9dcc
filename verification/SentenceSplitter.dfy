/** Cutting text into sentences (cmd/semantic-extract/text.go, splitSentences), and
    what becomes of text that is not valid UTF-8. */
module SentenceSplitter {
  import opened Utf8Text
  import opened WordText

  predicate EndsSentence(r: Rune) {
    r == 0x2E || r == 0x21 || r == 0x3F || r == 0x0A
  }

  /** A sentence ends after the i-th rune: at a line feed, or at a full stop,
      exclamation or question mark that ends the text or has white space behind it. */
  predicate IsCut(t: Text, i: nat)
    requires i < |t|
  {
    EndsSentence(t[i]) && (t[i] == 0x0A || i + 1 == |t| || IsSpace(t[i + 1]))
  }

  /** Where the sentence containing position i begins. */
  function StartOf(t: Text, i: nat): (s: nat)
    requires i <= |t|
    ensures s <= i
  {
    if i == 0 then 0 else if IsCut(t, i - 1) then i else StartOf(t, i - 1)
  }

  /** It begins right after the last cut before position i. */
  lemma {:induction false} StartIsAfterLastCut(t: Text, i: nat)
    requires i <= |t|
    ensures StartOf(t, i) == 0 || IsCut(t, StartOf(t, i) - 1)
    ensures forall j :: StartOf(t, i) <= j < i ==> !IsCut(t, j)
  {
    if i > 0 {
      StartIsAfterLastCut(t, i - 1);
    }
  }

  /** The sentences cut off in the first i runes, white space and all. */
  function Segments(t: Text, i: nat): seq<Text>
    requires i <= |t|
  {
    if i == 0 then []
    else if IsCut(t, i - 1) then Segments(t, i - 1) + [t[StartOf(t, i - 1)..i]]
    else Segments(t, i - 1)
  }

  function Concat(parts: seq<Text>): Text {
    if parts == [] then [] else Concat(parts[..|parts| - 1]) + parts[|parts| - 1]
  }

  /** Pieces that are more than white space, trimmed. */
  function Pieces(parts: seq<Text>): seq<Text> {
    if parts == [] then []
    else Pieces(parts[..|parts| - 1]) + Single(Trim(parts[|parts| - 1]))
  }

  function Sentences(t: Text): seq<Text> {
    Pieces(Segments(t, |t|) + [t[StartOf(t, |t|)..]])
  }

  function AllWords(parts: seq<Text>): seq<Text> {
    if parts == [] then [] else AllWords(parts[..|parts| - 1]) + Words(parts[|parts| - 1])
  }

  // ---------------------------------------------------------------- sentences

  lemma ConcatSnoc(parts: seq<Text>, p: Text)
    ensures Concat(parts + [p]) == Concat(parts) + p
  {
    assert (parts + [p])[..|parts|] == parts;
  }

  lemma AllWordsSnoc(parts: seq<Text>, p: Text)
    ensures AllWords(parts + [p]) == AllWords(parts) + Words(p)
  {
    assert (parts + [p])[..|parts|] == parts;
  }

  lemma PiecesSnoc(parts: seq<Text>, p: Text)
    ensures Pieces(parts + [p]) == Pieces(parts) + Single(Trim(p))
  {
    assert (parts + [p])[..|parts|] == parts;
  }

  /** The segments are the text, nothing lost and nothing twice. */
  lemma {:induction false} SegmentsAreText(t: Text, i: nat)
    requires i <= |t|
    ensures Concat(Segments(t, i)) == t[..StartOf(t, i)]
  {
    if i > 0 {
      SegmentsAreText(t, i - 1);
      if IsCut(t, i - 1) {
        var s := StartOf(t, i - 1);
        ConcatSnoc(Segments(t, i - 1), t[s..i]);
        SliceJoins(t, s, i);
      }
    }
  }

  /** No sentence cut falls inside a word. */
  lemma CutsAreSafe(t: Text, i: nat)
    requires i < |t| && IsCut(t, i)
    ensures CutIsSafe(t[..i + 1], t[i + 1..])
    ensures Words(t) == Words(t[..i + 1]) + Words(t[i + 1..])
  {
    var a, b := t[..i + 1], t[i + 1..];
    assert a[|a| - 1] == t[i];
    assert b != [] ==> b[0] == t[i + 1];
    WordsOfParts(a, b);
    assert t == a + b;
  }

  lemma WordsOfSlices(t: Text, s: nat, i: nat)
    requires s <= i <= |t|
    requires 0 < s < i ==> IsSpace(t[s - 1]) || IsSpace(t[s])
    ensures Words(t[..i]) == Words(t[..s]) + Words(t[s..i])
  {
    var a, b := t[..s], t[s..i];
    assert t[..i] == a + b;
    assert s > 0 ==> a[|a| - 1] == t[s - 1];
    assert s < i ==> b[0] == t[s];
    WordsOfParts(a, b);
  }

  /** The part of the text already cut off, and the sentence ending after rune i. */
  function CutOff(t: Text, i: nat): Text
    requires i <= |t|
  {
    t[..StartOf(t, i)]
  }

  function SentenceEndingAt(t: Text, i: nat): Text
    requires i < |t|
  {
    t[StartOf(t, i)..i + 1]
  }

  lemma NextSegment(t: Text, i: nat)
    requires i < |t|
    ensures StartOf(t, i + 1) == if IsCut(t, i) then i + 1 else StartOf(t, i)
    ensures Segments(t, i + 1) == if IsCut(t, i) then Segments(t, i) + [SentenceEndingAt(t, i)] else Segments(t, i)
  {
  }

  lemma WordsOfSentence(t: Text, i: nat)
    requires i < |t| && IsCut(t, i)
    ensures Words(CutOff(t, i + 1)) == Words(CutOff(t, i)) + Words(SentenceEndingAt(t, i))
  {
    StartIsAfterLastCut(t, i);
    NextSegment(t, i);
    WordsOfSlices(t, StartOf(t, i), i + 1);
  }

  lemma Glue(front: seq<Text>, seg: Text, before: seq<Text>, all: seq<Text>)
    requires AllWords(front) == before && all == before + Words(seg)
    ensures AllWords(front + [seg]) == all
  {
    AllWordsSnoc(front, seg);
  }

  lemma {:induction false} SegmentWords(t: Text, i: nat)
    requires i <= |t|
    ensures AllWords(Segments(t, i)) == Words(CutOff(t, i))
  {
    if i > 0 {
      var k := i - 1;
      SegmentWords(t, k);
      NextSegment(t, k);
      if IsCut(t, k) {
        WordsOfSentence(t, k);
        Glue(Segments(t, k), SentenceEndingAt(t, k), Words(CutOff(t, k)), Words(CutOff(t, k + 1)));
      }
    }
  }

  lemma {:induction false} PieceWords(parts: seq<Text>)
    ensures AllWords(Pieces(parts)) == AllWords(parts)
  {
    if parts != [] {
      var front, last := parts[..|parts| - 1], parts[|parts| - 1];
      PieceWords(front);
      TrimKeepsWords(last);
      if Trim(last) == [] {
        assert Pieces(parts) == Pieces(front);
        assert Words(last) == [];
      } else {
        AllWordsSnoc(Pieces(front), Trim(last));
      }
    }
  }

  lemma {:induction false} PiecesAreTrimmed(parts: seq<Text>)
    ensures forall i :: 0 <= i < |Pieces(parts)| ==> Trimmed(Pieces(parts)[i])
  {
    if parts != [] {
      PiecesAreTrimmed(parts[..|parts| - 1]);
      TrimKeepsWords(parts[|parts| - 1]);
    }
  }

  lemma SentencesAreTrimmed(t: Text)
    ensures forall i :: 0 <= i < |Sentences(t)| ==> Trimmed(Sentences(t)[i])
  {
    PiecesAreTrimmed(Segments(t, |t|) + [t[StartOf(t, |t|)..]]);
  }

  lemma WordsOfWhole(t: Text, s: nat)
    requires s <= |t|
    requires 0 < s < |t| ==> IsSpace(t[s - 1]) || IsSpace(t[s])
    ensures Words(t) == Words(t[..s]) + Words(t[s..])
  {
    WordsOfSlices(t, s, |t|);
    assert t[..|t|] == t && t[s..|t|] == t[s..];
  }

  /** The sentences have the words of the text, in order. */
  lemma SentencesKeepWords(t: Text)
    ensures AllWords(Sentences(t)) == Words(t)
  {
    var s := StartOf(t, |t|);
    PieceWords(Segments(t, |t|) + [t[s..]]);
    AllWordsSnoc(Segments(t, |t|), t[s..]);
    SegmentWords(t, |t|);
    StartIsAfterLastCut(t, |t|);
    WordsOfWhole(t, s);
  }

  // ---------------------------------------------------------------- which cuts these are

  /** A text ends with a line feed, or ends with a full stop, an exclamation mark or a
      question mark and what follows starts with white space, if it starts at all. */
  predicate Closes(a: Text, b: Text) {
    a != [] &&
    var last := a[|a| - 1];
    || last == '\n' as int
    || ((last == '.' as int || last == '!' as int || last == '?' as int) && (b == [] || IsSpace(b[0])))
  }

  lemma PiecesFurther(p: seq<Text>, front: seq<Text>, last: Text)
    requires Pieces(p + front) == Pieces(p) + Pieces(front)
    ensures Pieces(p + (front + [last])) == Pieces(p) + Pieces(front + [last])
  {
    PiecesSnoc(p + front, last);
    PiecesSnoc(front, last);
    SeqAssoc(p, front, [last]);
    SeqAssoc(Pieces(p), Pieces(front), Single(Trim(last)));
  }

  lemma {:induction false} PiecesConcat(p: seq<Text>, q: seq<Text>)
    ensures Pieces(p + q) == Pieces(p) + Pieces(q)
  {
    if q == [] {
      assert p + q == p;
    } else {
      var front, last := q[..|q| - 1], q[|q| - 1];
      PiecesConcat(p, front);
      PiecesFurther(p, front, last);
      assert q == front + [last];
    }
  }

  lemma SameCut(a: Text, b: Text, j: nat)
    requires Closes(a, b) && j < |a|
    ensures IsCut(a + b, j) == IsCut(a, j)
  {
    if j + 1 == |a| {
      assert IsCut(a, j) && (b != [] ==> (a + b)[j + 1] == b[0]);
    } else {
      assert (a + b)[j + 1] == a[j + 1];
    }
  }

  lemma {:induction false} FrontOf(a: Text, b: Text, i: nat)
    requires Closes(a, b) && i <= |a|
    ensures StartOf(a + b, i) == StartOf(a, i) && Segments(a + b, i) == Segments(a, i)
  {
    if i > 0 {
      FrontOf(a, b, i - 1);
      SameCut(a, b, i - 1);
      var s := StartOf(a, i - 1);
      assert (a + b)[s..i] == a[s..i];
    }
  }

  lemma BackSlice(a: Text, b: Text, s: nat, j: nat)
    requires s <= j <= |b|
    ensures (a + b)[|a| + s..|a| + j] == b[s..j]
  {
  }

  lemma LaterCut(a: Text, b: Text, j: nat)
    requires j < |b|
    ensures IsCut(a + b, |a| + j) == IsCut(b, j)
  {
    assert j + 1 < |b| ==> (a + b)[|a| + j + 1] == b[j + 1];
  }

  lemma LongerBack(t: Text, n: nat, s: nat, front: seq<Text>, back: seq<Text>, more: seq<Text>, seg: Text)
    requires n < |t| && StartOf(t, n) == s && Segments(t, n) == front + back && t[s..n + 1] == seg
    requires more == if IsCut(t, n) then back + [seg] else back
    ensures Segments(t, n + 1) == front + more
  {
    NextSegment(t, n);
    SeqAssoc(front, back, [seg]);
  }

  lemma BackFurther(a: Text, b: Text, t: Text, n: nat, k: nat)
    requires t == a + b && k < |b| && n == |a| + k
    requires StartOf(t, n) == |a| + StartOf(b, k) && Segments(t, n) == Segments(a, |a|) + Segments(b, k)
    ensures StartOf(t, n + 1) == |a| + StartOf(b, k + 1)
    ensures Segments(t, n + 1) == Segments(a, |a|) + Segments(b, k + 1)
  {
    var s := StartOf(b, k);
    LaterCut(a, b, k);
    NextSegment(t, n);
    NextSegment(b, k);
    BackSlice(a, b, s, k + 1);
    LongerBack(t, n, |a| + s, Segments(a, |a|), Segments(b, k), Segments(b, k + 1), b[s..k + 1]);
  }

  lemma {:induction false} BackOf(a: Text, b: Text, j: nat)
    requires Closes(a, b) && j <= |b|
    ensures StartOf(a + b, |a| + j) == |a| + StartOf(b, j)
    ensures Segments(a + b, |a| + j) == Segments(a, |a|) + Segments(b, j)
  {
    if j == 0 {
      FrontOf(a, b, |a|);
      SameCut(a, b, |a| - 1);
    } else {
      BackOf(a, b, j - 1);
      BackFurther(a, b, a + b, |a| + (j - 1), j - 1);
    }
  }

  lemma BackWhole(a: Text, b: Text, t: Text, n: nat)
    requires Closes(a, b) && t == a + b && n == |a| + |b|
    ensures Segments(t, n) == Segments(a, |a|) + Segments(b, |b|)
    ensures t[StartOf(t, n)..] == b[StartOf(b, |b|)..]
  {
    BackOf(a, b, |b|);
  }

  lemma SentencesAre(t: Text, segments: seq<Text>, rest: Text)
    requires segments == Segments(t, |t|) && rest == t[StartOf(t, |t|)..]
    ensures Sentences(t) == Pieces(segments + [rest])
  {
  }

  lemma ClosedSentences(a: Text)
    requires Closes(a, [])
    ensures Sentences(a) == Pieces(Segments(a, |a|))
  {
    assert IsCut(a, |a| - 1);
    assert a[|a|..] == [] && Trim([]) == [];
    PiecesSnoc(Segments(a, |a|), []);
    SentencesAre(a, Segments(a, |a|), []);
  }

  /** Where a text closes, its sentences are those before and those after ... */
  lemma SentencesOfParts(a: Text, b: Text)
    requires Closes(a, b)
    ensures Sentences(a + b) == Sentences(a) + Sentences(b)
  {
    var front, back, rest := Segments(a, |a|), Segments(b, |b|), b[StartOf(b, |b|)..];
    BackWhole(a, b, a + b, |a + b|);
    SentencesAre(a + b, front + back, rest);
    SeqAssoc(front, back, [rest]);
    PiecesConcat(front, back + [rest]);
    ClosedSentences(a);
  }

  /** ... and a text that closes nowhere is one sentence, or none when it is blank. */
  lemma OneSentence(t: Text)
    requires forall i :: 0 < i <= |t| ==> !Closes(t[..i], t[i..])
    ensures Sentences(t) == if Trim(t) == [] then [] else [Trim(t)]
  {
    forall j | 0 <= j < |t| ensures !IsCut(t, j) {
      assert !Closes(t[..j + 1], t[j + 1..]);
    }
    NoCutNoSegment(t, |t|);
    assert t[0..] == t;
    PiecesSnoc([], t);
  }

  lemma {:induction false} NoCutNoSegment(t: Text, i: nat)
    requires i <= |t| && forall j :: 0 <= j < |t| ==> !IsCut(t, j)
    ensures StartOf(t, i) == 0 && Segments(t, i) == []
  {
    if i > 0 {
      NoCutNoSegment(t, i - 1);
    }
  }

  // ---------------------------------------------------------------- the bytes that are sliced

  /** A slice of the text beyond its end is a run-time panic. */
  datatype Split = Panicked | Done(parts: seq<Text>)

  function SliceText(b: Bytes, lo: nat, hi: nat): Text {
    if lo <= hi <= |b| then Decode(b[lo..hi]) else []
  }

  /** The computed offset of some cut lies behind the end of the text. */
  predicate Overruns(b: Bytes) {
    exists i :: 0 <= i < |Decode(b)| && IsCut(Decode(b), i) && Offset(Decode(b), i + 1) > |b|
  }

  /** The segments as the computed offsets slice them out of the text. */
  function RawSegments(b: Bytes, i: nat): seq<Text>
    requires i <= |Decode(b)|
  {
    var t := Decode(b);
    if i == 0 then []
    else if IsCut(t, i - 1) then RawSegments(b, i - 1) + [SliceText(b, Offset(t, StartOf(t, i - 1)), Offset(t, i))]
    else RawSegments(b, i - 1)
  }

  function RawSentences(b: Bytes): seq<Text> {
    var t := Decode(b);
    Pieces(RawSegments(b, |t|) + [SliceText(b, Offset(t, StartOf(t, |t|)), |b|)])
  }

  lemma {:induction false} OffsetMonotone(t: Text, i: nat, j: nat)
    requires i <= j <= |t|
    ensures Offset(t, i) <= Offset(t, j)
  {
    if i < j {
      OffsetMonotone(t, i, j - 1);
    }
  }

  /** Where the loop stands before rune i: no cut has overrun, the sentences so far are
      sliced out, and the next one starts here. */
  predicate CutUpTo(b: Bytes, i: nat, start: nat, pieces: seq<Text>) {
    && i <= |Decode(b)|
    && start == Offset(Decode(b), StartOf(Decode(b), i)) && start <= |b|
    && pieces == Pieces(RawSegments(b, i))
    && forall j :: 0 <= j < i && IsCut(Decode(b), j) ==> Offset(Decode(b), j + 1) <= |b|
  }

  lemma PassRune(b: Bytes, i: nat, start: nat, pieces: seq<Text>)
    requires CutUpTo(b, i, start, pieces) && i < |Decode(b)| && !IsCut(Decode(b), i)
    ensures CutUpTo(b, i + 1, start, pieces)
  {
  }

  lemma CutAfterRune(b: Bytes, i: nat, start: nat, end: nat, pieces: seq<Text>, more: seq<Text>)
    requires CutUpTo(b, i, start, pieces) && i < |Decode(b)| && IsCut(Decode(b), i)
    requires end == Offset(Decode(b), i + 1) && end <= |b|
    requires more == Pieces(RawSegments(b, i) + [SliceText(b, start, end)])
    ensures CutUpTo(b, i + 1, end, more)
  {
  }

  lemma StartBelow(b: Bytes, i: nat, start: nat, pieces: seq<Text>)
    requires CutUpTo(b, i, start, pieces) && i < |Decode(b)|
    ensures start <= Offset(Decode(b), i + 1)
  {
    OffsetMonotone(Decode(b), StartOf(Decode(b), i), i + 1);
  }

  /** splitSentences, with the byte offsets it computes, on any bytes. */
  method SplitSentences(text: Bytes) returns (out: Split)
    ensures out.Panicked? <==> Overruns(text)
    ensures out.Done? ==> out.parts == RawSentences(text)
  {
    var pieces: seq<Text> := [];
    var start: nat := 0;
    var runes := Decode(text);
    var byteOffsets := ByteOffsets(runes);
    for i := 0 to |runes|
      invariant CutUpTo(text, i, start, pieces)
    {
      var r := runes[i];
      if !EndsSentence(r) || (r != 0x0A && i + 1 < |runes| && !IsSpace(runes[i + 1])) {
        PassRune(text, i, start, pieces);
        continue;
      }
      var end := byteOffsets[i + 1];
      StartBelow(text, i, start, pieces);
      if end > |text| {
        assert IsCut(runes, i);
        return Panicked;
      }
      var more := AppendPiece(pieces, text, start, end, RawSegments(text, i));
      CutAfterRune(text, i, start, end, pieces, more);
      pieces, start := more, end;
    }
    pieces := AppendPiece(pieces, text, start, |text|, RawSegments(text, |runes|));
    return Done(pieces);
  }

  predicate AreOffsets(byteOffsets: seq<nat>, t: Text, i: nat) {
    |byteOffsets| == i + 1 && i <= |t| && forall j :: 0 <= j <= i ==> byteOffsets[j] == Offset(t, j)
  }

  lemma NextOffset(byteOffsets: seq<nat>, t: Text, i: nat)
    requires i < |t| && AreOffsets(byteOffsets, t, i)
    ensures AreOffsets(byteOffsets + [byteOffsets[i] + RuneLen(t[i])], t, i + 1)
  {
    OffsetNext(t, i);
  }

  method ByteOffsets(runes: Text) returns (byteOffsets: seq<nat>)
    ensures |byteOffsets| == |runes| + 1
    ensures forall j :: 0 <= j <= |runes| ==> byteOffsets[j] == Offset(runes, j)
  {
    byteOffsets := [0];
    for i := 0 to |runes|
      invariant AreOffsets(byteOffsets, runes, i)
    {
      NextOffset(byteOffsets, runes, i);
      byteOffsets := byteOffsets + [byteOffsets[i] + RuneLen(runes[i])];
    }
  }

  /** A slice that is more than white space becomes a sentence. */
  method AppendPiece(out: seq<Text>, text: Bytes, start: nat, end: nat, ghost parts: seq<Text>)
    returns (longer: seq<Text>)
    requires start <= end <= |text| && out == Pieces(parts)
    ensures longer == Pieces(parts + [SliceText(text, start, end)])
  {
    PiecesSnoc(parts, SliceText(text, start, end));
    var piece := Trim(Decode(text[start..end]));
    longer := if piece != [] then out + [piece] else out;
  }

  // ---------------------------------------------------------------- when the cuts are right

  /** Every cut is computed where the runes before it really end. */
  predicate CutsRight(b: Bytes) {
    forall i :: 0 <= i < |Decode(b)| && IsCut(Decode(b), i) ==> Offset(Decode(b), i + 1) == Position(b, i + 1)
  }

  /** No byte that is no UTF-8 stands before a cut. */
  predicate CutsClean(b: Bytes) {
    forall i :: 0 <= i < |Decode(b)| && IsCut(Decode(b), i) ==> Clean(b, i + 1)
  }

  lemma CutsRightExactly(b: Bytes)
    ensures CutsRight(b) <==> CutsClean(b)
  {
    forall i | 0 <= i < |Decode(b)| && IsCut(Decode(b), i)
      ensures Offset(Decode(b), i + 1) == Position(b, i + 1) <==> Clean(b, i + 1)
    {
      OffsetsExact(b, i + 1);
    }
  }

  /** Where a sentence starts is as right as the cuts are. */
  lemma StartIsRight(b: Bytes, i: nat)
    requires CutsClean(b) && i <= |Decode(b)|
    ensures Offset(Decode(b), StartOf(Decode(b), i)) == Position(b, StartOf(Decode(b), i))
  {
    var t := Decode(b);
    StartIsAfterLastCut(t, i);
    if StartOf(t, i) > 0 {
      var last := StartOf(t, i) - 1;
      assert IsCut(t, last);
      OffsetsExact(b, last + 1);
    }
  }

  lemma NextIsRight(b: Bytes, t: Text, k: nat)
    requires t == Decode(b) && CutsClean(b) && k < |t| && IsCut(t, k)
    ensures SliceText(b, Offset(t, StartOf(t, k)), Offset(t, k + 1)) == SentenceEndingAt(t, k)
  {
    SlicesAlign(b, StartOf(t, k), k + 1);
  }

  lemma {:induction false} SegmentsAreRight(b: Bytes, i: nat)
    requires CutsClean(b) && i <= |Decode(b)|
    ensures RawSegments(b, i) == Segments(Decode(b), i)
  {
    if i > 0 {
      var t, k := Decode(b), i - 1;
      SegmentsAreRight(b, k);
      NextSegment(t, k);
      if IsCut(t, k) {
        NextIsRight(b, t, k);
      }
    }
  }

  /** With clean cuts the sentences are those of the decoded text. */
  lemma CleanCutsSuffice(b: Bytes)
    requires CutsClean(b)
    ensures !Overruns(b) && RawSentences(b) == Sentences(Decode(b))
  {
    var t := Decode(b);
    forall i | 0 <= i < |t| && IsCut(t, i) ensures Offset(t, i + 1) <= |b| {
      OffsetsExact(b, i + 1);
    }
    SegmentsAreRight(b, |t|);
    StartIsRight(b, |t|);
    LastPosition(b);
    SliceAtPositions(b, StartOf(t, |t|), |t|, Offset(t, StartOf(t, |t|)), |b|);
    assert t[StartOf(t, |t|)..|t|] == t[StartOf(t, |t|)..];
  }

  lemma ValidCutsClean(b: Bytes)
    requires Valid(b)
    ensures CutsClean(b)
  {
    forall i | 0 <= i < |Decode(b)| && IsCut(Decode(b), i) ensures Clean(b, i + 1) {
      ValidIsClean(b, i + 1);
    }
  }

  // ---------------------------------------------------------------- a cut in the wrong place

  /** With a single cut after rune c everything up to it is the one segment. */
  lemma {:induction false} SingleCut(t: Text, c: nat, i: nat)
    requires c < |t| && i <= |t| && forall j :: 0 <= j < |t| ==> (IsCut(t, j) <==> j == c)
    ensures i <= c ==> StartOf(t, i) == 0 && Segments(t, i) == []
    ensures i > c ==> StartOf(t, i) == c + 1 && Segments(t, i) == [t[0..c + 1]]
  {
    if i > 0 {
      SingleCut(t, c, i - 1);
    }
  }

  lemma {:induction false} SingleRawCut(b: Bytes, c: nat, i: nat)
    requires c < |Decode(b)| && i <= |Decode(b)|
    requires forall j :: 0 <= j < |Decode(b)| ==> (IsCut(Decode(b), j) <==> j == c)
    ensures i <= c ==> RawSegments(b, i) == []
    ensures i > c ==> RawSegments(b, i) == [SliceText(b, 0, Offset(Decode(b), c + 1))]
  {
    if i > 0 {
      SingleRawCut(b, c, i - 1);
      SingleCut(Decode(b), c, i - 1);
    }
  }

  lemma TwoSlices(b: Bytes, t: Text, c: nat, k: nat)
    requires t == Decode(b) && c < |t| && k == Offset(t, c + 1)
    requires forall j :: 0 <= j < |t| ==> (IsCut(t, j) <==> j == c)
    ensures RawSentences(b) == Pieces([SliceText(b, 0, k)] + [SliceText(b, k, |b|)])
    ensures Sentences(t) == Pieces([t[0..c + 1]] + [t[c + 1..]])
  {
    SingleCut(t, c, |t|);
    SingleRawCut(b, c, |t|);
  }

  predicate IsAscii(b: Bytes) {
    forall i :: 0 <= i < |b| ==> b[i] < 0x80
  }

  lemma {:induction false} DecodeAscii(b: Bytes)
    requires IsAscii(b)
    ensures Decode(b) == b
  {
    if b != [] {
      DecodeAscii(b[1..]);
    }
  }

  lemma DecodeAfterBroken(b: Bytes, rest: Bytes)
    requires b == [0xFF] + rest && IsAscii(rest)
    ensures Decode(b) == [REPLACEMENT] + rest
  {
    DecodeAscii(rest);
    assert FirstRune(b) == (REPLACEMENT, 1);
    assert b[1..] == rest;
  }

  lemma TwoPieces(p: Text, q: Text)
    requires Trimmed(p) && q != [] && !IsSpace(q[|q| - 1])
    ensures Trimmed(q) ==> Pieces([p] + [q]) == [p] + [q]
    ensures IsSpace(q[0]) && |q| > 1 && !IsSpace(q[1]) ==> Pieces([p] + [q]) == [p] + [q[1..]]
  {
    PiecesSnoc([p], q);
    PiecesSnoc([], p);
    assert [] + [p] == [p];
    TrimmedIsFixed(p);
    if Trimmed(q) {
      TrimmedIsFixed(q);
    } else if |q| > 1 && !IsSpace(q[1]) {
      assert TrimLeft(q) == TrimLeft(q[1..]) == q[1..];
    }
  }

  lemma LastDiffers<T>(s: seq<T>, x: T, t: seq<T>, y: T)
    requires x != y
    ensures s + [x] != t + [y]
  {
    assert (s + [x])[|s|] == x && (t + [y])[|t|] == y;
  }

  lemma AllWordsOne(p: Text, one: seq<Text>)
    requires one == [p]
    ensures AllWords(one) == Words(p)
  {
    assert one[..0] == [];
  }

  lemma LastWord(p: Text, word: Text)
    requires IsWord(word)
    ensures AllWords([p] + [word]) == Words(p) + [word]
  {
    AllWordsSnoc([p], word);
    AllWordsOne(p, [p]);
    WordAlone(word);
  }

  /** A broken byte, a full stop, a space and a word: "?. abcd". */
  predicate BrokenText(b: Bytes) {
    && |b| == 7 && b[0] == 0xFF && b[1] == 0x2E && b[2] == 0x20
    && b[3] == 0x61 && b[4] == 0x62 && b[5] == 0x63 && b[6] == 0x64
  }

  lemma BrokenTextCut(b: Bytes)
    requires BrokenText(b)
    ensures |Decode(b)| == 7 && Decode(b) == [REPLACEMENT] + b[1..]
    ensures forall j :: 0 <= j < 7 ==> (IsCut(Decode(b), j) <==> j == 1)
    ensures Offset(Decode(b), 2) == 4
  {
    DecodeAfterBroken(b, b[1..]);
    OffsetNext(Decode(b), 1);
    OffsetNext(Decode(b), 0);
  }

  lemma BrokenTextSentences(b: Bytes, t: Text)
    requires BrokenText(b) && t == Decode(b)
    ensures |t| == 7 && Sentences(t) == [t[0..2]] + [b[3..]]
  {
    BrokenTextCut(b);
    TwoSlices(b, t, 1, 4);
    assert t[0..2][0] == REPLACEMENT && t[0..2][1] == 0x2E;
    assert t[2..] == b[2..] && b[2..][1..] == b[3..];
    TwoPieces(t[0..2], t[2..]);
  }

  lemma BrokenTextSlices(b: Bytes)
    requires BrokenText(b)
    ensures SliceText(b, 0, 4) == [REPLACEMENT] + b[1..4]
    ensures SliceText(b, 4, 7) == b[4..]
  {
    assert b[0..4] == [0xFF] + b[1..4];
    DecodeAfterBroken(b[0..4], b[1..4]);
    assert b[4..7] == b[4..];
    DecodeAscii(b[4..7]);
  }

  lemma BrokenTextRaw(b: Bytes, p: Text)
    requires BrokenText(b) && p == SliceText(b, 0, 4)
    ensures RawSentences(b) == [p] + [b[4..]]
  {
    BrokenTextCut(b);
    TwoSlices(b, Decode(b), 1, 4);
    BrokenTextSlices(b);
    assert p[0] == REPLACEMENT && p[3] == 0x61;
    BrokenTextWords(b);
    TwoPieces(p, b[4..]);
  }

  lemma LastWordsDiffer(p: Text, word: Text, q: Text, other: Text)
    requires IsWord(word) && IsWord(other) && |word| != |other|
    ensures AllWords([p] + [word]) != AllWords([q] + [other])
  {
    LastWord(p, word);
    LastWord(q, other);
    LastDiffers(Words(p), word, Words(q), other);
  }

  lemma BrokenTextWords(b: Bytes)
    requires BrokenText(b)
    ensures IsWord(b[3..]) && IsWord(b[4..]) && |b[3..]| == 4 && |b[4..]| == 3
  {
  }

  lemma BrokenTextTorn(b: Bytes, t: Text)
    requires BrokenText(b) && t == Decode(b)
    ensures AllWords(RawSentences(b)) != AllWords(Sentences(t))
  {
    BrokenTextRaw(b, SliceText(b, 0, 4));
    BrokenTextSentences(b, t);
    BrokenTextWords(b);
    LastWordsDiffer(SliceText(b, 0, 4), b[4..], t[0..2], b[3..]);
  }

  lemma BrokenTextUnclean(b: Bytes)
    requires BrokenText(b)
    ensures !Overruns(b) && !CutsClean(b)
  {
    BrokenTextCut(b);
    assert Broken(b) && !Clean(b, 2);
    assert IsCut(Decode(b), 1);
  }

  /** Here nothing overruns, but the cut falls behind the first letter of the word:
      "abcd" is torn apart. */
  lemma MisplacedCut(b: Bytes)
    requires BrokenText(b)
    ensures !Overruns(b) && !CutsClean(b)
    ensures RawSentences(b) == [[REPLACEMENT] + b[1..4]] + [b[4..]]
    ensures AllWords(RawSentences(b)) != Words(Decode(b))
  {
    BrokenTextSlices(b);
    BrokenTextRaw(b, SliceText(b, 0, 4));
    BrokenTextTorn(b, Decode(b));
    SentencesKeepWords(Decode(b));
    BrokenTextUnclean(b);
  }
}
