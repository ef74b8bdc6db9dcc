/** When splitSentences (cmd/semantic-extract/text.go) leaves the words of a text
    alone, on any bytes: exactly when every computed cut hits the end of a rune with
    white space on one side. */
module WordSurvival {
  import opened Utf8Text
  import opened WordText
  import opened SentenceSplitter
  import SceneSplitter

  // ---------------------------------------------------------------- counting letters and words

  /** Runes that belong to words. */
  function Letters(t: Text): nat {
    if t == [] then 0 else Letters(t[..|t| - 1]) + if IsSpace(t[|t| - 1]) then 0 else 1
  }

  function TotalLength(ws: seq<Text>): nat {
    if ws == [] then 0 else TotalLength(ws[..|ws| - 1]) + |ws[|ws| - 1]|
  }

  lemma LettersSnoc(t: Text, r: Rune)
    ensures Letters(t + [r]) == Letters(t) + if IsSpace(r) then 0 else 1
  {
    assert (t + [r])[..|t|] == t;
  }

  lemma {:induction false} LettersConcat(s: Text, t: Text)
    ensures Letters(s + t) == Letters(s) + Letters(t)
    decreases |t|
  {
    if t == [] {
      assert s + t == s;
    } else {
      var front, last := t[..|t| - 1], t[|t| - 1];
      LettersConcat(s, front);
      LettersSnoc(s + front, last);
      SeqAssoc(s, front, [last]);
      assert t == front + [last];
    }
  }

  lemma TotalLengthSnoc(ws: seq<Text>, w: Text)
    ensures TotalLength(ws + [w]) == TotalLength(ws) + |w|
  {
    assert (ws + [w])[..|ws|] == ws;
  }

  lemma {:induction false} TotalLengthConcat(vs: seq<Text>, ws: seq<Text>)
    ensures TotalLength(vs + ws) == TotalLength(vs) + TotalLength(ws)
    decreases |ws|
  {
    if ws == [] {
      assert vs + ws == vs;
    } else {
      var front, last := ws[..|ws| - 1], ws[|ws| - 1];
      TotalLengthConcat(vs, front);
      TotalLengthSnoc(vs + front, last);
      SeqAssoc(vs, front, [last]);
      assert ws == front + [last];
    }
  }

  lemma LengthOfSingle(ws: seq<Text>, w: Text)
    ensures TotalLength(ws + Single(w)) == TotalLength(ws) + |w|
  {
    if w == [] {
      assert ws + Single(w) == ws;
    } else {
      TotalLengthSnoc(ws, w);
    }
  }

  /** The words are made of the letters. */
  lemma {:induction false} WordsHaveLetters(t: Text)
    ensures TotalLength(ClosedWords(t)) + |OpenWord(t)| == Letters(t)
    ensures TotalLength(Words(t)) == Letters(t)
  {
    if t != [] {
      var front, last := t[..|t| - 1], t[|t| - 1];
      WordsHaveLetters(front);
      assert t == front + [last];
      WordsSnoc(front, last);
    }
    LengthOfSingle(ClosedWords(t), OpenWord(t));
  }

  function Open(t: Text): nat {
    if OpenWord(t) == [] then 0 else 1
  }

  lemma CountWords(t: Text)
    ensures |Words(t)| == |ClosedWords(t)| + Open(t)
  {
  }

  lemma {:induction false} JoinedCounts(s: Text, t: Text)
    requires OpenWord(s) != [] && t != [] && !IsSpace(t[0])
    ensures Open(s + t) == Open(t) && |ClosedWords(s + t)| == |ClosedWords(s)| + |ClosedWords(t)|
    decreases |t|
  {
    var front, last := t[..|t| - 1], t[|t| - 1];
    assert t == front + [last];
    SeqAssoc(s, front, [last]);
    WordsSnoc(s + front, last);
    WordsSnoc(front, last);
    if front == [] {
      assert s + front == s;
    } else {
      JoinedCounts(s, front);
      CountWords(s + front);
      CountWords(front);
    }
  }

  /** A cut through a word makes two of it. */
  lemma UnsafeCutCounts(s: Text, t: Text)
    requires !CutIsSafe(s, t)
    ensures |Words(s + t)| + 1 == |Words(s)| + |Words(t)|
  {
    SolidHasWord(s);
    JoinedCounts(s, t);
    CountWords(s);
    CountWords(t);
    CountWords(s + t);
  }

  lemma CutCounts(s: Text, t: Text)
    ensures |Words(s + t)| <= |Words(s)| + |Words(t)|
  {
    if CutIsSafe(s, t) {
      WordsOfParts(s, t);
    } else {
      UnsafeCutCounts(s, t);
    }
  }

  // ---------------------------------------------------------------- cutting through a rune

  function Marks(n: nat): (t: Text)
    ensures |t| == n && forall i :: 0 <= i < n ==> t[i] == REPLACEMENT
  {
    seq(n, _ => REPLACEMENT)
  }

  lemma {:induction false} LettersOfMarks(n: nat)
    ensures Letters(Marks(n)) == n
  {
    if n > 0 {
      LettersOfMarks(n - 1);
      assert Marks(n)[..n - 1] == Marks(n - 1);
    }
  }

  /** Bytes that continue a rune decode to nothing on their own. */
  lemma {:induction false} TrailsDecode(p: Bytes, rest: Bytes)
    requires forall i :: 0 <= i < |p| ==> Trails(p[i])
    ensures Decode(p + rest) == Marks(|p|) + Decode(rest)
    decreases |p|
  {
    if p == [] {
      assert p + rest == rest && Marks(0) + Decode(rest) == Decode(rest);
    } else {
      var b := p + rest;
      TrailsDecode(p[1..], rest);
      assert b[0] == p[0] && b[1..] == p[1..] + rest;
      assert FirstRune(b) == (REPLACEMENT, 1);
      assert Marks(|p|) == [REPLACEMENT] + Marks(|p| - 1);
      SeqAssoc([REPLACEMENT], Marks(|p| - 1), Decode(rest));
    }
  }

  lemma TrailsInRune(b: Bytes, i: nat)
    requires b != [] && 0 < i < FirstRune(b).1
    ensures Trails(b[i])
  {
  }

  lemma TornStart(b: Bytes, k: nat)
    requires b != [] && 0 < k < FirstRune(b).1
    ensures FirstRune(b[..k]) == (REPLACEMENT, 1)
  {
  }

  lemma TornHead(b: Bytes, k: nat)
    requires b != [] && 0 < k < FirstRune(b).1
    ensures Decode(b[..k]) == Marks(k)
  {
    var tail := b[..k][1..];
    TornStart(b, k);
    forall i | 0 <= i < |tail| ensures Trails(tail[i]) {
      TrailsInRune(b, i + 1);
    }
    TrailsDecode(tail, []);
    assert tail + [] == tail && Decode([]) == [];
    assert Marks(k) == [REPLACEMENT] + Marks(k - 1);
  }

  lemma DropInTwo<T>(s: seq<T>, k: nat, w: nat)
    requires k <= w <= |s|
    ensures s[k..] == s[k..w] + s[w..]
  {
  }

  lemma RuneTrails(b: Bytes, k: nat, w: nat)
    requires b != [] && w == FirstRune(b).1 && 0 < k < w
    ensures forall i :: 0 <= i < |b[k..w]| ==> Trails(b[k..w][i])
  {
    forall i | k <= i < w ensures Trails(b[i]) {
      TrailsInRune(b, i);
    }
  }

  lemma TornTail(b: Bytes, k: nat, w: nat)
    requires b != [] && w == FirstRune(b).1 && 0 < k < w
    ensures Decode(b[k..]) == Marks(w - k) + Decode(b[w..])
  {
    RuneTrails(b, k, w);
    TrailsDecode(b[k..w], b[w..]);
    DropInTwo(b, k, w);
  }

  /** Some rune ends here. */
  predicate Boundary(b: Bytes, k: nat) {
    exists j :: 0 <= j <= |Decode(b)| && Position(b, j) == k
  }

  lemma BoundaryCons(b: Bytes, k: nat, w: nat)
    requires b != [] && w == FirstRune(b).1 && w <= k && Boundary(b[w..], k - w)
    ensures Boundary(b, k)
  {
    var j :| 0 <= j <= |Decode(b[w..])| && Position(b[w..], j) == k - w;
    assert Position(b, j + 1) == k;
  }

  lemma CutInside(b: Bytes, k: nat, w: nat)
    requires b != [] && w == FirstRune(b).1 && 0 < k < w
    ensures Letters(Decode(b)) < Letters(Decode(b[..k])) + Letters(Decode(b[k..]))
  {
    TornHead(b, k);
    TornTail(b, k, w);
    LettersOfMarks(k);
    LettersOfMarks(w - k);
    LettersConcat(Marks(w - k), Decode(b[w..]));
    LettersConcat([FirstRune(b).0], Decode(b[w..]));
    OneLetter(FirstRune(b).0);
  }

  lemma OneLetter(r: Rune)
    ensures Letters([r]) == if IsSpace(r) then 0 else 1
  {
    LettersSnoc([], r);
    assert [] + [r] == [r];
  }

  lemma CutBehind(b: Bytes, k: nat, w: nat)
    requires b != [] && w == FirstRune(b).1 && w <= k <= |b|
    ensures Letters(Decode(b)) == Letters([FirstRune(b).0]) + Letters(Decode(b[w..]))
    ensures Letters(Decode(b[..k])) == Letters([FirstRune(b).0]) + Letters(Decode(b[w..][..k - w]))
    ensures b[k..] == b[w..][k - w..]
  {
    FirstRuneOfPrefix(b, k);
    DropOfTake(b, w, k);
    LettersConcat([FirstRune(b).0], Decode(b[w..]));
    LettersConcat([FirstRune(b).0], Decode(b[w..][..k - w]));
    DropOfDrop(b, w, k);
  }

  /** Cutting never loses a letter, and inside a rune it makes more of them. */
  predicate SplitCounted(b: Bytes, k: nat)
    requires k <= |b|
  {
    var whole, parts := Letters(Decode(b)), Letters(Decode(b[..k])) + Letters(Decode(b[k..]));
    whole < parts || (whole == parts && Boundary(b, k))
  }

  lemma SplitBehind(b: Bytes, k: nat, w: nat)
    requires b != [] && w == FirstRune(b).1 && w <= k <= |b| && SplitCounted(b[w..], k - w)
    ensures SplitCounted(b, k)
  {
    CutBehind(b, k, w);
    if Boundary(b[w..], k - w) {
      BoundaryCons(b, k, w);
    }
  }

  lemma {:induction false} SplitLetters(b: Bytes, k: nat)
    requires k <= |b|
    ensures SplitCounted(b, k)
    decreases |b|
  {
    if k == 0 {
      assert b[..0] == [] && b[0..] == b && Position(b, 0) == 0;
    } else {
      var w := FirstRune(b).1;
      if k < w {
        CutInside(b, k, w);
      } else {
        SplitLetters(b[w..], k - w);
        SplitBehind(b, k, w);
      }
    }
  }

  // ---------------------------------------------------------------- the positions of runes

  lemma {:induction false} PositionsGrow(b: Bytes, i: nat, j: nat)
    requires i <= j <= |Decode(b)|
    ensures Position(b, i) + (j - i) <= Position(b, j)
    decreases i, j
  {
    if i > 0 {
      PositionsGrow(b[FirstRune(b).1..], i - 1, j - 1);
    } else if j > 0 {
      PositionsGrow(b[FirstRune(b).1..], 0, j - 1);
    }
  }

  lemma OnePosition(b: Bytes, i: nat, j: nat)
    requires i <= |Decode(b)| && j <= |Decode(b)| && Position(b, i) == Position(b, j)
    ensures i == j
  {
    if i < j {
      PositionsGrow(b, i, j);
    }
    if j < i {
      PositionsGrow(b, j, i);
    }
  }

  /** White space on one side, or an end of the text. */
  predicate SafeAt(t: Text, j: nat)
    requires j <= |t|
  {
    CutIsSafe(t[..j], t[j..])
  }

  /** A cut at this byte is at the end of a rune and cuts no word. */
  predicate GoodCut(b: Bytes, k: nat) {
    exists j :: 0 <= j <= |Decode(b)| && Position(b, j) == k && SafeAt(Decode(b), j)
  }

  lemma GoodCutAt(b: Bytes, k: nat, j: nat)
    requires j <= |Decode(b)| && Position(b, j) == k
    ensures GoodCut(b, k) <==> SafeAt(Decode(b), j)
  {
    if GoodCut(b, k) {
      var i :| 0 <= i <= |Decode(b)| && Position(b, i) == k && SafeAt(Decode(b), i);
      OnePosition(b, i, j);
    }
  }

  /** Up to a rune end the text decodes alike with and without what follows. */
  lemma HalvesDecode(b: Bytes, k: nat, j: nat)
    requires j <= |Decode(b)| && Position(b, j) == k
    ensures Decode(b[..k]) == Decode(b)[..j] && Decode(b[k..]) == Decode(b)[j..]
  {
    PrefixAtPosition(b, j, k);
    DropAtPosition(b, j, k);
  }

  lemma SafeInPrefix(t: Text, i: nat, j: nat)
    requires i < j <= |t|
    ensures SafeAt(t[..j], i) <==> SafeAt(t, i)
  {
    assert t[..j][..i] == t[..i] && t[..j][i..] != [];
    assert t[..j][i..][0] == t[i..][0];
  }

  /** An earlier cut is as good in the first half as in the whole. */
  lemma GoodInPrefix(b: Bytes, k: nat, j: nat, earlier: nat)
    requires j <= |Decode(b)| && Position(b, j) == k && earlier <= k && GoodCut(b, k)
    ensures GoodCut(b[..k], earlier) <==> GoodCut(b, earlier)
  {
    var u := b[..k];
    HalvesDecode(b, k, j);
    GoodCutAt(b, k, j);
    PositionInPrefix(b, j, j, k);
    if GoodCut(u, earlier) {
      var i :| 0 <= i <= |Decode(u)| && Position(u, i) == earlier && SafeAt(Decode(u), i);
      PositionInPrefix(b, i, j, k);
      GoodCutAt(b, earlier, i);
      if i < j {
        SafeInPrefix(Decode(b), i, j);
      }
    }
    if GoodCut(b, earlier) {
      var i :| 0 <= i <= |Decode(b)| && Position(b, i) == earlier && SafeAt(Decode(b), i);
      if i > j {
        PositionsGrow(b, j, i);
      }
      PositionInPrefix(b, i, j, k);
      GoodCutAt(u, earlier, i);
      if i < j {
        SafeInPrefix(Decode(b), i, j);
      }
    }
  }

  lemma BoundaryInPrefix(b: Bytes, k: nat, j: nat, earlier: nat)
    requires j <= |Decode(b)| && Position(b, j) == k && earlier <= k
    ensures Boundary(b[..k], earlier) <==> Boundary(b, earlier)
  {
    HalvesDecode(b, k, j);
    if Boundary(b[..k], earlier) {
      var i :| 0 <= i <= |Decode(b[..k])| && Position(b[..k], i) == earlier;
      PositionInPrefix(b, i, j, k);
    }
    if Boundary(b, earlier) {
      var i :| 0 <= i <= |Decode(b)| && Position(b, i) == earlier;
      if i > j {
        PositionsGrow(b, j, i);
      }
      PositionInPrefix(b, i, j, k);
    }
  }

  // ---------------------------------------------------------------- cutting in several places

  /** Ascending positions in a text of so many bytes. */
  predicate Within(ks: seq<nat>, n: nat)
    decreases |ks|
  {
    ks == [] || (ks[|ks| - 1] <= n && Within(ks[..|ks| - 1], ks[|ks| - 1]))
  }

  function Slices(b: Bytes, ks: seq<nat>): seq<Text>
    requires Within(ks, |b|)
    decreases |ks|
  {
    if ks == [] then [Decode(b)]
    else
      var k := ks[|ks| - 1];
      Slices(b[..k], ks[..|ks| - 1]) + [Decode(b[k..])]
  }

  lemma LastIn(ks: seq<nat>)
    requires ks != []
    ensures forall k :: k in ks <==> k in ks[..|ks| - 1] || k == ks[|ks| - 1]
  {
    assert ks == ks[..|ks| - 1] + [ks[|ks| - 1]];
  }

  lemma {:induction false} WithinBound(ks: seq<nat>, n: nat)
    requires Within(ks, n)
    ensures forall k :: k in ks ==> k <= n
    decreases |ks|
  {
    if ks != [] {
      LastIn(ks);
      WithinBound(ks[..|ks| - 1], ks[|ks| - 1]);
    }
  }

  function SumLetters(parts: seq<Text>): nat {
    if parts == [] then 0 else SumLetters(parts[..|parts| - 1]) + Letters(parts[|parts| - 1])
  }

  lemma SumLettersSnoc(parts: seq<Text>, p: Text)
    ensures SumLetters(parts + [p]) == SumLetters(parts) + Letters(p)
  {
    assert (parts + [p])[..|parts|] == parts;
  }

  lemma {:induction false} PartsHaveLetters(parts: seq<Text>)
    ensures TotalLength(AllWords(parts)) == SumLetters(parts)
  {
    if parts != [] {
      var front, last := parts[..|parts| - 1], parts[|parts| - 1];
      PartsHaveLetters(front);
      TotalLengthConcat(AllWords(front), Words(last));
      WordsHaveLetters(last);
    }
  }

  predicate AllBoundaries(b: Bytes, ks: seq<nat>) {
    forall k :: k in ks ==> Boundary(b, k)
  }

  predicate AllGood(b: Bytes, ks: seq<nat>) {
    forall k :: k in ks ==> GoodCut(b, k)
  }

  lemma OneSlice(b: Bytes)
    ensures SumLetters([Decode(b)]) == Letters(Decode(b)) && AllWords([Decode(b)]) == Words(Decode(b))
  {
    SumLettersSnoc([], Decode(b));
    AllWordsSnoc([], Decode(b));
    assert [] + [Decode(b)] == [Decode(b)];
  }

  /** Cuts inside runes show in the number of letters. */
  lemma {:induction false} SliceLetters(b: Bytes, ks: seq<nat>)
    requires Within(ks, |b|)
    ensures Letters(Decode(b)) <= SumLetters(Slices(b, ks))
    ensures Letters(Decode(b)) == SumLetters(Slices(b, ks)) ==> AllBoundaries(b, ks)
    decreases |ks|
  {
    if ks == [] {
      OneSlice(b);
    } else {
      var k, front := ks[|ks| - 1], ks[..|ks| - 1];
      SliceLetters(b[..k], front);
      SplitLetters(b, k);
      SumLettersSnoc(Slices(b[..k], front), Decode(b[k..]));
      if Letters(Decode(b)) == SumLetters(Slices(b, ks)) {
        FrontBoundaries(b, ks);
      }
    }
  }

  lemma FrontBoundaries(b: Bytes, ks: seq<nat>)
    requires Within(ks, |b|) && ks != []
    requires Boundary(b, ks[|ks| - 1]) && AllBoundaries(b[..ks[|ks| - 1]], ks[..|ks| - 1])
    ensures AllBoundaries(b, ks)
  {
    var k, front := ks[|ks| - 1], ks[..|ks| - 1];
    var j :| 0 <= j <= |Decode(b)| && Position(b, j) == k;
    WithinBound(front, k);
    LastIn(ks);
    forall earlier | earlier in front ensures Boundary(b, earlier) {
      BoundaryInPrefix(b, k, j, earlier);
    }
  }

  /** Cuts at rune ends never lose a word. */
  lemma {:induction false} SliceCounts(b: Bytes, ks: seq<nat>)
    requires Within(ks, |b|) && AllBoundaries(b, ks)
    ensures |Words(Decode(b))| <= |AllWords(Slices(b, ks))|
    decreases |ks|
  {
    if ks == [] {
      OneSlice(b);
    } else {
      var k, front := ks[|ks| - 1], ks[..|ks| - 1];
      assert k in ks && Boundary(b, k);
      var j :| 0 <= j <= |Decode(b)| && Position(b, j) == k;
      BoundaryFront(b, ks, j);
      SliceCounts(b[..k], front);
      AllWordsSnoc(Slices(b[..k], front), Decode(b[k..]));
      CountHalves(b, k, j);
    }
  }

  lemma BoundaryFront(b: Bytes, ks: seq<nat>, j: nat)
    requires Within(ks, |b|) && ks != [] && AllBoundaries(b, ks)
    requires j <= |Decode(b)| && Position(b, j) == ks[|ks| - 1]
    ensures AllBoundaries(b[..ks[|ks| - 1]], ks[..|ks| - 1])
  {
    var k, front := ks[|ks| - 1], ks[..|ks| - 1];
    LastIn(ks);
    WithinBound(front, k);
    forall earlier | earlier in front ensures Boundary(b[..k], earlier) {
      BoundaryInPrefix(b, k, j, earlier);
    }
  }

  lemma CountHalves(b: Bytes, k: nat, j: nat)
    requires j <= |Decode(b)| && Position(b, j) == k
    ensures |Words(Decode(b))| <= |Words(Decode(b[..k]))| + |Words(Decode(b[k..]))|
  {
    var t := Decode(b);
    HalvesDecode(b, k, j);
    CutCounts(t[..j], t[j..]);
    assert t[..j] + t[j..] == t;
  }

  // ---------------------------------------------------------------- when the words survive

  lemma SameWordsSameLetters(b: Bytes, ks: seq<nat>)
    requires Within(ks, |b|) && AllWords(Slices(b, ks)) == Words(Decode(b))
    ensures AllBoundaries(b, ks)
  {
    PartsHaveLetters(Slices(b, ks));
    WordsHaveLetters(Decode(b));
    SliceLetters(b, ks);
  }

  lemma CancelTail<T>(s: seq<T>, t: seq<T>, tail: seq<T>)
    ensures s + tail == t + tail <==> s == t
  {
    if s + tail == t + tail {
      assert |s| == |t|;
      assert s == (s + tail)[..|s|] && t == (t + tail)[..|t|];
    }
  }

  lemma WordsOfHalves(b: Bytes, k: nat, j: nat)
    requires j <= |Decode(b)| && Position(b, j) == k
    ensures SafeAt(Decode(b), j) ==> Words(Decode(b)) == Words(Decode(b[..k])) + Words(Decode(b[k..]))
    ensures !SafeAt(Decode(b), j) ==> |Words(Decode(b))| < |Words(Decode(b[..k]))| + |Words(Decode(b[k..]))|
  {
    var t := Decode(b);
    HalvesDecode(b, k, j);
    assert t[..j] + t[j..] == t;
    if SafeAt(t, j) {
      WordsOfParts(t[..j], t[j..]);
    } else {
      UnsafeCutCounts(t[..j], t[j..]);
    }
  }

  /** A last cut through a word shows in the number of words. */
  lemma UnsafeLastCut(b: Bytes, ks: seq<nat>, j: nat)
    requires Within(ks, |b|) && ks != [] && j <= |Decode(b)| && Position(b, j) == ks[|ks| - 1]
    requires !SafeAt(Decode(b), j) && AllBoundaries(b, ks)
    ensures AllWords(Slices(b, ks)) != Words(Decode(b))
  {
    var k, front := ks[|ks| - 1], ks[..|ks| - 1];
    BoundaryFront(b, ks, j);
    SliceCounts(b[..k], front);
    AllWordsSnoc(Slices(b[..k], front), Decode(b[k..]));
    WordsOfHalves(b, k, j);
  }

  lemma GoodFront(b: Bytes, ks: seq<nat>, j: nat)
    requires Within(ks, |b|) && ks != [] && j <= |Decode(b)| && Position(b, j) == ks[|ks| - 1]
    requires GoodCut(b, ks[|ks| - 1])
    ensures AllGood(b, ks) <==> AllGood(b[..ks[|ks| - 1]], ks[..|ks| - 1])
  {
    var k, front := ks[|ks| - 1], ks[..|ks| - 1];
    LastIn(ks);
    WithinBound(front, k);
    forall earlier | earlier in front ensures GoodCut(b[..k], earlier) <==> GoodCut(b, earlier) {
      GoodInPrefix(b, k, j, earlier);
    }
  }

  lemma GoodIsBoundary(b: Bytes, ks: seq<nat>)
    requires AllGood(b, ks)
    ensures AllBoundaries(b, ks)
  {
  }

  /** The slices have the words of the text if and only if every cut is good. */
  lemma {:induction false} SlicesKeepWords(b: Bytes, ks: seq<nat>)
    requires Within(ks, |b|)
    ensures AllWords(Slices(b, ks)) == Words(Decode(b)) <==> AllGood(b, ks)
    decreases |ks|
  {
    if ks == [] {
      OneSlice(b);
    } else if AllWords(Slices(b, ks)) == Words(Decode(b)) || AllGood(b, ks) {
      var k, front := ks[|ks| - 1], ks[..|ks| - 1];
      if AllGood(b, ks) {
        GoodIsBoundary(b, ks);
      } else {
        SameWordsSameLetters(b, ks);
      }
      LastIn(ks);
      assert Boundary(b, k);
      var j :| 0 <= j <= |Decode(b)| && Position(b, j) == k;
      GoodCutAt(b, k, j);
      if !SafeAt(Decode(b), j) {
        UnsafeLastCut(b, ks, j);
      } else {
        SlicesKeepWords(b[..k], front);
        GoodFront(b, ks, j);
        AllWordsSnoc(Slices(b[..k], front), Decode(b[k..]));
        WordsOfHalves(b, k, j);
        CancelTail(AllWords(Slices(b[..k], front)), Words(Decode(b[..k])), Words(Decode(b[k..])));
      }
    }
  }

  // ---------------------------------------------------------------- the cuts of splitSentences

  function CutOffsets(t: Text, i: nat): seq<nat>
    requires i <= |t|
  {
    if i == 0 then [] else if IsCut(t, i - 1) then CutOffsets(t, i - 1) + [Offset(t, i)] else CutOffsets(t, i - 1)
  }

  lemma {:induction false} OffsetsWithin(t: Text, i: nat, n: nat)
    requires i <= |t| && Offset(t, StartOf(t, i)) <= n
    ensures Within(CutOffsets(t, i), n)
  {
    if i > 0 {
      if IsCut(t, i - 1) {
        OffsetMonotone(t, StartOf(t, i - 1), i);
        OffsetsWithin(t, i - 1, Offset(t, i));
        assert CutOffsets(t, i)[..|CutOffsets(t, i)| - 1] == CutOffsets(t, i - 1);
      } else {
        OffsetsWithin(t, i - 1, n);
      }
    }
  }

  lemma SlicesSnoc(b: Bytes, ks: seq<nat>, k: nat)
    requires k <= |b| && Within(ks, k)
    ensures Within(ks + [k], |b|) && Slices(b, ks + [k]) == Slices(b[..k], ks) + [Decode(b[k..])]
  {
    assert (ks + [k])[..|ks|] == ks;
  }

  lemma PrefixOfPrefix(b: Bytes, k: nat, e: nat)
    requires k <= e <= |b|
    ensures b[..e][..k] == b[..k] && b[..e][k..] == b[k..e]
  {
  }

  /** What the offsets slice out of the first e bytes. */
  lemma {:induction false} RawAreSlices(b: Bytes, t: Text, i: nat, e: nat)
    requires t == Decode(b) && i <= |t| && Offset(t, StartOf(t, i)) <= e <= |b|
    ensures Within(CutOffsets(t, i), e)
    ensures RawSegments(b, i) + [SliceText(b, Offset(t, StartOf(t, i)), e)] == Slices(b[..e], CutOffsets(t, i))
  {
    OffsetsWithin(t, i, e);
    if i == 0 {
      assert b[0..e] == b[..e];
    } else if IsCut(t, i - 1) {
      var k := Offset(t, i);
      OffsetMonotone(t, StartOf(t, i - 1), i);
      RawAreSlices(b, t, i - 1, k);
      SlicesSnoc(b[..e], CutOffsets(t, i - 1), k);
      PrefixOfPrefix(b, k, e);
    } else {
      RawAreSlices(b, t, i - 1, e);
    }
  }

  /** Every computed cut hits the end of a rune and cuts no word. */
  predicate CutsHarmless(b: Bytes) {
    forall i :: 0 <= i < |Decode(b)| && IsCut(Decode(b), i) ==> GoodCut(b, Offset(Decode(b), i + 1))
  }

  lemma {:induction false} OffsetsOfCuts(b: Bytes, t: Text, i: nat)
    requires t == Decode(b) && i <= |t|
    ensures AllGood(b, CutOffsets(t, i)) <==> forall j :: 0 <= j < i && IsCut(t, j) ==> GoodCut(b, Offset(t, j + 1))
  {
    if i > 0 {
      OffsetsOfCuts(b, t, i - 1);
      if IsCut(t, i - 1) {
        LastIn(CutOffsets(t, i));
        assert CutOffsets(t, i)[..|CutOffsets(t, i)| - 1] == CutOffsets(t, i - 1);
      }
    }
  }

  lemma StartInside(b: Bytes)
    requires !Overruns(b)
    ensures Offset(Decode(b), StartOf(Decode(b), |Decode(b)|)) <= |b|
  {
    var t := Decode(b);
    StartIsAfterLastCut(t, |t|);
    if StartOf(t, |t|) > 0 {
      assert IsCut(t, StartOf(t, |t|) - 1);
    }
  }

  /** On bytes that make no slice fail, the sentences have the words of the text, in
      order, if and only if every computed cut is harmless. */
  lemma WordsSurviveExactly(b: Bytes)
    requires !Overruns(b)
    ensures AllWords(RawSentences(b)) == Words(Decode(b)) <==> CutsHarmless(b)
  {
    var t := Decode(b);
    StartInside(b);
    RawAreSlices(b, t, |t|, |b|);
    assert b[..|b|] == b;
    PieceWords(RawSegments(b, |t|) + [SliceText(b, Offset(t, StartOf(t, |t|)), |b|)]);
    SlicesKeepWords(b, CutOffsets(t, |t|));
    OffsetsOfCuts(b, t, |t|);
  }

  /** And so do the scenes packed from them. */
  lemma ScenesKeepWordsExactly(b: Bytes, scenes: seq<Text>, maxWords: int)
    requires !Overruns(b) && SceneSplitter.Packed(RawSentences(b), scenes, [], maxWords)
    ensures AllWords(scenes) == Words(Decode(b)) <==> CutsHarmless(b)
  {
    WordsSurviveExactly(b);
    SceneSplitter.NoWords(AllWords(scenes));
  }
}
