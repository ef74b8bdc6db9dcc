/** strings.Fields and strings.TrimSpace on decoded text, and when cutting or joining
    text leaves its words alone. */
module WordText {
  import opened Utf8Text

  /** unicode.IsSpace. */
  predicate IsSpace(r: Rune) {
    || 9 <= r <= 13 || r == 0x20 || r == 0x85 || r == 0xA0 || r == 0x1680 || 0x2000 <= r <= 0x200A
    || r == 0x2028 || r == 0x2029 || r == 0x202F || r == 0x205F || r == 0x3000
  }

  const SPACE: Rune := 0x20

  /** Unicode's white space, one by one. */
  const WHITE_SPACE: set<Rune> :=
    {0x9, 0xA, 0xB, 0xC, 0xD, 0x20, 0x85, 0xA0, 0x1680, 0x2000, 0x2001, 0x2002, 0x2003, 0x2004, 0x2005, 0x2006,
     0x2007, 0x2008, 0x2009, 0x200A, 0x2028, 0x2029, 0x202F, 0x205F, 0x3000}

  lemma SpacesListed(r: Rune)
    ensures IsSpace(r) <==> r in WHITE_SPACE
  {
  }

  /** The last word, still open at the end of the text; empty after white space. */
  function OpenWord(t: Text): Text {
    if t == [] then []
    else
      var last := t[|t| - 1];
      if IsSpace(last) then [] else OpenWord(t[..|t| - 1]) + [last]
  }

  /** The words that white space has closed. */
  function ClosedWords(t: Text): seq<Text> {
    if t == [] then []
    else
      var front, last := t[..|t| - 1], t[|t| - 1];
      if IsSpace(last) then ClosedWords(front) + Single(OpenWord(front)) else ClosedWords(front)
  }

  function Single(w: Text): seq<Text> {
    if w == [] then [] else [w]
  }

  /** strings.Fields: the maximal runs of non-space runes. */
  function Words(t: Text): seq<Text> {
    ClosedWords(t) + Single(OpenWord(t))
  }

  lemma WordsSnoc(t: Text, r: Rune)
    ensures OpenWord(t + [r]) == if IsSpace(r) then [] else OpenWord(t) + [r]
    ensures ClosedWords(t + [r]) == if IsSpace(r) then Words(t) else ClosedWords(t)
  {
    assert (t + [r])[..|t|] == t;
  }

  lemma SeqAssoc<T>(a: seq<T>, b: seq<T>, c: seq<T>)
    ensures (a + b) + c == a + (b + c)
  {
  }

  lemma TakeSnoc<T>(s: seq<T>, i: nat)
    requires i < |s|
    ensures s[..i + 1] == s[..i] + [s[i]]
  {
  }

  lemma SliceJoins<T>(s: seq<T>, i: nat, j: nat)
    requires i <= j <= |s|
    ensures s[..i] + s[i..j] == s[..j]
  {
  }

  lemma TakeAll<T>(s: seq<T>)
    ensures s[..|s|] == s
  {
  }

  lemma CutStep(s: Text, front: Text, r: Rune)
    requires OpenWord(s + front) == OpenWord(front) && ClosedWords(s + front) == ClosedWords(s) + ClosedWords(front)
    ensures OpenWord((s + front) + [r]) == OpenWord(front + [r])
    ensures ClosedWords((s + front) + [r]) == ClosedWords(s) + ClosedWords(front + [r])
  {
    WordsSnoc(s + front, r);
    WordsSnoc(front, r);
    SeqAssoc(ClosedWords(s), ClosedWords(front), Single(OpenWord(front)));
  }

  /** After white space a new text starts, as far as words are concerned. */
  lemma {:induction false} CutAfterSpace(s: Text, t: Text)
    requires OpenWord(s) == []
    ensures OpenWord(s + t) == OpenWord(t) && ClosedWords(s + t) == ClosedWords(s) + ClosedWords(t)
    decreases |t|
  {
    if t == [] {
      assert s + t == s;
    } else {
      var front, last := t[..|t| - 1], t[|t| - 1];
      CutAfterSpace(s, front);
      CutStep(s, front, last);
      assert t == front + [last];
      SeqAssoc(s, front, [last]);
    }
  }

  lemma WordsAfterSpace(s: Text, t: Text)
    requires OpenWord(s) == []
    ensures Words(s + t) == Words(s) + Words(t)
  {
    CutAfterSpace(s, t);
    assert Words(s + t) == (ClosedWords(s) + ClosedWords(t)) + Single(OpenWord(t));
    assert Words(s) == ClosedWords(s);
  }

  lemma LeadingSpace(r: Rune, t: Text)
    requires IsSpace(r)
    ensures Words([r] + t) == Words(t)
  {
    WordsSnoc([], r);
    assert [] + [r] == [r];
    WordsAfterSpace([r], t);
  }

  lemma TrailingSpace(t: Text, r: Rune)
    requires IsSpace(r)
    ensures Words(t + [r]) == Words(t)
  {
    WordsSnoc(t, r);
  }

  /** A cut is harmless at white space, or at either end. */
  predicate CutIsSafe(s: Text, t: Text) {
    s == [] || t == [] || IsSpace(s[|s| - 1]) || IsSpace(t[0])
  }

  lemma WordsOfParts(s: Text, t: Text)
    requires CutIsSafe(s, t)
    ensures Words(s + t) == Words(s) + Words(t)
  {
    if s == [] {
      assert s + t == t;
    } else if t == [] {
      assert s + t == s;
    } else if IsSpace(s[|s| - 1]) {
      WordsAfterSpace(s, t);
    } else {
      var first, rest := t[0], t[1..];
      assert t == [first] + rest && s + t == (s + [first]) + rest;
      WordsSnoc(s, first);
      WordsAfterSpace(s + [first], rest);
      TrailingSpace(s, first);
      LeadingSpace(first, rest);
    }
  }

  // ---------------------------------------------------------------- trimming

  function TrimLeft(t: Text): Text {
    if t != [] && IsSpace(t[0]) then TrimLeft(t[1..]) else t
  }

  function TrimRight(t: Text): Text {
    if t != [] && IsSpace(t[|t| - 1]) then TrimRight(t[..|t| - 1]) else t
  }

  /** strings.TrimSpace. */
  function Trim(t: Text): Text {
    TrimRight(TrimLeft(t))
  }

  predicate Trimmed(t: Text) {
    t != [] && !IsSpace(t[0]) && !IsSpace(t[|t| - 1])
  }

  lemma {:induction false} TrimLeftKeepsWords(t: Text)
    ensures Words(TrimLeft(t)) == Words(t)
    ensures TrimLeft(t) != [] ==> !IsSpace(TrimLeft(t)[0])
  {
    if t != [] && IsSpace(t[0]) {
      TrimLeftKeepsWords(t[1..]);
      assert t == [t[0]] + t[1..];
      LeadingSpace(t[0], t[1..]);
    }
  }

  lemma {:induction false} TrimRightKeepsWords(t: Text)
    ensures Words(TrimRight(t)) == Words(t)
    ensures TrimRight(t) != [] ==> t[0] == TrimRight(t)[0] && !IsSpace(TrimRight(t)[|TrimRight(t)| - 1])
    ensures TrimRight(t) == [] ==> t == [] || IsSpace(t[0])
  {
    if t != [] && IsSpace(t[|t| - 1]) {
      var front := t[..|t| - 1];
      TrimRightKeepsWords(front);
      assert t == front + [t[|t| - 1]];
      TrailingSpace(front, t[|t| - 1]);
    }
  }

  /** Trimming takes white space off both ends and no word with it. */
  lemma TrimKeepsWords(t: Text)
    ensures Words(Trim(t)) == Words(t)
    ensures Trim(t) != [] ==> Trimmed(Trim(t))
  {
    TrimLeftKeepsWords(t);
    TrimRightKeepsWords(TrimLeft(t));
  }

  predicate Blank(t: Text) {
    forall i :: 0 <= i < |t| ==> IsSpace(t[i])
  }

  lemma {:induction false} TrimLeftDrops(before: Text, t: Text)
    requires Blank(before) && (t == [] || !IsSpace(t[0]))
    ensures TrimLeft(before + t) == t
  {
    if before == [] {
      assert before + t == t;
    } else {
      TrimLeftDrops(before[1..], t);
      assert (before + t)[1..] == before[1..] + t;
    }
  }

  lemma {:induction false} TrimRightDrops(t: Text, after: Text)
    requires Blank(after) && (t == [] || !IsSpace(t[|t| - 1]))
    ensures TrimRight(t + after) == t
  {
    if after == [] {
      assert t + after == t;
    } else {
      TrimRightDrops(t, after[..|after| - 1]);
      assert (t + after)[..|t + after| - 1] == t + after[..|after| - 1];
    }
  }

  /** Only the white space at the ends goes; what is between stays as it is. */
  lemma TrimExactly(before: Text, t: Text, after: Text)
    requires Blank(before) && Blank(after) && (t == [] || Trimmed(t))
    ensures Trim(before + t + after) == t
  {
    if t == [] {
      assert before + t + after == (before + after) + [];
      TrimLeftDrops(before + after, []);
    } else {
      assert before + t + after == before + (t + after);
      TrimLeftDrops(before, t + after);
      TrimRightDrops(t, after);
    }
  }

  lemma TrimmedIsFixed(t: Text)
    requires Trimmed(t)
    ensures Trim(t) == t
  {
  }

  lemma {:induction false} SolidHasWord(t: Text)
    requires t != [] && !IsSpace(t[|t| - 1])
    ensures OpenWord(t) != [] && |Words(t)| >= 1
  {
  }

  // ---------------------------------------------------------------- joining

  predicate IsWord(w: Text) {
    w != [] && forall i :: 0 <= i < |w| ==> !IsSpace(w[i])
  }

  predicate AllAreWords(ws: seq<Text>) {
    forall i :: 0 <= i < |ws| ==> IsWord(ws[i])
  }

  lemma {:induction false} OpenWordIsWord(t: Text)
    ensures OpenWord(t) == [] || IsWord(OpenWord(t))
  {
    if t != [] {
      OpenWordIsWord(t[..|t| - 1]);
    }
  }

  lemma {:induction false} ClosedWordsAreWords(t: Text)
    ensures AllAreWords(ClosedWords(t))
  {
    if t != [] {
      ClosedWordsAreWords(t[..|t| - 1]);
      OpenWordIsWord(t[..|t| - 1]);
    }
  }

  lemma WordsAreWords(t: Text)
    ensures AllAreWords(Words(t))
  {
    ClosedWordsAreWords(t);
    OpenWordIsWord(t);
  }

  lemma {:induction false} WordAlone(w: Text)
    requires forall i :: 0 <= i < |w| ==> !IsSpace(w[i])
    ensures OpenWord(w) == w && ClosedWords(w) == []
  {
    if w != [] {
      var n := |w| - 1;
      WordAlone(w[..n]);
      assert w == w[..n] + [w[n]];
    }
  }

  /** strings.Join(ws, " "). */
  function Join(ws: seq<Text>): Text {
    if ws == [] then []
    else if |ws| == 1 then ws[0]
    else Join(ws[..|ws| - 1]) + [SPACE] + ws[|ws| - 1]
  }

  lemma JoinSnoc(ws: seq<Text>, w: Text)
    ensures Join(ws + [w]) == if ws == [] then w else Join(ws) + [SPACE] + w
  {
    assert (ws + [w])[..|ws|] == ws;
  }

  /** Joining in two goes. */
  lemma {:induction false} JoinConcat(vs: seq<Text>, ws: seq<Text>)
    requires vs != [] && ws != []
    ensures Join(vs + ws) == Join(vs) + [SPACE] + Join(ws)
    decreases |ws|
  {
    var front, last := ws[..|ws| - 1], ws[|ws| - 1];
    assert ws == front + [last];
    SeqAssoc(vs, front, [last]);
    JoinSnoc(vs + front, last);
    if front == [] {
      assert vs + front == vs;
    } else {
      JoinConcat(vs, front);
      JoinSnoc(front, last);
      Spaced(Join(vs), Join(front), last);
    }
  }

  lemma Spaced(a: Text, b: Text, c: Text)
    ensures (a + [SPACE] + b) + [SPACE] + c == a + [SPACE] + (b + [SPACE] + c)
  {
  }

  lemma {:induction false} JoinEnds(ws: seq<Text>)
    requires AllAreWords(ws) && ws != []
    ensures Trimmed(Join(ws))
  {
    if |ws| > 1 {
      JoinEnds(ws[..|ws| - 1]);
    } else {
      assert IsWord(ws[0]);
    }
    assert IsWord(ws[|ws| - 1]);
  }

  /** Splitting into words undoes joining them. */
  lemma {:induction false} WordsOfJoin(ws: seq<Text>)
    requires AllAreWords(ws)
    ensures Words(Join(ws)) == ws
  {
    if ws != [] {
      var n := |ws| - 1;
      assert IsWord(ws[n]);
      WordAlone(ws[n]);
      if n > 0 {
        WordsOfJoin(ws[..n]);
        WordsGlued(Join(ws[..n]), ws[n]);
      }
      assert ws == ws[..n] + [ws[n]];
    }
  }

  /** Gluing with one space puts the words side by side. */
  lemma WordsGlued(s: Text, t: Text)
    ensures Words(s + [SPACE] + t) == Words(s) + Words(t)
  {
    WordsSnoc(s, SPACE);
    WordsAfterSpace(s + [SPACE], t);
    TrailingSpace(s, SPACE);
  }
}
