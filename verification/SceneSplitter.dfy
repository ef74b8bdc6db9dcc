/** Packing sentences into scenes (cmd/semantic-extract/text.go, splitIntoScenes). */
module SceneSplitter {
  import opened Utf8Text
  import opened WordText
  import opened SentenceSplitter

  ghost predicate Contains(t: Text, part: Text) {
    exists before: Text, after: Text :: t == before + part + after
  }

  /** Some scene, or the one being built, has the sentence in one piece. */
  ghost predicate Kept(scenes: seq<Text>, current: Text, sentence: Text) {
    Contains(current, sentence) || exists k :: 0 <= k < |scenes| && Contains(scenes[k], sentence)
  }

  predicate WellSized(scene: Text, maxWords: int) {
    Trimmed(scene) && 1 <= |Words(scene)| <= maxWords
  }

  predicate AllWellSized(scenes: seq<Text>, maxWords: int) {
    forall k :: 0 <= k < |scenes| ==> WellSized(scenes[k], maxWords)
  }

  lemma StillContained(front: Text, t: Text, back: Text, part: Text)
    requires Contains(t, part)
    ensures Contains(front + t + back, part)
  {
    var before: Text, after: Text :| t == before + part + after;
    assert front + t + back == (front + before) + part + (after + back);
  }

  /** A word is never cut, repeated or dropped, every scene holds between one and
      maxWords words, and a sentence that fits stays in one scene. */
  ghost predicate GoodScenes(t: Text, scenes: seq<Text>, maxWords: int) {
    && AllWords(scenes) == Words(t)
    && AllWellSized(scenes, maxWords)
    && AllKept(Sentences(t), scenes, [], maxWords)
  }

  lemma StaysKept(scenes: seq<Text>, current: Text, more: seq<Text>, p: Text)
    requires p != [] && Kept(scenes, current, p)
    requires more == if current == [] then scenes else scenes + [current]
    ensures Kept(more, [], p)
  {
    if Contains(current, p) {
      assert Contains(more[|more| - 1], p);
    } else {
      var k :| 0 <= k < |scenes| && Contains(scenes[k], p);
      assert Contains(more[k], p);
    }
  }

  /** What holds of the scenes and the one being built after some sentences. */
  ghost predicate Packed(done: seq<Text>, scenes: seq<Text>, current: Text, maxWords: int) {
    && AllWords(scenes) + Words(current) == AllWords(done)
    && AllWellSized(scenes, maxWords)
    && (current != [] ==> WellSized(current, maxWords))
    && AllKept(done, scenes, current, maxWords)
  }

  /** Of these sentences, those that fit into a scene are in one piece. */
  ghost predicate AllKept(done: seq<Text>, scenes: seq<Text>, current: Text, maxWords: int) {
    forall i :: 0 <= i < |done| && 0 < |Words(done[i])| <= maxWords ==> Kept(scenes, current, done[i])
  }

  lemma KeptSnoc(done: seq<Text>, sentence: Text, scenes: seq<Text>, current: Text, maxWords: int)
    requires AllKept(done, scenes, current, maxWords)
    requires 0 < |Words(sentence)| <= maxWords ==> Kept(scenes, current, sentence)
    ensures AllKept(done + [sentence], scenes, current, maxWords)
  {
    var all := done + [sentence];
    forall i | 0 <= i < |all| && 0 < |Words(all[i])| <= maxWords ensures Kept(scenes, current, all[i]) {
      if i < |done| {
        assert all[i] == done[i];
      }
    }
  }

  predicate AllTrimmed(parts: seq<Text>) {
    forall i :: 0 <= i < |parts| ==> Trimmed(parts[i])
  }

  /** The scene being built is finished. */
  method Flush(scenes: seq<Text>, current: Text, maxWords: int, ghost done: seq<Text>) returns (more: seq<Text>)
    requires Packed(done, scenes, current, maxWords)
    ensures Packed(done, more, [], maxWords)
    ensures more == if current == [] then scenes else scenes + [current]
  {
    var value := Trim(current);
    more := scenes;
    if value != [] {
      more := scenes + [value];
    }
    if current != [] {
      TrimmedIsFixed(current);
    }
    FlushPacks(scenes, current, maxWords, done);
  }

  lemma NoWords(words: seq<Text>)
    ensures Words([]) == [] && words + Words([]) == words
  {
  }

  lemma FlushedSizes(scenes: seq<Text>, current: Text, maxWords: int)
    requires AllWellSized(scenes, maxWords) && (current != [] ==> WellSized(current, maxWords))
    ensures AllWellSized(if current == [] then scenes else scenes + [current], maxWords)
  {
  }

  lemma FlushPacks(scenes: seq<Text>, current: Text, maxWords: int, done: seq<Text>)
    requires Packed(done, scenes, current, maxWords)
    ensures Packed(done, if current == [] then scenes else scenes + [current], [], maxWords)
  {
    var more := if current == [] then scenes else scenes + [current];
    FlushedSizes(scenes, current, maxWords);
    if current != [] {
      AllWordsSnoc(scenes, current);
    }
    NoWords(AllWords(more));
    forall i | 0 <= i < |done| && 0 < |Words(done[i])| <= maxWords ensures Kept(more, [], done[i]) {
      StaysKept(scenes, current, more, done[i]);
    }
  }

  lemma ChunkFits(scenes: seq<Text>, words: seq<Text>, start: nat, end: nat, maxWords: int)
    requires start < end <= |words| && end - start <= maxWords && AllAreWords(words)
    ensures WellSized(Join(words[start..end]), maxWords)
    ensures AllWords(scenes + [Join(words[start..end])]) == AllWords(scenes) + words[start..end]
  {
    var chunk := words[start..end];
    JoinEnds(chunk);
    WordsOfJoin(chunk);
    AllWordsSnoc(scenes, Join(chunk));
  }

  function Least(a: int, b: int): int {
    if a > b then b else a
  }

  lemma TakenFurther(all: seq<Text>, words: seq<Text>, start: nat, end: nat)
    requires start <= end <= |words|
    ensures all + words[..start] + words[start..end] == all + words[..end]
  {
    SliceJoins(words, start, end);
    SeqAssoc(all, words[..start], words[start..end]);
  }

  function WordCounts(parts: seq<Text>): (ns: seq<nat>)
    ensures |ns| == |parts| && forall i :: 0 <= i < |ns| ==> ns[i] == |Words(parts[i])|
  {
    seq(|parts|, i requires 0 <= i < |parts| => |Words(parts[i])|)
  }

  lemma WordCountsSnoc(parts: seq<Text>, p: Text)
    ensures WordCounts(parts + [p]) == WordCounts(parts) + [|Words(p)|]
  {
  }

  /** Full chunks, and what is left. */
  function ChunkSizes(n: nat, maxWords: int): (sizes: seq<nat>)
    requires maxWords >= 1
    ensures n == 0 <==> sizes == []
    ensures forall i :: 0 <= i < |sizes| - 1 ==> sizes[i] == maxWords
    ensures sizes != [] ==> 1 <= sizes[|sizes| - 1] <= maxWords
  {
    if n == 0 then [] else if n <= maxWords then [n] else [maxWords] + ChunkSizes(n - maxWords, maxWords)
  }

  /** The first words of a sentence have been made into scenes ... */
  predicate SplitKept(scenes: seq<Text>, words: seq<Text>, n: nat, more: seq<Text>, maxWords: int) {
    && n <= |words| && AllWellSized(more, maxWords) && scenes <= more
    && AllWords(more) == AllWords(scenes) + words[..n]
  }

  /** ... of full size, with the rest to come ... */
  predicate SplitSized(scenes: seq<Text>, words: seq<Text>, n: nat, more: seq<Text>, maxWords: int)
    requires maxWords >= 1
  {
    n <= |words| &&
    WordCounts(more) + ChunkSizes(|words| - n, maxWords) == WordCounts(scenes) + ChunkSizes(|words|, maxWords)
  }

  /** ... and joined with single spaces they are these words joined so. */
  predicate SplitJoined(scenes: seq<Text>, words: seq<Text>, n: nat, more: seq<Text>) {
    n <= |words| &&
    if n == 0 then more == scenes else more != [] && Join(more) == Join(scenes + [Join(words[..n])])
  }

  predicate SplitUpTo(scenes: seq<Text>, words: seq<Text>, n: nat, more: seq<Text>, maxWords: int)
    requires maxWords >= 1
  {
    SplitKept(scenes, words, n, more, maxWords) && SplitSized(scenes, words, n, more, maxWords)
    && SplitJoined(scenes, words, n, more)
  }

  lemma KeptFurther(scenes: seq<Text>, words: seq<Text>, start: nat, end: nat, more: seq<Text>, maxWords: int)
    requires SplitKept(scenes, words, start, more, maxWords) && AllAreWords(words)
    requires start < end <= |words| && end - start <= maxWords
    ensures SplitKept(scenes, words, end, more + [Join(words[start..end])], maxWords)
  {
    ChunkFits(more, words, start, end, maxWords);
    TakenFurther(AllWords(scenes), words, start, end);
  }

  lemma CountsFurther(counts: seq<nat>, left: nat, taken: nat, maxWords: int)
    requires maxWords >= 1 && 1 <= taken && taken == (if left <= maxWords then left else maxWords)
    ensures (counts + [taken]) + ChunkSizes(left - taken, maxWords) == counts + ChunkSizes(left, maxWords)
  {
  }

  lemma SizedFurther(scenes: seq<Text>, words: seq<Text>, start: nat, end: nat, more: seq<Text>, chunk: Text,
                     maxWords: int)
    requires maxWords >= 1 && SplitSized(scenes, words, start, more, maxWords)
    requires start < end == Least(start + maxWords, |words|) && |Words(chunk)| == end - start
    ensures SplitSized(scenes, words, end, more + [chunk], maxWords)
  {
    WordCountsSnoc(more, chunk);
    CountsFurther(WordCounts(more), |words| - start, end - start, maxWords);
  }

  lemma WordsJoinOn(words: seq<Text>, start: nat, end: nat)
    requires 0 < start < end <= |words|
    ensures Join(words[..end]) == Join(words[..start]) + [SPACE] + Join(words[start..end])
  {
    JoinConcat(words[..start], words[start..end]);
    SliceJoins(words, start, end);
  }

  lemma JoinedFurther(scenes: seq<Text>, more: seq<Text>, begun: Text, chunk: Text, longer: Text)
    requires more != [] && Join(more) == Join(scenes + [begun]) && longer == begun + [SPACE] + chunk
    ensures Join(more + [chunk]) == Join(scenes + [longer])
  {
    JoinSnoc(more, chunk);
    JoinSnoc(scenes, begun);
    JoinSnoc(scenes, longer);
    if scenes != [] {
      Spaced(Join(scenes), begun, chunk);
    }
  }

  lemma SplitFurther(scenes: seq<Text>, words: seq<Text>, start: nat, end: nat, more: seq<Text>, maxWords: int)
    requires maxWords >= 1 && SplitUpTo(scenes, words, start, more, maxWords) && AllAreWords(words)
    requires start < end == Least(start + maxWords, |words|)
    ensures SplitUpTo(scenes, words, end, more + [Join(words[start..end])], maxWords)
  {
    var chunk := Join(words[start..end]);
    KeptFurther(scenes, words, start, end, more, maxWords);
    WordsOfJoin(words[start..end]);
    SizedFurther(scenes, words, start, end, more, chunk, maxWords);
    if start == 0 {
      assert words[0..end] == words[..end];
    } else {
      WordsJoinOn(words, start, end);
      JoinedFurther(scenes, more, Join(words[..start]), chunk, Join(words[..end]));
    }
  }

  lemma SplitStart(scenes: seq<Text>, words: seq<Text>, maxWords: int)
    requires maxWords >= 1 && AllWellSized(scenes, maxWords)
    ensures SplitUpTo(scenes, words, 0, scenes, maxWords)
  {
    assert AllWords(scenes) + words[..0] == AllWords(scenes);
  }

  lemma SplitEnd(scenes: seq<Text>, words: seq<Text>, more: seq<Text>, maxWords: int)
    requires maxWords >= 1 && SplitUpTo(scenes, words, |words|, more, maxWords)
    ensures AllWellSized(more, maxWords) && scenes <= more
    ensures AllWords(more) == AllWords(scenes) + words
    ensures WordCounts(more) == WordCounts(scenes) + ChunkSizes(|words|, maxWords)
    ensures words != [] ==> Join(more) == Join(scenes + [Join(words)])
  {
    TakeAll(words);
    assert WordCounts(more) + [] == WordCounts(more);
  }

  /** An oversized sentence is cut between words into full scenes and a rest, and
      joining these with single spaces gives its words joined so. */
  method SplitWords(scenes: seq<Text>, words: seq<Text>, maxWords: int) returns (more: seq<Text>)
    requires maxWords >= 1 && AllAreWords(words) && AllWellSized(scenes, maxWords)
    ensures AllWellSized(more, maxWords) && scenes <= more
    ensures AllWords(more) == AllWords(scenes) + words
    ensures WordCounts(more) == WordCounts(scenes) + ChunkSizes(|words|, maxWords)
    ensures words != [] ==> Join(more) == Join(scenes + [Join(words)])
  {
    more := scenes;
    var start := 0;
    SplitStart(scenes, words, maxWords);
    while start < |words|
      invariant 0 <= start && SplitUpTo(scenes, words, Least(start, |words|), more, maxWords)
    {
      var end := start + maxWords;
      if end > |words| {
        end := |words|;
      }
      SplitFurther(scenes, words, start, end, more, maxWords);
      more := more + [Join(words[start..end])];
      start := start + maxWords;
    }
    SplitEnd(scenes, words, more, maxWords);
  }

  lemma MoreKept(scenes: seq<Text>, more: seq<Text>, p: Text)
    requires scenes <= more && Kept(scenes, [], p)
    ensures Kept(more, [], p)
  {
    if !Contains([], p) {
      var k :| 0 <= k < |scenes| && Contains(scenes[k], p);
      assert Contains(more[k], p);
    }
  }

  lemma SplitPacks(done: seq<Text>, scenes: seq<Text>, sentence: Text, more: seq<Text>, maxWords: int)
    requires Packed(done, scenes, [], maxWords) && |Words(sentence)| > maxWords
    requires scenes <= more && AllWellSized(more, maxWords)
    requires AllWords(more) == AllWords(scenes) + Words(sentence)
    ensures Packed(done + [sentence], more, [], maxWords)
  {
    AllWordsSnoc(done, sentence);
    NoWords(AllWords(scenes));
    NoWords(AllWords(more));
    forall i | 0 <= i < |done| && 0 < |Words(done[i])| <= maxWords ensures Kept(more, [], done[i]) {
      MoreKept(scenes, more, done[i]);
    }
    KeptSnoc(done, sentence, more, [], maxWords);
  }

  lemma ExtendedKept(scenes: seq<Text>, current: Text, tail: Text, p: Text)
    requires Kept(scenes, current, p)
    ensures Kept(scenes, current + tail, p)
  {
    if Contains(current, p) {
      StillContained([], current, tail, p);
      assert [] + current + tail == current + tail;
    }
  }

  lemma AppendedWords(current: Text, sentence: Text, longer: Text, maxWords: int)
    requires current != [] ==> WellSized(current, maxWords)
    requires Trimmed(sentence)
    requires longer == if current == [] then sentence else current + [SPACE] + sentence
    ensures Words(longer) == Words(current) + Words(sentence) && Trimmed(longer)
  {
    if current == [] {
      assert Words([]) == [];
      assert [] + Words(sentence) == Words(sentence);
    } else {
      WordsGlued(current, sentence);
    }
  }

  lemma AppendedKept(scenes: seq<Text>, current: Text, sentence: Text, longer: Text, p: Text)
    requires longer == if current == [] then sentence else current + [SPACE] + sentence
    requires p == sentence || Kept(scenes, current, p)
    ensures Kept(scenes, longer, p)
  {
    if p == sentence {
      assert longer == (if current == [] then [] else current + [SPACE]) + sentence + [];
    } else if current == [] {
      ExtendedKept(scenes, [], longer, p);
      assert [] + longer == longer;
    } else {
      ExtendedKept(scenes, current, [SPACE] + sentence, p);
      assert current + ([SPACE] + sentence) == longer;
    }
  }

  lemma AppendedAllWords(done: seq<Text>, scenes: seq<Text>, current: Text, sentence: Text, longer: Text)
    requires AllWords(scenes) + Words(current) == AllWords(done)
    requires Words(longer) == Words(current) + Words(sentence)
    ensures AllWords(scenes) + Words(longer) == AllWords(done + [sentence])
  {
    AllWordsSnoc(done, sentence);
    SeqAssoc(AllWords(scenes), Words(current), Words(sentence));
  }

  lemma AppendPacks(done: seq<Text>, scenes: seq<Text>, current: Text, sentence: Text, longer: Text, maxWords: int)
    requires Packed(done, scenes, current, maxWords) && Trimmed(sentence)
    requires |Words(current)| + |Words(sentence)| <= maxWords
    requires longer == if current == [] then sentence else current + [SPACE] + sentence
    ensures Packed(done + [sentence], scenes, longer, maxWords)
    ensures |Words(longer)| == |Words(current)| + |Words(sentence)|
  {
    SolidHasWord(sentence);
    AppendedWords(current, sentence, longer, maxWords);
    AppendedAllWords(done, scenes, current, sentence, longer);
    forall i | 0 <= i < |done| && 0 < |Words(done[i])| <= maxWords ensures Kept(scenes, longer, done[i]) {
      AppendedKept(scenes, current, sentence, longer, done[i]);
    }
    AppendedKept(scenes, current, sentence, longer, sentence);
    KeptSnoc(done, sentence, scenes, longer, maxWords);
  }

  /** The builder takes a sentence that still fits. */
  method Append(current: Text, sentence: Text, ghost done: seq<Text>, ghost scenes: seq<Text>, maxWords: int)
    returns (longer: Text)
    requires Packed(done, scenes, current, maxWords) && Trimmed(sentence)
    requires |Words(current)| + |Words(sentence)| <= maxWords
    ensures Packed(done + [sentence], scenes, longer, maxWords)
    ensures |Words(longer)| == |Words(current)| + |Words(sentence)| && longer != []
    ensures longer == if current == [] then sentence else current + [SPACE] + sentence
  {
    longer := current;
    if |Words(current)| > 0 {
      longer := longer + [SPACE];
    }
    TrimmedIsFixed(sentence);
    longer := longer + Trim(sentence);
    assert current == [] ==> longer == sentence;
    AppendPacks(done, scenes, current, sentence, longer, maxWords);
  }

  // ---------------------------------------------------------------- how few scenes

  /** The sizes of the scenes opened so far, and how full the last one counts. */
  datatype Packing = Packing(sizes: seq<nat>, load: nat)

  /** A sentence joins the last scene whenever it fits; an oversized one is cut into
      scenes of its own, and the last of these takes nothing more. */
  function Greedy(sentences: seq<Text>, maxWords: int): (g: Packing)
    requires maxWords >= 1
    ensures g.load > 0 ==> g.sizes != []
  {
    if sentences == [] then Packing([], 0)
    else
      Placed(Greedy(sentences[..|sentences| - 1], maxWords), |Words(sentences[|sentences| - 1])|, maxWords)
  }

  function Placed(g: Packing, w: nat, maxWords: int): (r: Packing)
    requires maxWords >= 1
    ensures r.load > 0 && g.load == 0 ==> r.sizes != []
    ensures g.sizes != [] ==> r.sizes != []
  {
    if w == 0 then g
    else if w > maxWords then Packing(g.sizes + ChunkSizes(w, maxWords), maxWords)
    else if g.sizes != [] && g.load + w <= maxWords then
      Packing(g.sizes[..|g.sizes| - 1] + [g.sizes[|g.sizes| - 1] + w], g.load + w)
    else Packing(g.sizes + [w], w)
  }

  /** Scenes opened so far, and the words in the last one. */
  datatype Tally = Tally(count: nat, load: nat)

  /** Any other way to cut the list of sentences into runs: opens[i] says whether
      sentence i starts a new one.  Oversized sentences are cut as few times as can
      be and stand alone. */
  function Arranged(sentences: seq<Text>, opens: seq<bool>, maxWords: int): Tally
    requires |opens| == |sentences| && maxWords >= 1
  {
    if sentences == [] then Tally(0, 0)
    else
      var n := |sentences| - 1;
      var a, w := Arranged(sentences[..n], opens[..n], maxWords), |Words(sentences[n])|;
      if w > maxWords then Tally(a.count + |ChunkSizes(w, maxWords)|, maxWords)
      else if a.count > 0 && !opens[n] then Tally(a.count, a.load + w)
      else Tally(a.count + 1, w)
  }

  predicate Feasible(sentences: seq<Text>, opens: seq<bool>, maxWords: int)
    requires |opens| == |sentences| && maxWords >= 1
  {
    forall i :: 0 <= i <= |sentences| ==> Arranged(sentences[..i], opens[..i], maxWords).load <= maxWords
  }

  lemma FeasibleFront(sentences: seq<Text>, opens: seq<bool>, maxWords: int)
    requires |opens| == |sentences| > 0 && maxWords >= 1 && Feasible(sentences, opens, maxWords)
    ensures Feasible(sentences[..|sentences| - 1], opens[..|sentences| - 1], maxWords)
    ensures Arranged(sentences, opens, maxWords).load <= maxWords
  {
    var n := |sentences| - 1;
    forall i | 0 <= i <= n ensures Arranged(sentences[..n][..i], opens[..n][..i], maxWords).load <= maxWords {
      assert sentences[..n][..i] == sentences[..i] && opens[..n][..i] == opens[..i];
    }
    TakeAll(sentences);
    TakeAll(opens);
  }

  /** Joining greedily is best: no arrangement of the sentences into consecutive runs
      of at most maxWords words needs fewer runs. */
  lemma {:induction false} GreedyIsBest(sentences: seq<Text>, opens: seq<bool>, maxWords: int)
    requires |opens| == |sentences| && maxWords >= 1 && Feasible(sentences, opens, maxWords)
    ensures var g, a := Greedy(sentences, maxWords), Arranged(sentences, opens, maxWords);
            |g.sizes| < a.count || (|g.sizes| == a.count && g.load <= a.load)
  {
    if sentences != [] {
      FeasibleFront(sentences, opens, maxWords);
      GreedyIsBest(sentences[..|sentences| - 1], opens[..|sentences| - 1], maxWords);
    }
  }

  /** Scenes including the one being built. */
  function Built(scenes: seq<Text>, current: Text): seq<Text> {
    if current == [] then scenes else scenes + [current]
  }

  /** These sizes are a packing's; with no scene being built its last one is closed. */
  predicate Matches(g: Packing, counts: seq<nat>, building: bool, load: nat, maxWords: int) {
    && counts == g.sizes
    && if building then g.load == load else counts == [] || g.load == maxWords
  }

  /** The scenes so far are the greedy ones. */
  predicate Economical(done: seq<Text>, scenes: seq<Text>, current: Text, maxWords: int)
    requires maxWords >= 1
  {
    Matches(Greedy(done, maxWords), WordCounts(Built(scenes, current)), current != [], |Words(current)|, maxWords)
  }

  lemma GreedySnoc(done: seq<Text>, sentence: Text, maxWords: int)
    requires maxWords >= 1
    ensures Greedy(done + [sentence], maxWords) == Placed(Greedy(done, maxWords), |Words(sentence)|, maxWords)
  {
    assert (done + [sentence])[..|done|] == done;
  }

  // ---------------------------------------------------------------- the text of the scenes

  /** A sentence as it appears in the scenes: as it is, or its words when oversized. */
  function Shown(sentence: Text, maxWords: int): Text {
    if |Words(sentence)| > maxWords then Join(Words(sentence)) else sentence
  }

  /** The sentences that have words, as they appear. */
  function AllShown(done: seq<Text>, maxWords: int): seq<Text> {
    if done == [] then []
    else
      var front, last := AllShown(done[..|done| - 1], maxWords), done[|done| - 1];
      if Words(last) == [] then front else front + [Shown(last, maxWords)]
  }

  lemma AllShownSnoc(done: seq<Text>, sentence: Text, maxWords: int)
    ensures AllShown(done + [sentence], maxWords)
         == AllShown(done, maxWords) + if Words(sentence) == [] then [] else [Shown(sentence, maxWords)]
  {
    assert (done + [sentence])[..|done|] == done;
  }

  /** Joined with single spaces the scenes and the sentences are the same text. */
  predicate Glued(done: seq<Text>, scenes: seq<Text>, current: Text, maxWords: int) {
    && Join(Built(scenes, current)) == Join(AllShown(done, maxWords))
    && (Built(scenes, current) == [] <==> AllShown(done, maxWords) == [])
  }

  lemma GluedBeside(done: seq<Text>, scenes: seq<Text>, sentence: Text, added: seq<Text>, maxWords: int)
    requires Join(scenes) == Join(AllShown(done, maxWords)) && (scenes == [] <==> AllShown(done, maxWords) == [])
    requires Words(sentence) != [] && added != []
    requires Join(added) == Join(scenes + [Shown(sentence, maxWords)])
    ensures Join(added) == Join(AllShown(done + [sentence], maxWords)) && AllShown(done + [sentence], maxWords) != []
  {
    AllShownSnoc(done, sentence, maxWords);
    JoinSnoc(scenes, Shown(sentence, maxWords));
    JoinSnoc(AllShown(done, maxWords), Shown(sentence, maxWords));
  }

  lemma GluedInside(done: seq<Text>, scenes: seq<Text>, current: Text, sentence: Text, longer: Text, maxWords: int)
    requires Glued(done, scenes, current, maxWords) && 0 < |Words(sentence)| <= maxWords && longer != []
    requires longer == if current == [] then sentence else current + [SPACE] + sentence
    ensures Glued(done + [sentence], scenes, longer, maxWords)
  {
    var built := Built(scenes, current);
    JoinSnoc(scenes, longer);
    JoinSnoc(scenes, current);
    JoinSnoc(built, sentence);
    if current != [] && scenes != [] {
      Spaced(Join(scenes), current, sentence);
    }
    GluedBeside(done, built, sentence, scenes + [longer], maxWords);
  }

  lemma SkipPacks(done: seq<Text>, scenes: seq<Text>, current: Text, sentence: Text, maxWords: int)
    requires Packed(done, scenes, current, maxWords) && Words(sentence) == []
    ensures Packed(done + [sentence], scenes, current, maxWords)
  {
    AllWordsSnoc(done, sentence);
    assert AllWords(done) + [] == AllWords(done);
    KeptSnoc(done, sentence, scenes, current, maxWords);
  }

  /** A sentence that fits goes into the scene being built, or into a new one. */
  lemma MatchesInside(g: Packing, front: seq<nat>, building: bool, c: nat, w: nat, sum: nat, maxWords: int)
    requires maxWords >= 1 && 0 < w && c + w == sum <= maxWords && (!building ==> c == 0)
    requires Matches(g, if building then front + [c] else front, building, c, maxWords)
    ensures Matches(Placed(g, w, maxWords), front + [sum], true, sum, maxWords)
  {
    if building {
      assert g.sizes[..|front|] == front;
    }
  }

  lemma BuiltCounts(scenes: seq<Text>, current: Text)
    ensures WordCounts(Built(scenes, current))
         == if current != [] then WordCounts(scenes) + [|Words(current)|] else WordCounts(scenes)
  {
    WordCountsSnoc(scenes, current);
  }

  lemma SizesInside(done: seq<Text>, scenes: seq<Text>, current: Text, sentence: Text, longer: Text, maxWords: int)
    requires maxWords >= 1 && Economical(done, scenes, current, maxWords) && longer != []
    requires 0 < |Words(sentence)| && |Words(current)| + |Words(sentence)| <= maxWords
    requires |Words(longer)| == |Words(current)| + |Words(sentence)|
    ensures Economical(done + [sentence], scenes, longer, maxWords)
  {
    GreedySnoc(done, sentence, maxWords);
    BuiltCounts(scenes, current);
    BuiltCounts(scenes, longer);
    assert Words([]) == [];
    MatchesInside(Greedy(done, maxWords), WordCounts(scenes), current != [], |Words(current)|, |Words(sentence)|,
                  |Words(longer)|, maxWords);
  }

  /** Once the scene being built is finished the next sentence starts another. */
  lemma SizesBeside(done: seq<Text>, scenes: seq<Text>, current: Text, flushed: seq<Text>, sentence: Text,
                    maxWords: int)
    requires maxWords >= 1 && Economical(done, scenes, current, maxWords) && sentence != []
    requires current != [] && |Words(current)| + |Words(sentence)| > maxWords && 0 < |Words(sentence)| <= maxWords
    requires flushed == Built(scenes, current)
    ensures Economical(done + [sentence], flushed, sentence, maxWords)
  {
    GreedySnoc(done, sentence, maxWords);
    WordCountsSnoc(flushed, sentence);
  }

  lemma SizesSplit(done: seq<Text>, scenes: seq<Text>, current: Text, sentence: Text, more: seq<Text>, maxWords: int)
    requires maxWords >= 1 && Economical(done, scenes, current, maxWords) && |Words(sentence)| > maxWords
    requires WordCounts(more) == WordCounts(Built(scenes, current)) + ChunkSizes(|Words(sentence)|, maxWords)
    ensures Economical(done + [sentence], more, [], maxWords)
  {
    GreedySnoc(done, sentence, maxWords);
  }

  lemma SizesSkip(done: seq<Text>, scenes: seq<Text>, current: Text, sentence: Text, maxWords: int)
    requires maxWords >= 1 && Economical(done, scenes, current, maxWords) && Glued(done, scenes, current, maxWords)
    requires Words(sentence) == []
    ensures Economical(done + [sentence], scenes, current, maxWords)
    ensures Glued(done + [sentence], scenes, current, maxWords)
  {
    GreedySnoc(done, sentence, maxWords);
    AllShownSnoc(done, sentence, maxWords);
    assert AllShown(done, maxWords) + [] == AllShown(done, maxWords);
  }

  /** What the loop keeps: the words and the sizes, the greedy distribution, and the
      text. */
  ghost predicate InStep(done: seq<Text>, scenes: seq<Text>, current: Text, maxWords: int)
    requires maxWords >= 1
  {
    && Packed(done, scenes, current, maxWords)
    && Economical(done, scenes, current, maxWords)
    && Glued(done, scenes, current, maxWords)
  }

  /** An oversized sentence: what was being built is finished first. */
  method TakeOversized(scenes: seq<Text>, current: Text, sentence: Text, maxWords: int, ghost done: seq<Text>)
    returns (more: seq<Text>)
    requires maxWords >= 1 && InStep(done, scenes, current, maxWords) && |Words(sentence)| > maxWords
    ensures InStep(done + [sentence], more, [], maxWords) && scenes <= more
  {
    var words := Words(sentence);
    var flushed := Flush(scenes, current, maxWords, done);
    WordsAreWords(sentence);
    more := SplitWords(flushed, words, maxWords);
    SplitPacks(done, flushed, sentence, more, maxWords);
    SizesSplit(done, scenes, current, sentence, more, maxWords);
    assert more != [] by {
      assert |WordCounts(more)| == |WordCounts(flushed)| + |ChunkSizes(|words|, maxWords)|;
    }
    GluedBeside(done, flushed, sentence, more, maxWords);
  }

  /** A sentence that fits into a scene. */
  method TakeFitting(scenes: seq<Text>, current: Text, currentWords: int, sentence: Text, maxWords: int,
                     ghost done: seq<Text>)
    returns (more: seq<Text>, next: Text, nextWords: int)
    requires maxWords >= 1 && InStep(done, scenes, current, maxWords) && currentWords == |Words(current)|
    requires Trimmed(sentence) && 0 < |Words(sentence)| <= maxWords
    ensures InStep(done + [sentence], more, next, maxWords) && nextWords == |Words(next)| && scenes <= more
  {
    more, next, nextWords := scenes, current, currentWords;
    if currentWords > 0 && currentWords + |Words(sentence)| > maxWords {
      more := Flush(scenes, current, maxWords, done);
      next, nextWords := [], 0;
      FlushedInStep(done, scenes, current, sentence, more, maxWords);
    } else {
      JoinsInStep(done, scenes, current, sentence, maxWords);
    }
    next := Append(next, sentence, done, more, maxWords);
    nextWords := nextWords + |Words(sentence)|;
  }

  /** The scene being built has no room: the sentence becomes the next one. */
  lemma FlushedInStep(done: seq<Text>, scenes: seq<Text>, current: Text, sentence: Text, flushed: seq<Text>,
                      maxWords: int)
    requires maxWords >= 1 && InStep(done, scenes, current, maxWords) && Trimmed(sentence)
    requires 0 < |Words(current)| && |Words(current)| + |Words(sentence)| > maxWords
    requires 0 < |Words(sentence)| <= maxWords && flushed == Built(scenes, current)
    ensures Words([]) == [] && current != []
    ensures Economical(done + [sentence], flushed, sentence, maxWords)
    ensures Glued(done + [sentence], flushed, sentence, maxWords)
  {
    SizesBeside(done, scenes, current, flushed, sentence, maxWords);
    assert Built(flushed, []) == flushed;
    GluedInside(done, flushed, [], sentence, sentence, maxWords);
  }

  lemma JoinsInStep(done: seq<Text>, scenes: seq<Text>, current: Text, sentence: Text, maxWords: int)
    requires maxWords >= 1 && InStep(done, scenes, current, maxWords) && Trimmed(sentence)
    requires 0 < |Words(sentence)| && |Words(current)| + |Words(sentence)| <= maxWords
    ensures var longer := if current == [] then sentence else current + [SPACE] + sentence;
            && Economical(done + [sentence], scenes, longer, maxWords)
            && Glued(done + [sentence], scenes, longer, maxWords)
  {
    var longer := if current == [] then sentence else current + [SPACE] + sentence;
    AppendedWords(current, sentence, longer, maxWords);
    SizesInside(done, scenes, current, sentence, longer, maxWords);
    GluedInside(done, scenes, current, sentence, longer, maxWords);
  }

  /** The body of splitIntoScenes' loop. */
  method TakeSentence(scenes: seq<Text>, current: Text, currentWords: int, sentence: Text, maxWords: int,
                      ghost done: seq<Text>)
    returns (more: seq<Text>, next: Text, nextWords: int)
    requires maxWords >= 1 && InStep(done, scenes, current, maxWords) && currentWords == |Words(current)|
    requires Trimmed(sentence)
    ensures InStep(done + [sentence], more, next, maxWords) && nextWords == |Words(next)| && scenes <= more
  {
    var words := Words(sentence);
    if |words| == 0 {
      SkipPacks(done, scenes, current, sentence, maxWords);
      SizesSkip(done, scenes, current, sentence, maxWords);
      return scenes, current, currentWords;
    }
    if |words| > maxWords {
      more := TakeOversized(scenes, current, sentence, maxWords, done);
      next, nextWords := [], 0;
      assert Words([]) == [];
    } else {
      more, next, nextWords := TakeFitting(scenes, current, currentWords, sentence, maxWords, done);
    }
  }

  /** The scenes of a list of sentences, fully determined: their words in order, the
      greedy distribution of them, and single spaces in between. */
  ghost predicate Scenes(sentences: seq<Text>, scenes: seq<Text>, maxWords: int)
    requires maxWords >= 1
  {
    && Packed(sentences, scenes, [], maxWords)
    && WordCounts(scenes) == Greedy(sentences, maxWords).sizes
    && Join(scenes) == Join(AllShown(sentences, maxWords))
  }

  method PackSentences(sentences: seq<Text>, maxWords: int) returns (scenes: seq<Text>)
    requires maxWords >= 1 && AllTrimmed(sentences)
    ensures Scenes(sentences, scenes, maxWords)
  {
    scenes := [];
    var current: Text := [];
    var currentWords := 0;
    for i := 0 to |sentences|
      invariant currentWords == |Words(current)|
      invariant InStep(sentences[..i], scenes, current, maxWords)
    {
      TakeSnoc(sentences, i);
      scenes, current, currentWords :=
        TakeSentence(scenes, current, currentWords, sentences[i], maxWords, sentences[..i]);
    }
    TakeAll(sentences);
    scenes := Flush(scenes, current, maxWords, sentences);
  }

  lemma PackedIsGood(t: Text, scenes: seq<Text>, maxWords: int)
    requires Packed(Sentences(t), scenes, [], maxWords)
    ensures GoodScenes(t, scenes, maxWords)
  {
    SentencesKeepWords(t);
    NoWords(AllWords(scenes));
  }

  lemma RawAreTrimmed(text: Bytes)
    ensures AllTrimmed(RawSentences(text))
  {
    var t := Decode(text);
    PiecesAreTrimmed(RawSegments(text, |t|) + [SliceText(text, Offset(t, StartOf(t, |t|)), |text|)]);
  }

  /** splitIntoScenes, on any bytes: the scenes are packed from the sentences it
      slices out, and these are the sentences of the text when no broken byte stands
      before a cut. */
  method SplitIntoScenes(text: Bytes, maxWords: int) returns (out: Split)
    requires maxWords >= 1
    ensures out.Panicked? <==> Overruns(text)
    ensures out.Done? ==> Scenes(RawSentences(text), out.parts, maxWords)
    ensures CutsClean(text) ==> out.Done? && GoodScenes(Decode(text), out.parts, maxWords)
  {
    var split := SplitSentences(text);
    if split.Panicked? {
      if CutsClean(text) {
        CleanCutsSuffice(text);
      }
      return Panicked;
    }
    RawAreTrimmed(text);
    var scenes := PackSentences(split.parts, maxWords);
    if CutsClean(text) {
      CleanCutsSuffice(text);
      PackedIsGood(Decode(text), scenes, maxWords);
    }
    return Done(scenes);
  }
}
