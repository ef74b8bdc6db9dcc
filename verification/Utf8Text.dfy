/** Go strings: UTF-8 bytes, the runes []rune(text) sees in them, and the byte offsets
    cmd/semantic-extract/text.go computes from the runes. */
module Utf8Text {

  type Byte = b: int | 0 <= b < 256

  type Bytes = seq<Byte>

  type Rune = r: int | 0 <= r <= 0x10FFFF && !(0xD800 <= r <= 0xDFFF)

  type Text = seq<Rune>

  /** What a byte that starts no valid sequence decodes to. */
  const REPLACEMENT: Rune := 0xFFFD

  function RuneLen(r: Rune): (n: nat)
    ensures 1 <= n <= 4
  {
    if r < 0x80 then 1 else if r < 0x800 then 2 else if r < 0x10000 then 3 else 4
  }

  function Utf8(r: Rune): (b: Bytes)
    ensures |b| == RuneLen(r)
  {
    if r < 0x80 then [r]
    else if r < 0x800 then [0xC0 + r / 64, 0x80 + r % 64]
    else if r < 0x10000 then [0xE0 + r / 4096, 0x80 + r / 64 % 64, 0x80 + r % 64]
    else [0xF0 + r / 262144, 0x80 + r / 4096 % 64, 0x80 + r / 64 % 64, 0x80 + r % 64]
  }

  function Encode(t: Text): Bytes {
    if t == [] then [] else Encode(t[..|t| - 1]) + Utf8(t[|t| - 1])
  }

  predicate Trails(b: Byte) {
    0x80 <= b <= 0xBF
  }

  /** The second byte is restricted further after four particular first bytes. */
  predicate Follows(b0: Byte, b1: Byte) {
    (if b0 == 0xE0 then 0xA0 else if b0 == 0xF0 then 0x90 else 0x80)
    <= b1 <= (if b0 == 0xED then 0x9F else if b0 == 0xF4 then 0x8F else 0xBF)
  }

  function Join2(b0: int, b1: int): int {
    (b0 - 0xC0) * 64 + (b1 - 0x80)
  }

  function Join3(b0: int, b1: int, b2: int): int {
    (b0 - 0xE0) * 4096 + (b1 - 0x80) * 64 + (b2 - 0x80)
  }

  function Join4(b0: int, b1: int, b2: int, b3: int): int {
    (b0 - 0xF0) * 262144 + (b1 - 0x80) * 4096 + (b2 - 0x80) * 64 + (b3 - 0x80)
  }

  /** The first rune of a non-empty string, and how many bytes it takes. */
  function FirstRune(b: Bytes): (p: (Rune, nat))
    requires b != []
    ensures 1 <= p.1 <= |b|
  {
    var b0 := b[0];
    if b0 < 0x80 then (b0, 1)
    else if 0xC2 <= b0 <= 0xDF && |b| >= 2 && Trails(b[1]) then
      (Join2(b0, b[1]), 2)
    else if 0xE0 <= b0 <= 0xEF && |b| >= 3 && Follows(b0, b[1]) && Trails(b[2]) then
      (Join3(b0, b[1], b[2]), 3)
    else if 0xF0 <= b0 <= 0xF4 && |b| >= 4 && Follows(b0, b[1]) && Trails(b[2]) && Trails(b[3]) then
      (Join4(b0, b[1], b[2], b[3]), 4)
    else (REPLACEMENT, 1)
  }

  /** []rune(text). */
  function Decode(b: Bytes): Text
    decreases |b|
  {
    if b == [] then []
    else
      var (r, width) := FirstRune(b);
      [r] + Decode(b[width..])
  }

  predicate Valid(b: Bytes) {
    Encode(Decode(b)) == b
  }

  lemma Digits(r: int)
    requires 0 <= r
    ensures r == r / 64 * 64 + r % 64
    ensures r / 64 == r / 4096 * 64 + r / 64 % 64
    ensures r / 4096 == r / 262144 * 64 + r / 4096 % 64
  {
  }

  lemma FirstRuneOfUtf8(r: Rune, rest: Bytes)
    ensures FirstRune(Utf8(r) + rest) == (r, |Utf8(r)|)
  {
    Digits(r);
  }

  lemma LastDigit(q: int, d: int, n: int)
    requires 0 <= d < 64 && n == q * 64 + d
    ensures n / 64 == q && n % 64 == d
  {
  }

  lemma TwoBytes(b0: Byte, b1: Byte)
    requires 0xC2 <= b0 <= 0xDF && Trails(b1)
    ensures 0x80 <= Join2(b0, b1) < 0x800 && Utf8(Join2(b0, b1)) == [b0, b1]
  {
    LastDigit(b0 - 0xC0, b1 - 0x80, Join2(b0, b1));
  }

  lemma ThreeBytes(b0: Byte, b1: Byte, b2: Byte)
    requires 0xE0 <= b0 <= 0xEF && Follows(b0, b1) && Trails(b2)
    ensures var r := Join3(b0, b1, b2);
            0x800 <= r < 0x10000 && !(0xD800 <= r <= 0xDFFF) && Utf8(r) == [b0, b1, b2]
  {
    var r := Join3(b0, b1, b2);
    var m := (b0 - 0xE0) * 64 + (b1 - 0x80);
    LastDigit(b0 - 0xE0, b1 - 0x80, m);
    LastDigit(m, b2 - 0x80, r);
    Digits(r);
  }

  lemma FourBytes(b0: Byte, b1: Byte, b2: Byte, b3: Byte)
    requires 0xF0 <= b0 <= 0xF4 && Follows(b0, b1) && Trails(b2) && Trails(b3)
    ensures var r := Join4(b0, b1, b2, b3);
            0x10000 <= r <= 0x10FFFF && Utf8(r) == [b0, b1, b2, b3]
  {
    var r := Join4(b0, b1, b2, b3);
    var k := (b0 - 0xF0) * 64 + (b1 - 0x80);
    var m := k * 64 + (b2 - 0x80);
    LastDigit(b0 - 0xF0, b1 - 0x80, k);
    LastDigit(k, b2 - 0x80, m);
    LastDigit(m, b3 - 0x80, r);
    Digits(r);
  }

  lemma OneByte(b: Bytes)
    requires b != [] && b[0] < 0x80
    ensures FirstRune(b) == (b[0] as Rune, 1) && Utf8(b[0] as Rune) == [b[0]]
  {
  }

  /** What is not taken for a broken byte is the encoding of the rune it is taken for:
      no overlong form, no surrogate, nothing beyond the last code point. */
  lemma FirstRuneIsPrefix(b: Bytes)
    requires b != [] && FirstRune(b) != (REPLACEMENT, 1)
    ensures var (r, width) := FirstRune(b); b[..width] == Utf8(r)
  {
    if b[0] < 0x80 {
      OneByte(b);
    } else if b[0] <= 0xDF {
      TwoBytes(b[0], b[1]);
    } else if b[0] <= 0xEF {
      ThreeBytes(b[0], b[1], b[2]);
    } else {
      FourBytes(b[0], b[1], b[2], b[3]);
    }
  }

  /** A dollar, a cent and a euro sign, and a letter beyond the first plane. */
  lemma Utf8Examples()
    ensures Utf8(0x24) == [0x24] && Utf8(0xA2) == [0xC2, 0xA2]
    ensures Utf8(0x20AC) == [0xE2, 0x82, 0xAC] && Utf8(0x10348) == [0xF0, 0x90, 0x8D, 0x88]
  {
  }

  lemma EncodeSnoc(t: Text, r: Rune)
    ensures Encode(t + [r]) == Encode(t) + Utf8(r)
  {
    assert (t + [r])[..|t|] == t;
  }

  lemma Assoc(a: Bytes, b: Bytes, c: Bytes)
    ensures (a + b) + c == a + (b + c)
  {
  }

  lemma {:induction false} EncodeConcat(s: Text, t: Text)
    ensures Encode(s + t) == Encode(s) + Encode(t)
    decreases |t|
  {
    if t == [] {
      assert s + t == s;
    } else {
      var front, last := t[..|t| - 1], t[|t| - 1];
      EncodeConcat(s, front);
      assert s + t == (s + front) + [last];
      EncodeSnoc(s + front, last);
      Assoc(Encode(s), Encode(front), Utf8(last));
    }
  }

  lemma EncodeOne(r: Rune)
    ensures Encode([r]) == Utf8(r)
  {
    EncodeSnoc([], r);
    assert [] + [r] == [r];
  }

  lemma EncodeCons(t: Text)
    requires t != []
    ensures Encode(t) == Utf8(t[0]) + Encode(t[1..])
  {
    EncodeConcat([t[0]], t[1..]);
    assert [t[0]] + t[1..] == t;
    EncodeOne(t[0]);
  }

  /** Decoding undoes encoding. */
  lemma {:induction false} DecodeEncode(t: Text)
    ensures Decode(Encode(t)) == t
  {
    if t != [] {
      EncodeCons(t);
      var b := Encode(t);
      FirstRuneOfUtf8(t[0], Encode(t[1..]));
      assert b[|Utf8(t[0])|..] == Encode(t[1..]);
      DecodeEncode(t[1..]);
    }
  }

  /** Where the offsets put the end of the i-th rune. */
  function Offset(t: Text, i: nat): nat
    requires i <= |t|
  {
    if i == 0 then 0 else Offset(t, i - 1) + RuneLen(t[i - 1])
  }

  lemma OffsetNext(t: Text, i: nat)
    requires i < |t|
    ensures Offset(t, i + 1) == Offset(t, i) + RuneLen(t[i])
  {
  }

  lemma {:induction false} OffsetIsLength(t: Text, i: nat)
    requires i <= |t|
    ensures Offset(t, i) == |Encode(t[..i])|
  {
    if i > 0 {
      OffsetIsLength(t, i - 1);
      assert t[..i][..i - 1] == t[..i - 1];
    }
  }

  // ---------------------------------------------------------------- text that is not valid

  /** Where the i-th rune really ends. */
  function Position(b: Bytes, i: nat): (p: nat)
    requires i <= |Decode(b)|
    ensures p <= |b|
    decreases i
  {
    if i == 0 then 0
    else FirstRune(b).1 + Position(b[FirstRune(b).1..], i - 1)
  }

  predicate Broken(b: Bytes)
    requires b != []
  {
    FirstRune(b) == (REPLACEMENT, 1)
  }

  /** None of the first i runes stands for a byte that is no UTF-8. */
  predicate Clean(b: Bytes, i: nat)
    requires i <= |Decode(b)|
    decreases i
  {
    i == 0 || (!Broken(b) && Clean(b[FirstRune(b).1..], i - 1))
  }

  lemma WidthOfFirst(b: Bytes)
    requires b != []
    ensures RuneLen(FirstRune(b).0) >= FirstRune(b).1
    ensures RuneLen(FirstRune(b).0) == FirstRune(b).1 <==> !Broken(b)
  {
  }

  lemma {:induction false} OffsetCons(t: Text, i: nat)
    requires 0 < i <= |t|
    ensures Offset(t, i) == RuneLen(t[0]) + Offset(t[1..], i - 1)
  {
    if i > 1 {
      OffsetCons(t, i - 1);
      assert t[i - 1] == t[1..][i - 2];
    }
  }

  /** The computed offset of a cut is right exactly when no broken byte precedes it;
      each one counts for three bytes instead of one. */
  lemma {:induction false} OffsetsExact(b: Bytes, i: nat)
    requires i <= |Decode(b)|
    ensures Offset(Decode(b), i) >= Position(b, i)
    ensures Offset(Decode(b), i) == Position(b, i) <==> Clean(b, i)
    decreases i
  {
    if i > 0 {
      var rest := b[FirstRune(b).1..];
      assert Decode(b)[1..] == Decode(rest);
      OffsetCons(Decode(b), i);
      WidthOfFirst(b);
      OffsetsExact(rest, i - 1);
    }
  }

  lemma FirstRuneOfPrefix(b: Bytes, p: nat)
    requires b != [] && FirstRune(b).1 <= p <= |b|
    ensures FirstRune(b[..p]) == FirstRune(b)
  {
  }

  lemma DropOfDrop<T>(s: seq<T>, w: nat, p: nat)
    requires w <= p <= |s|
    ensures s[p..] == s[w..][p - w..]
  {
  }

  lemma DropOfRest<T>(first: T, rest: seq<T>, i: nat)
    requires 0 < i <= |rest| + 1
    ensures ([first] + rest)[i..] == rest[i - 1..]
  {
  }

  lemma TakeOfRest<T>(first: T, rest: seq<T>, j: nat)
    requires 0 < j <= |rest| + 1
    ensures ([first] + rest)[..j] == [first] + rest[..j - 1]
  {
  }

  lemma DropOfTake<T>(s: seq<T>, w: nat, p: nat)
    requires w <= p <= |s|
    ensures s[..p][w..] == s[w..][..p - w]
  {
  }

  lemma {:induction false} PrefixAtPosition(b: Bytes, j: nat, p: nat)
    requires j <= |Decode(b)| && p == Position(b, j)
    ensures Decode(b[..p]) == Decode(b)[..j]
    decreases j
  {
    if j > 0 {
      var (r, w) := FirstRune(b);
      FirstRuneOfPrefix(b, p);
      DropOfTake(b, w, p);
      PrefixAtPosition(b[w..], j - 1, p - w);
      TakeOfRest(r, Decode(b[w..]), j);
    }
  }

  lemma {:induction false} DropAtPosition(b: Bytes, i: nat, p: nat)
    requires i <= |Decode(b)| && p == Position(b, i)
    ensures Decode(b[p..]) == Decode(b)[i..]
    decreases i
  {
    if i > 0 {
      var (r, w) := FirstRune(b);
      DropAtPosition(b[w..], i - 1, p - w);
      DropOfDrop(b, w, p);
      DropOfRest(r, Decode(b[w..]), i);
    }
  }

  lemma {:induction false} PositionInPrefix(b: Bytes, i: nat, j: nat, p: nat)
    requires i <= j <= |Decode(b)| && p == Position(b, j)
    requires |Decode(b[..p])| == j
    ensures Position(b[..p], i) == Position(b, i)
    decreases i
  {
    if i > 0 {
      var w := FirstRune(b).1;
      FirstRuneOfPrefix(b, p);
      DropOfTake(b, w, p);
      PositionInPrefix(b[w..], i - 1, j - 1, p - w);
    }
  }

  /** In any bytes, the slice between two true positions holds the runes between. */
  lemma SliceAtPositions(b: Bytes, i: nat, j: nat, from: nat, to: nat)
    requires i <= j <= |Decode(b)| && from == Position(b, i) && to == Position(b, j)
    ensures from <= to <= |b| && Decode(b[from..to]) == Decode(b)[i..j]
  {
    var c := b[..to];
    PrefixAtPosition(b, j, to);
    PositionInPrefix(b, i, j, to);
    DropAtPosition(c, i, from);
    assert c[from..] == b[from..to];
    assert Decode(b)[..j][i..] == Decode(b)[i..j];
  }

  lemma {:induction false} LastPosition(b: Bytes)
    ensures Position(b, |Decode(b)|) == |b|
    decreases |b|
  {
    if b != [] {
      LastPosition(b[FirstRune(b).1..]);
    }
  }

  lemma {:induction false} CleanPrefix(b: Bytes, i: nat, j: nat)
    requires i <= j <= |Decode(b)| && Clean(b, j)
    ensures Clean(b, i)
    decreases i
  {
    if i > 0 {
      CleanPrefix(b[FirstRune(b).1..], i - 1, j - 1);
    }
  }

  /** Offsets with no broken byte before them cut between runes. */
  lemma SlicesAlign(b: Bytes, i: nat, j: nat)
    requires i <= j <= |Decode(b)| && Clean(b, j)
    ensures Offset(Decode(b), i) <= Offset(Decode(b), j) <= |b|
    ensures Decode(b[Offset(Decode(b), i)..Offset(Decode(b), j)]) == Decode(b)[i..j]
  {
    CleanPrefix(b, i, j);
    OffsetsExact(b, i);
    OffsetsExact(b, j);
    SliceAtPositions(b, i, j, Offset(Decode(b), i), Offset(Decode(b), j));
  }

  /** Valid text has no broken byte. */
  lemma ValidIsClean(b: Bytes, i: nat)
    requires Valid(b) && i <= |Decode(b)|
    ensures Clean(b, i)
  {
    var t := Decode(b);
    OffsetIsLength(t, |t|);
    assert t[..|t|] == t;
    LastPosition(b);
    OffsetsExact(b, |t|);
    CleanPrefix(b, i, |t|);
  }

  /** A broken byte before a full stop: the slice would end past the text. */
  lemma BrokenByteOverruns()
    ensures Decode([0xFF, 46]) == [REPLACEMENT, 46]
    ensures Offset(Decode([0xFF, 46]), 2) > |[0xFF, 46]|
  {
    var b: Bytes := [0xFF, 46];
    assert FirstRune(b) == (REPLACEMENT, 1) && b[1..] == [46];
    var c: Bytes := [46];
    assert FirstRune(c) == (46, 1) && c[1..] == [];
    assert Decode(c) == [46];
    assert Decode(b) == [REPLACEMENT] + Decode(c);
    OffsetCons(Decode(b), 2);
    OffsetCons(Decode(b)[1..], 1);
  }
}
