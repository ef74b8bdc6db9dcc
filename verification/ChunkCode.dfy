/** Length-prefixed chunks (scripts/ci/verify_component_fingerprint.py, _update):
    eight big-endian bytes of length, then the data.  Different chunk lists give
    different byte strings. */
module ChunkCode {

  type Byte = b: int | 0 <= b < 256

  type Bytes = seq<Byte>

  /** 2^64: to_bytes(8, ...) raises OverflowError from here on. */
  const LIMIT: nat := 0x1_0000_0000_0000_0000

  function BigEndian(n: nat, width: nat): (r: Bytes)
    ensures |r| == width
  {
    if width == 0 then [] else BigEndian(n / 256, width - 1) + [(n % 256) as Byte]
  }

  function FromBigEndian(r: Bytes): nat {
    if r == [] then 0 else FromBigEndian(r[..|r| - 1]) * 256 + r[|r| - 1]
  }

  function Power256(w: nat): (p: nat)
    ensures p >= 1
  {
    if w == 0 then 1 else 256 * Power256(w - 1)
  }

  lemma {:induction false} ReadsBack(n: nat, width: nat)
    requires n < Power256(width)
    ensures FromBigEndian(BigEndian(n, width)) == n
  {
    if width > 0 {
      ReadsBack(n / 256, width - 1);
      var r := BigEndian(n, width);
      assert r[..width - 1] == BigEndian(n / 256, width - 1);
    }
  }

  lemma EightBytes()
    ensures Power256(8) == LIMIT
  {
    assert Power256(4) == 0x1_0000_0000;
    assert Power256(8) == 256 * (256 * (256 * (256 * Power256(4))));
  }

  function Frame(data: Bytes): (r: Bytes)
    ensures |r| == 8 + |data|
  {
    BigEndian(|data|, 8) + data
  }

  /** What the hasher has been fed after a list of chunks. */
  function Encode(chunks: seq<Bytes>): Bytes {
    if chunks == [] then [] else Encode(chunks[..|chunks| - 1]) + Frame(chunks[|chunks| - 1])
  }

  lemma EncodeSnoc(chunks: seq<Bytes>, c: Bytes, all: seq<Bytes>)
    requires all == chunks + [c]
    ensures Encode(all) == Encode(chunks) + Frame(c)
  {
    assert all[..|all| - 1] == chunks;
  }

  /** Three chunks, the second empty: each behind its length in eight bytes, the most
      significant first. */
  lemma FramesInOrder(x: Bytes, y: Bytes)
    requires |x| == 0x203 && |y| < 0x100
    ensures Encode([x, [], y]) ==
            ([0, 0, 0, 0, 0, 0, 2, 3] + x) + [0, 0, 0, 0, 0, 0, 0, 0] + ([0, 0, 0, 0, 0, 0, 0, |y|] + y)
  {
    SmallLength(x);
    SmallLength([]);
    SmallLength(y);
    EncodeSnoc([], x, [x]);
    EncodeSnoc([x], [], [x, []]);
    EncodeSnoc([x, []], y, [x, [], y]);
  }

  lemma SmallLength(x: Bytes)
    requires |x| < 0x1_0000
    ensures Frame(x) == [0, 0, 0, 0, 0, 0, |x| / 0x100, |x| % 0x100] + x
  {
    LastTwo(|x|, |x| / 0x100);
    Zeros(6);
  }

  lemma LastTwo(n: nat, m: nat)
    requires n < 0x1_0000 && m == n / 0x100
    ensures BigEndian(n, 8) == BigEndian(0, 6) + [m, n % 0x100]
  {
    assert m / 0x100 == 0 && m % 0x100 == m;
    assert BigEndian(m, 7) == BigEndian(0, 6) + [m];
  }

  lemma {:induction false} Zeros(width: nat)
    ensures BigEndian(0, width) == seq(width, _ => 0)
  {
    if width > 0 {
      Zeros(width - 1);
    }
  }

  lemma SameCons<T>(s: seq<T>, t: seq<T>)
    requires s != [] && t != [] && s[0] == t[0] && s[1..] == t[1..]
    ensures s == t
  {
    assert s == [s[0]] + s[1..] && t == [t[0]] + t[1..];
  }

  predicate Fit(chunks: seq<Bytes>) {
    forall i :: 0 <= i < |chunks| ==> |chunks[i]| < LIMIT
  }

  lemma {:induction false} EncodeConcat(xs: seq<Bytes>, ys: seq<Bytes>)
    ensures Encode(xs + ys) == Encode(xs) + Encode(ys)
  {
    if ys == [] {
      assert xs + ys == xs;
      assert Encode(xs) + [] == Encode(xs);
    } else {
      var n := |ys| - 1;
      var all, last := xs + ys, Frame(ys[n]);
      EncodeConcat(xs, ys[..n]);
      assert all[..|all| - 1] == xs + ys[..n] && all[|all| - 1] == ys[n];
      assert Encode(all) == Encode(xs) + Encode(ys[..n]) + last;
      assert Encode(ys) == Encode(ys[..n]) + last;
    }
  }

  lemma EncodeCons(x: Bytes, xs: seq<Bytes>)
    ensures Encode([x] + xs) == Frame(x) + Encode(xs)
  {
    EncodeConcat([x], xs);
    assert [x][..0] == [];
    assert Encode([x]) == [] + Frame(x);
  }

  /** The first chunk can be read off the front. */
  lemma FrameSplits(x: Bytes, xs: Bytes, y: Bytes, ys: Bytes)
    requires |x| < LIMIT && |y| < LIMIT
    requires Frame(x) + xs == Frame(y) + ys
    ensures x == y && xs == ys
  {
    EightBytes();
    var a, b := BigEndian(|x|, 8), BigEndian(|y|, 8);
    assert a == (Frame(x) + xs)[..8] == (Frame(y) + ys)[..8] == b;
    ReadsBack(|x|, 8);
    ReadsBack(|y|, 8);
    assert x == (Frame(x) + xs)[8..8 + |x|] == (Frame(y) + ys)[8..8 + |y|] == y;
    assert xs == (Frame(x) + xs)[8 + |x|..] == (Frame(y) + ys)[8 + |y|..] == ys;
  }

  /** Unique decoding. */
  lemma {:induction false} EncodeInjective(xs: seq<Bytes>, ys: seq<Bytes>)
    requires Fit(xs) && Fit(ys) && Encode(xs) == Encode(ys)
    ensures xs == ys
    decreases |xs|
  {
    if xs != [] {
      assert xs == [xs[0]] + xs[1..];
      EncodeCons(xs[0], xs[1..]);
    }
    if ys != [] {
      assert ys == [ys[0]] + ys[1..];
      EncodeCons(ys[0], ys[1..]);
    }
    if xs != [] && ys != [] {
      FrameSplits(xs[0], Encode(xs[1..]), ys[0], Encode(ys[1..]));
      EncodeInjective(xs[1..], ys[1..]);
    }
  }
}
