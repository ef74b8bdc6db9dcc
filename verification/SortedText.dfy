/** Python's sorted() on strings, given as UTF-8 bytes (byte order and code point
    order agree there): the result depends only on which strings are listed. */
module SortedText {
  import opened ChunkCode

  predicate Before(a: Bytes, b: Bytes) {
    if a == [] then true
    else if b == [] then false
    else a[0] < b[0] || (a[0] == b[0] && Before(a[1..], b[1..]))
  }

  lemma {:induction false} Total(a: Bytes, b: Bytes)
    ensures Before(a, b) || Before(b, a)
  {
    if a != [] && b != [] {
      Total(a[1..], b[1..]);
    }
  }

  lemma {:induction false} Antisymmetric(a: Bytes, b: Bytes)
    requires Before(a, b) && Before(b, a)
    ensures a == b
  {
    if a != [] {
      Antisymmetric(a[1..], b[1..]);
      SameCons(a, b);
    }
  }

  lemma {:induction false} Transitive(a: Bytes, b: Bytes, c: Bytes)
    requires Before(a, b) && Before(b, c)
    ensures Before(a, c)
  {
    if a != [] && a[0] == b[0] == c[0] {
      Transitive(a[1..], b[1..], c[1..]);
    }
  }

  /** The first byte that differs decides, and a beginning comes first. */
  lemma {:induction false} ByteOrder(p: Bytes, x: Byte, a: Bytes, y: Byte, b: Bytes)
    ensures x < y ==> Before(p + ([x] + a), p + ([y] + b)) && !Before(p + ([y] + b), p + ([x] + a))
    ensures Before(p, p + a)
  {
    if p == [] {
      assert p + ([x] + a) == [x] + a && p + ([y] + b) == [y] + b;
    } else {
      ByteOrder(p[1..], x, a, y, b);
      assert (p + ([x] + a))[1..] == p[1..] + ([x] + a) && (p + ([y] + b))[1..] == p[1..] + ([y] + b);
      assert (p + a)[1..] == p[1..] + a;
    }
  }

  predicate Ascending(s: seq<Bytes>) {
    forall i, j :: 0 <= i < j < |s| ==> Before(s[i], s[j])
  }

  function Insert(x: Bytes, s: seq<Bytes>): (r: seq<Bytes>)
    ensures multiset(r) == multiset(s) + multiset{x}
  {
    if s == [] then [x]
    else if Before(x, s[0]) then [x] + s
    else
      assert s == [s[0]] + s[1..];
      [s[0]] + Insert(x, s[1..])
  }

  function Sorted(s: seq<Bytes>): (r: seq<Bytes>)
    ensures multiset(r) == multiset(s)
  {
    if s == [] then []
    else
      assert s == [s[0]] + s[1..];
      Insert(s[0], Sorted(s[1..]))
  }

  lemma {:induction false} InsertAscends(x: Bytes, s: seq<Bytes>)
    requires Ascending(s)
    ensures Ascending(Insert(x, s))
  {
    if s != [] {
      Total(x, s[0]);
      if Before(x, s[0]) {
        forall j | 0 <= j < |s| ensures Before(x, s[j]) {
          if j > 0 {
            Transitive(x, s[0], s[j]);
          }
        }
      } else {
        InsertAscends(x, s[1..]);
        var t := Insert(x, s[1..]);
        forall j | 0 <= j < |t| ensures Before(s[0], t[j]) {
          assert t[j] in multiset(t);
          if t[j] != x {
            assert t[j] in multiset(s[1..]);
          }
        }
      }
    }
  }

  lemma {:induction false} SortedAscends(s: seq<Bytes>)
    ensures Ascending(Sorted(s))
  {
    if s != [] {
      SortedAscends(s[1..]);
      InsertAscends(s[0], Sorted(s[1..]));
    }
  }

  lemma FirstIsLeast(s: seq<Bytes>, x: Bytes)
    requires Ascending(s) && x in s
    ensures Before(s[0], x)
  {
    Total(x, x);
  }

  lemma SameFirst(s: seq<Bytes>, t: seq<Bytes>)
    requires Ascending(s) && Ascending(t) && s != [] && t != []
    requires s[0] in t && t[0] in s
    ensures s[0] == t[0]
  {
    FirstIsLeast(s, t[0]);
    FirstIsLeast(t, s[0]);
    Antisymmetric(s[0], t[0]);
  }

  lemma TailMultiset(s: seq<Bytes>)
    requires s != []
    ensures multiset(s) == multiset{s[0]} + multiset(s[1..])
  {
    assert s == [s[0]] + s[1..];
  }

  lemma MultisetCancels(x: Bytes, m: multiset<Bytes>, n: multiset<Bytes>)
    requires multiset{x} + m == multiset{x} + n
    ensures m == n
  {
    assert m == (multiset{x} + m) - multiset{x};
    assert n == (multiset{x} + n) - multiset{x};
  }

  lemma {:induction false} AscendingUnique(s: seq<Bytes>, t: seq<Bytes>)
    requires Ascending(s) && Ascending(t) && multiset(s) == multiset(t)
    ensures s == t
    decreases |s|
  {
    assert |s| == |multiset(s)| == |multiset(t)| == |t|;
    if s != [] {
      assert s[0] in multiset(t) && t[0] in multiset(s);
      SameFirst(s, t);
      TailMultiset(s);
      TailMultiset(t);
      MultisetCancels(s[0], multiset(s[1..]), multiset(t[1..]));
      AscendingUnique(s[1..], t[1..]);
      SameCons(s, t);
    }
  }

  /** Reordering a registry list changes nothing downstream. */
  lemma SortedForgetsOrder(s: seq<Bytes>, t: seq<Bytes>)
    requires multiset(s) == multiset(t)
    ensures Sorted(s) == Sorted(t)
  {
    SortedAscends(s);
    SortedAscends(t);
    AscendingUnique(Sorted(s), Sorted(t));
  }

  lemma SameMembers(s: seq<Bytes>)
    ensures forall x :: x in Sorted(s) <==> x in s
  {
    var t := Sorted(s);
    assert multiset(t) == multiset(s);
    assert forall x :: x in t <==> x in multiset(t);
    assert forall x :: x in s <==> x in multiset(s);
  }
}
