/** Sums of real numbers, and a number taken k times, with the inequalities the
    scheduling bounds are made of.  Repeated addition keeps the arithmetic linear. */
module RealSums {

  // ---------------------------------------------------------------- sums

  function Sum(xs: seq<real>): real {
    if xs == [] then 0.0 else Sum(xs[..|xs| - 1]) + xs[|xs| - 1]
  }

  ghost predicate NonNegative(xs: seq<real>) {
    forall i :: 0 <= i < |xs| ==> 0.0 <= xs[i]
  }

  ghost predicate Descending(xs: seq<real>) {
    forall i, j :: 0 <= i < j < |xs| ==> xs[j] <= xs[i]
  }

  /** k copies of x.  The proofs below add and compare such multiples; TimesIs
      turns them into products where a theorem is stated. */
  function Times(k: nat, x: real): real {
    if k == 0 then 0.0 else Times(k - 1, x) + x
  }

  lemma {:induction false} TimesIs(k: nat, x: real)
    ensures Times(k, x) == k as real * x
  {
    if k > 0 {
      TimesIs(k - 1, x);
      assert k as real * x == (k - 1) as real * x + x;
    }
  }

  lemma {:induction false} TimesMonotone(k: nat, x: real, y: real)
    requires x <= y
    ensures Times(k, x) <= Times(k, y)
  {
    if k > 0 {
      TimesMonotone(k - 1, x, y);
    }
  }

  lemma {:induction false} TimesPlus(k: nat, x: real, y: real)
    ensures Times(k, x + y) == Times(k, x) + Times(k, y)
  {
    if k > 0 {
      TimesPlus(k - 1, x, y);
    }
  }

  lemma {:induction false} TimesSplit(j: nat, k: nat, x: real)
    ensures Times(j + k, x) == Times(j, x) + Times(k, x)
  {
    if k > 0 {
      TimesSplit(j, k - 1, x);
    }
  }

  lemma {:induction false} SumUpdate(xs: seq<real>, i: nat, d: real)
    requires i < |xs|
    ensures Sum(xs[i := xs[i] + d]) == Sum(xs) + d
  {
    var n := |xs| - 1;
    var ys := xs[i := xs[i] + d];
    if i == n {
      assert ys[..n] == xs[..n];
    } else {
      assert ys[..n] == xs[..n][i := xs[..n][i] + d];
      SumUpdate(xs[..n], i, d);
    }
  }

  lemma {:induction false} SumAtLeast(xs: seq<real>, b: real)
    requires forall i :: 0 <= i < |xs| ==> b <= xs[i]
    ensures Times(|xs|, b) <= Sum(xs)
  {
    if xs != [] {
      SumAtLeast(xs[..|xs| - 1], b);
    }
  }

  lemma {:induction false} SumAtMost(xs: seq<real>, b: real)
    requires forall i :: 0 <= i < |xs| ==> xs[i] <= b
    ensures Sum(xs) <= Times(|xs|, b)
  {
    if xs != [] {
      SumAtMost(xs[..|xs| - 1], b);
    }
  }
}
