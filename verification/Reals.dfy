/** Sums of reals, and products and quotients taken apart one rule at a time. */
module Reals {

  function Sum(xs: seq<real>): real {
    if xs == [] then 0.0 else Sum(xs[..|xs| - 1]) + xs[|xs| - 1]
  }

  ghost predicate Within(xs: seq<real>, lo: real, hi: real) {
    forall i | 0 <= i < |xs| :: lo <= xs[i] <= hi
  }

  /** What makes it the sum: single values count once, and lists add up. */
  lemma {:induction false} SumConcat(xs: seq<real>, ys: seq<real>)
    ensures Sum(xs + ys) == Sum(xs) + Sum(ys)
    decreases |ys|
  {
    if ys == [] {
      assert xs + ys == xs;
    } else {
      SumConcat(xs, ys[..|ys| - 1]);
      assert (xs + ys)[..|xs + ys| - 1] == xs + ys[..|ys| - 1];
    }
  }

  lemma SumOfOne(x: real)
    ensures Sum([x]) == x
  {
    assert [x][..0] == [];
  }

  /* Products of reals are taken apart one rule at a time. */

  lemma Spread(a: real, b: real, c: real)
    ensures a * (b + c) == a * b + a * c
  {
  }

  lemma Expand(a: real, b: real, c: real, d: real)
    ensures (a - b) * (c - d) == a * c - a * d - b * c + b * d
  {
    Spread(a - b, c, -d);
    Spread(c, a, -b);
    Spread(d, a, -b);
  }

  lemma ProductSign(a: real, b: real)
    requires a >= 0.0 && b >= 0.0
    ensures a * b >= 0.0
    ensures a > 0.0 && b > 0.0 ==> a * b > 0.0
  {
  }

  lemma {:induction false} SumMonotone(xs: seq<real>, ys: seq<real>)
    requires |xs| == |ys| && forall i | 0 <= i < |xs| :: xs[i] <= ys[i]
    ensures Sum(xs) <= Sum(ys)
    decreases |xs|
  {
    if xs != [] { SumMonotone(xs[..|xs| - 1], ys[..|ys| - 1]); }
  }

  lemma {:induction false} SumOfConstant(n: nat, c: real)
    ensures Sum(seq(n, _ => c)) == c * n as real
  {
    if n > 0 {
      SumOfConstant(n - 1, c);
      assert seq(n, _ => c)[..n - 1] == seq(n - 1, _ => c);
      Spread(c, (n - 1) as real, 1.0);
    }
  }

  lemma Minus(a: real, b: real, c: real)
    ensures a * (b - c) == a * b - a * c
  {
  }

  /** A quotient lies where its numerator says it does. */
  lemma Quotient(q: real, n: real, lo: real, hi: real)
    requires n > 0.0 && n * lo <= n * q <= n * hi
    ensures lo <= q <= hi
  {
    Minus(n, lo, q);
    Minus(n, q, hi);
    if q < lo { ProductSign(n, lo - q); }
    if q > hi { ProductSign(n, q - hi); }
  }

  lemma QuotientSign(s: real, n: real)
    requires s >= 0.0 && n > 0.0
    ensures s / n >= 0.0
  {
  }

  lemma Divide(s: real, n: real)
    requires n > 0.0
    ensures n * (s / n) == s
  {
  }

  lemma SumWithin(pings: seq<real>, lo: real, hi: real, n: real)
    requires Within(pings, lo, hi) && n == |pings| as real
    ensures n * lo <= Sum(pings) <= n * hi
  {
    SumFromBelow(pings, lo);
    SumFromAbove(pings, hi);
  }

  lemma {:induction false} SumFromBelow(xs: seq<real>, lo: real)
    requires forall i | 0 <= i < |xs| :: lo <= xs[i]
    ensures |xs| as real * lo <= Sum(xs)
    decreases |xs|
  {
    if xs != [] {
      SumFromBelow(xs[..|xs| - 1], lo);
      Spread(lo, (|xs| - 1) as real, 1.0);
    }
  }

  lemma {:induction false} SumFromAbove(xs: seq<real>, hi: real)
    requires forall i | 0 <= i < |xs| :: xs[i] <= hi
    ensures Sum(xs) <= |xs| as real * hi
    decreases |xs|
  {
    if xs != [] {
      SumFromAbove(xs[..|xs| - 1], hi);
      Spread(hi, (|xs| - 1) as real, 1.0);
    }
  }

  /** The mean, 0 for an empty list. */
  function Mean(xs: seq<real>): real {
    if xs == [] then 0.0 else Sum(xs) / |xs| as real
  }

  /** n times the mean is the sum. */
  lemma MeanTimesCount(xs: seq<real>)
    ensures |xs| as real * Mean(xs) == Sum(xs)
  {
    if xs != [] { Divide(Sum(xs), |xs| as real); }
  }

  /** The mean of a non-empty list lies between any bounds of its values. */
  lemma MeanIsWithin(xs: seq<real>, lo: real, hi: real)
    requires xs != [] && Within(xs, lo, hi)
    ensures lo <= Mean(xs) <= hi
  {
    var n := |xs| as real;
    SumWithin(xs, lo, hi, n);
    Divide(Sum(xs), n);
    Quotient(Mean(xs), n, lo, hi);
  }
}
