/**
  Polynomials given by their coefficient sequences, lowest degree first, and
  their values: the monomial sum Σ c[k]·x^k, Horner's rule (the order in which
  the source evaluates), and the linearity facts used to read a change of
  coefficients as an addition of polynomials.
*/
module Poly {
  import opened Bits
  import Fp

  /** x^k. */
  function Pow(x: int, k: nat): int
  {
    if k == 0 then 1 else x * Pow(x, k - 1)
  }

  /** Σ c[k]·x^k, built from the highest monomial down. */
  function PolySum(c: seq<int>, x: int): int
  {
    if |c| == 0 then 0 else PolySum(c[..|c| - 1], x) + c[|c| - 1] * Pow(x, |c| - 1)
  }

  /** c[0] + x·(c[1] + x·(c[2] + …)): Horner's rule. */
  function Horner(c: seq<int>, x: int): int
  {
    if |c| == 0 then 0 else c[0] + x * Horner(c[1..], x)
  }

  /** The coefficient-wise combination a - b + e. */
  function Combine(a: seq<int>, b: seq<int>, e: seq<int>): (r: seq<int>)
    requires |a| == |b| == |e|
    ensures |r| == |a|
    ensures forall k :: 0 <= k < |a| ==> r[k] == a[k] - b[k] + e[k]
  {
    seq(|a|, k requires 0 <= k < |a| => a[k] - b[k] + e[k])
  }

  /** j zero coefficients. */
  function ZeroCoeffs(j: nat): (r: seq<int>)
    ensures |r| == j && forall k :: 0 <= k < j ==> r[k] == 0
  {
    seq(j, _ => 0)
  }

  // ---------------------------------------------------------------------
  // Horner's rule computes the monomial sum.

  lemma {:induction false} PowAdd(x: int, a: nat, b: nat)
    ensures Pow(x, a + b) == Pow(x, a) * Pow(x, b)
  {
    if a > 0 {
      PowAdd(x, a - 1, b);
      MulAssoc(x, Pow(x, a - 1), Pow(x, b));
    }
  }

  lemma HeadStep(x: int, a: int, c: int, p: int)
    ensures x * (a + c * p) == x * a + c * (x * p)
  {
  }

  /** The monomial sum peeled from the constant term. */
  lemma {:induction false} PolySumHead(c: seq<int>, x: int)
    requires |c| > 0
    ensures PolySum(c, x) == c[0] + x * PolySum(c[1..], x)
    decreases |c|
  {
    var n := |c|;
    if n > 1 {
      var init := c[..n - 1];
      PolySumHead(init, x);
      assert init[1..] == c[1..][..n - 2];
      assert PolySum(c[1..], x) == PolySum(init[1..], x) + c[n - 1] * Pow(x, n - 2);
      HeadStep(x, PolySum(init[1..], x), c[n - 1], Pow(x, n - 2));
    }
  }

  /** Horner's rule and the monomial sum agree on every input. */
  lemma {:induction false} HornerIsPolySum(c: seq<int>, x: int)
    ensures Horner(c, x) == PolySum(c, x)
    decreases |c|
  {
    if |c| > 0 {
      HornerIsPolySum(c[1..], x);
      PolySumHead(c, x);
    }
  }

  // ---------------------------------------------------------------------
  // Linearity.

  lemma CombineStep(a: int, b: int, e: int, p: int)
    ensures (a - b + e) * p == a * p - b * p + e * p
  {
  }

  lemma {:induction false} PolySumCombine(a: seq<int>, b: seq<int>, e: seq<int>, x: int)
    requires |a| == |b| == |e|
    ensures PolySum(Combine(a, b, e), x) == PolySum(a, x) - PolySum(b, x) + PolySum(e, x)
    decreases |a|
  {
    var n := |a|;
    if n > 0 {
      assert Combine(a, b, e)[..n - 1] == Combine(a[..n - 1], b[..n - 1], e[..n - 1]);
      PolySumCombine(a[..n - 1], b[..n - 1], e[..n - 1], x);
      CombineStep(a[n - 1], b[n - 1], e[n - 1], Pow(x, n - 1));
    }
  }

  /** Zero coefficients above the degree do not change the value. */
  lemma {:induction false} PolySumZerosRight(s: seq<int>, j: nat, x: int)
    ensures PolySum(s + ZeroCoeffs(j), x) == PolySum(s, x)
  {
    if j > 0 {
      assert (s + ZeroCoeffs(j))[..|s| + j - 1] == s + ZeroCoeffs(j - 1);
      PolySumZerosRight(s, j - 1, x);
    } else {
      assert s + ZeroCoeffs(j) == s;
    }
  }

  lemma ShiftStep(y: int, a: int, c: int, p: int)
    ensures y * a + c * (y * p) == y * (a + c * p)
  {
  }

  /** d zero coefficients below the constant term multiply the value by x^d. */
  lemma {:induction false} PolySumZerosLeft(d: nat, s: seq<int>, x: int)
    ensures PolySum(ZeroCoeffs(d) + s, x) == Pow(x, d) * PolySum(s, x)
    decreases |s|
  {
    var n := |s|;
    if n > 0 {
      var t := ZeroCoeffs(d) + s;
      assert t[..d + n - 1] == ZeroCoeffs(d) + s[..n - 1];
      PolySumZerosLeft(d, s[..n - 1], x);
      PowAdd(x, d, n - 1);
      ShiftStep(Pow(x, d), PolySum(s[..n - 1], x), s[n - 1], Pow(x, n - 1));
    } else {
      assert ZeroCoeffs(d) + s == ZeroCoeffs(d);
      PolySumZerosRight([], d, x);
      assert [] + ZeroCoeffs(d) == ZeroCoeffs(d);
    }
  }

  /** Coefficients congruent modulo m give values congruent modulo m. */
  lemma {:induction false} PolySumCongruent(a: seq<int>, b: seq<int>, x: int, m: nat)
    requires m > 0 && |a| == |b|
    requires forall k :: 0 <= k < |a| ==> a[k] % m == b[k] % m
    ensures PolySum(a, x) % m == PolySum(b, x) % m
    decreases |a|
  {
    var n := |a|;
    if n > 0 {
      PolySumCongruent(a[..n - 1], b[..n - 1], x, m);
      var p := Pow(x, n - 1);
      Fp.MulCongruent(a[n - 1], b[n - 1], p, p, m);
      Fp.AddCongruent(PolySum(a[..n - 1], x), PolySum(b[..n - 1], x), a[n - 1] * p, b[n - 1] * p, m);
    }
  }
}
