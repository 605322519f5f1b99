/**
  The base field Fp of a pairing-friendly curve, as integers modulo a prime
  p. The field arithmetic of the curve packages is not part of this model:
  elements are taken by value, already reduced, and each operation returns
  the reduced result of the same integer operation.
*/
module Fp {
  import opened Bits

  predicate IsPrime(p: nat) {
    p > 1 && forall d :: 1 < d < p ==> p % d != 0
  }

  /** A base-field modulus: a prime above 82, so that 2, 5 and 82 = 9^2 + 1 are invertible. */
  predicate IsModulus(p: nat) {
    IsPrime(p) && p > 82
  }

  function Add(a: nat, b: nat, p: nat): (r: nat)
    requires p > 0
    ensures r < p
  {
    (a + b) % p
  }

  function Sub(a: nat, b: nat, p: nat): (r: nat)
    requires p > 0
    ensures r < p
  {
    (a - b) % p
  }

  function Neg(a: nat, p: nat): (r: nat)
    requires p > 0
    ensures r < p
  {
    (0 - a) % p
  }

  function Double(a: nat, p: nat): (r: nat)
    requires p > 0
    ensures r < p
  {
    (a + a) % p
  }

  function Mul(a: nat, b: nat, p: nat): (r: nat)
    requires p > 0
    ensures r < p
  {
    (a * b) % p
  }

  function Square(a: nat, p: nat): (r: nat)
    requires p > 0
    ensures r < p
  {
    (a * a) % p
  }

  /** The extended Euclidean algorithm: the gcd g of a and b with s·a + t·b == g. */
  function ExtGcd(a: nat, b: nat): (r: (nat, int, int))
    decreases b
  {
    if b == 0 then (a, 1, 0)
    else
      var r := ExtGcd(b, a % b);
      (r.0, r.2, r.1 - (a / b) * r.2)
  }

  /** The inverse of a modulo p; 0 when a is a multiple of p. */
  function Inverse(a: nat, p: nat): (r: nat)
    requires p > 0
    ensures r < p
  {
    if a % p == 0 then 0 else ExtGcd(a % p, p).1 % p
  }

  // ---------------------------------------------------------------------
  // Congruences.

  /** Sums of congruent values are congruent. */
  lemma AddCongruent(x: int, X: int, y: int, Y: int, p: nat)
    requires p > 0 && x % p == X % p && y % p == Y % p
    ensures (x + y) % p == (X + Y) % p
  {
    SumSplit(x, y, p, x / p, x % p, y / p, y % p);
    SumSplit(X, Y, p, X / p, X % p, Y / p, Y % p);
    ModAddMultiple(x % p + y % p, x / p + y / p, p);
    ModAddMultiple(x % p + y % p, X / p + Y / p, p);
  }

  /** Differences of congruent values are congruent. */
  lemma SubCongruent(x: int, X: int, y: int, Y: int, p: nat)
    requires p > 0 && x % p == X % p && y % p == Y % p
    ensures (x - y) % p == (X - Y) % p
  {
    SumSplit(x, -y, p, x / p, x % p, -(y / p), -(y % p));
    SumSplit(X, -Y, p, X / p, X % p, -(Y / p), -(Y % p));
    ModAddMultiple(x % p - y % p, x / p - y / p, p);
    ModAddMultiple(x % p - y % p, X / p - Y / p, p);
  }

  lemma SumSplit(x: int, y: int, p: int, a: int, r: int, b: int, s: int)
    requires x == p * a + r && y == p * b + s
    ensures x + y == (r + s) + p * (a + b)
  {
  }

  /** Products of congruent values are congruent. */
  lemma MulCongruent(x: int, X: int, y: int, Y: int, p: nat)
    requires p > 0 && x % p == X % p && y % p == Y % p
    ensures (x * y) % p == (X * Y) % p
  {
    var r, s := x % p, y % p;
    var a, b, A, B := x / p, y / p, X / p, Y / p;
    ProductSplit(x, y, p, a, r, b, s);
    ProductSplit(X, Y, p, A, r, B, s);
    ModAddMultiple(r * s, a * y + r * b, p);
    ModAddMultiple(r * s, A * Y + r * B, p);
  }

  lemma ProductSplit(x: int, y: int, p: int, a: int, r: int, b: int, s: int)
    requires x == p * a + r && y == p * b + s
    ensures x * y == r * s + p * (a * y + r * b)
  {
    calc {
      x * y;
      (p * a + r) * y;
      p * a * y + r * y;
      p * a * y + r * (p * b + s);
      p * a * y + p * r * b + r * s;
    }
  }

  lemma ModMod(x: int, p: nat)
    requires p > 0
    ensures (x % p) % p == x % p
  {
    ModSmall(x % p, p);
  }

  /** Two reduced values are equal as soon as they are congruent. */
  lemma Reduced(a: nat, b: nat, p: nat)
    requires a < p && b < p && a % p == b % p
    ensures a == b
  {
    ModSmall(a, p);
    ModSmall(b, p);
  }

  /** r is the reduced representative of the integer e. */
  lemma Settle(r: nat, e: int, p: nat)
    requires r < p && r % p == e % p
    ensures r == e % p
  {
    ModSmall(r, p);
  }

  // Each field operation on representatives of A and B represents the same
  // operation on A and B.

  lemma AddMod(a: nat, b: nat, A: int, B: int, p: nat)
    requires p > 0 && a % p == A % p && b % p == B % p
    ensures Add(a, b, p) % p == (A + B) % p
  {
    ModMod(a + b, p);
    AddCongruent(a, A, b, B, p);
  }

  lemma SubMod(a: nat, b: nat, A: int, B: int, p: nat)
    requires p > 0 && a % p == A % p && b % p == B % p
    ensures Sub(a, b, p) % p == (A - B) % p
  {
    ModMod(a - b, p);
    SubCongruent(a, A, b, B, p);
  }

  lemma NegMod(a: nat, A: int, p: nat)
    requires p > 0 && a % p == A % p
    ensures Neg(a, p) % p == (0 - A) % p
  {
    ModMod(0 - a, p);
    SubCongruent(0, 0, a, A, p);
  }

  lemma DoubleMod(a: nat, A: int, p: nat)
    requires p > 0 && a % p == A % p
    ensures Double(a, p) % p == (2 * A) % p
  {
    ModMod(a + a, p);
    AddCongruent(a, A, a, A, p);
  }

  lemma MulMod(a: nat, b: nat, A: int, B: int, p: nat)
    requires p > 0 && a % p == A % p && b % p == B % p
    ensures Mul(a, b, p) % p == (A * B) % p
  {
    ModMod(a * b, p);
    MulCongruent(a, A, b, B, p);
  }

  lemma SquareMod(a: nat, A: int, p: nat)
    requires p > 0 && a % p == A % p
    ensures Square(a, p) % p == (A * A) % p
  {
    ModMod(a * a, p);
    MulCongruent(a, A, a, A, p);
  }

  lemma AddNegCancel(a: nat, p: nat)
    requires p > 0
    ensures Add(a, Neg(a, p), p) == 0
  {
    ModMod(0 - a, p);
    AddMod(a, Neg(a, p), a, 0 - a, p);
    Settle(Add(a, Neg(a, p), p), 0, p);
  }

  lemma AddSubCancel(a: nat, b: nat, p: nat)
    requires a < p
    ensures Sub(Add(a, b, p), b, p) == a
  {
    ModMod(a + b, p);
    SubMod(Add(a, b, p), b, a + b, b, p);
    ModSmall(a, p);
    Settle(Sub(Add(a, b, p), b, p), a, p);
  }

  lemma NegNeg(a: nat, p: nat)
    requires a < p
    ensures Neg(Neg(a, p), p) == a
  {
    ModMod(0 - a, p);
    NegMod(Neg(a, p), 0 - a, p);
    ModSmall(a, p);
    Settle(Neg(Neg(a, p), p), a, p);
  }

  // ---------------------------------------------------------------------
  // The inverse.

  /** The Bezout identity s·a + t·b == g for a result (g, s, t) of ExtGcd(a, b). */
  predicate Bezout(a: int, b: int, r: (nat, int, int)) {
    r.1 * a + r.2 * b == r.0
  }

  lemma {:induction false} ExtGcdBezout(a: nat, b: nat)
    ensures Bezout(a, b, ExtGcd(a, b))
    decreases b
  {
    if b != 0 {
      ExtGcdBezout(b, a % b);
      BezoutStep(a, b, a / b, a % b, ExtGcd(b, a % b));
    }
  }

  lemma BezoutStep(a: int, b: int, q: int, m: int, r: (nat, int, int))
    requires a == q * b + m && Bezout(b, m, r)
    ensures Bezout(a, b, (r.0, r.2, r.1 - q * r.2))
  {
    var s, t := r.1, r.2;
    calc {
      t * a + (s - q * t) * b;
      t * (q * b + m) + s * b - q * t * b;
      t * q * b + t * m + s * b - q * t * b;
    }
  }

  /** The gcd divides both arguments (it is positive as soon as one of them is). */
  lemma {:induction false} ExtGcdDivides(a: nat, b: nat)
    requires a > 0 || b > 0
    ensures var g := ExtGcd(a, b).0; g > 0 && a % g == 0 && b % g == 0
    decreases b
  {
    if b != 0 {
      ExtGcdDivides(b, a % b);
      DividesRemainder(a, b, ExtGcd(b, a % b).0);
    }
  }

  /** A common divisor of b and a % b divides a. */
  lemma DividesRemainder(a: nat, b: nat, g: nat)
    requires b > 0 && g > 0 && b % g == 0 && (a % b) % g == 0
    ensures a % g == 0
  {
    var m, n := b / g, (a % b) / g;
    DividesStep(a, b, a / b, a % b, g, m, n);
    ModAddMultiple(0, (a / b) * m + n, g);
  }

  lemma DividesStep(a: int, b: int, q: int, r: int, g: int, m: int, n: int)
    requires a == q * b + r && b == g * m && r == g * n
    ensures a == 0 + g * (q * m + n)
  {
    calc {
      a;
      q * (g * m) + g * n;
      g * (q * m) + g * n;
    }
  }

  /** A positive multiple of g is at least g. */
  lemma MultipleAtLeast(x: nat, g: nat)
    requires x > 0 && g > 0 && x % g == 0
    ensures g <= x
  {
    assert x == g * (x / g);
    MulMonotone(g, 1, x / g);
  }

  /** The only divisor of a prime below it is 1. */
  lemma PrimeDivisor(p: nat, g: nat)
    requires IsPrime(p) && 0 < g < p && p % g == 0
    ensures g == 1
  {
  }

  /** a times its inverse is 1 modulo a prime p, for a not a multiple of p. */
  lemma InverseCorrect(a: nat, p: nat)
    requires IsPrime(p) && a % p != 0
    ensures Mul(a, Inverse(a, p), p) == 1
  {
    var x := a % p;
    var r := ExtGcd(x, p);
    var g, s, t := r.0, r.1, r.2;
    ExtGcdBezout(x, p);
    assert s * x + t * p == g;
    ExtGcdDivides(x, p);
    MultipleAtLeast(x, g);
    PrimeDivisor(p, g);
    BezoutMod(s, x, t, p);
    ModMod(a, p);
    ModMod(s, p);
    MulCongruent(a, x, s % p, s, p);
  }

  lemma BezoutMod(s: int, x: int, t: int, p: nat)
    requires p > 1 && s * x + t * p == 1
    ensures (s * x) % p == 1
  {
    assert s * x + p * t == 1;
    ModAddMultiple(s * x, t, p);
    ModSmall(1, p);
  }

  /** Inverses are unique: a reduced b with a·b ≡ 1 is the inverse of a. */
  lemma InverseUnique(a: nat, b: nat, p: nat)
    requires IsPrime(p) && b < p && (a * b) % p == 1
    ensures a % p != 0 && b == Inverse(a, p)
  {
    if a % p == 0 {
      MultipleProduct(a, b, p);
      assert false;
    }
    var c := Inverse(a, p);
    InverseCorrect(a, p);
    SameInverse(a, b, c, p);
  }

  lemma MultipleProduct(a: int, b: int, p: nat)
    requires p > 0 && a % p == 0
    ensures (a * b) % p == 0
  {
    ModMod(a, p);
    MulCongruent(a, 0, b, b, p);
  }

  lemma SameInverse(a: int, b: nat, c: nat, p: nat)
    requires p > 1 && b < p && c < p && (a * b) % p == 1 && (a * c) % p == 1
    ensures b == c
  {
    ModMod(b, p);
    ModMod(c, p);
    ModSmall(1, p);
    // b ≡ b·(a·c) ≡ (a·b)·c ≡ c
    MulCongruent(b, b, a * c, 1, p);
    MulCongruent(a * b, 1, c, c, p);
    MulAssoc(b, a, c);
    Reduced(b, c, p);
  }
}
