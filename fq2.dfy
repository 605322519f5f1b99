/**
  The quadratic extension E2 = Fp[u]/(u^2 - beta), the first level of the
  Fp -> E2 -> E6 -> E12 tower generated for the pairing-friendly curves
  bn256, bls381 and bls377. An element is A0 + A1*u with A0, A1 reduced
  base-field elements; u^2 is -1 for bn256 and bls381 and 5 for bls377.

  Every operation is straight-line base-field arithmetic of its inputs: it is
  modelled as a function that returns the value the Go method stores in its
  receiver, following the same sequence of base-field operations.
*/
module Fq2 {
  import Bits
  import Fp

  /** The three curve variants the template is instantiated for. */
  datatype Curve = BN256 | BLS381 | BLS377

  /** A0 + A1*u. */
  datatype E2 = E2(a0: nat, a1: nat)

  /** u^2 in the extension. */
  function Beta(curve: Curve): int {
    if curve == BLS377 then 5 else -1
  }

  /** The non-residue xi the next level of the tower is built on. */
  function NonResidue(curve: Curve): E2 {
    match curve
    case BN256 => E2(9, 1)
    case BLS381 => E2(1, 1)
    case BLS377 => E2(0, 1)
  }

  /** Both coordinates are reduced base-field elements. */
  predicate IsElement(x: E2, p: nat) {
    x.a0 < p && x.a1 < p
  }

  // ---------------------------------------------------------------------
  // Reference definitions.

  /** Schoolbook product (x0 + x1*u)(y0 + y1*u) with u^2 = beta. */
  function Product(curve: Curve, x: E2, y: E2, p: nat): (r: E2)
    requires p > 0
    ensures IsElement(r, p)
  {
    E2((x.a0 * y.a0 + Beta(curve) * (x.a1 * y.a1)) % p, (x.a0 * y.a1 + x.a1 * y.a0) % p)
  }

  /** The norm x0^2 - beta*x1^2 of x, an element of Fp. */
  function Norm(curve: Curve, x: E2, p: nat): (r: nat)
    requires p > 0
    ensures r < p
  {
    (x.a0 * x.a0 - Beta(curve) * (x.a1 * x.a1)) % p
  }

  // ---------------------------------------------------------------------
  // Operations common to every curve.

  function Equal(z: E2, x: E2): (r: bool)
    ensures r <==> z == x
  {
    z.a0 == x.a0 && z.a1 == x.a1
  }

  function SetZero(): (r: E2)
    ensures IsZero(r)
  {
    E2(0, 0)
  }

  function SetOne(): (r: E2)
    ensures !IsZero(r) && forall p: nat :: p > 1 ==> IsElement(r, p)
  {
    E2(1, 0)
  }

  function IsZero(z: E2): (r: bool)
    ensures r <==> z == E2(0, 0)
  {
    z.a0 == 0 && z.a1 == 0
  }

  function Neg(x: E2, p: nat): (r: E2)
    requires p > 0
    ensures IsElement(r, p)
  {
    E2(Fp.Neg(x.a0, p), Fp.Neg(x.a1, p))
  }

  function Add(x: E2, y: E2, p: nat): (r: E2)
    requires p > 0
    ensures IsElement(r, p)
  {
    E2(Fp.Add(x.a0, y.a0, p), Fp.Add(x.a1, y.a1, p))
  }

  /** z += x */
  function AddAssign(z: E2, x: E2, p: nat): (r: E2)
    requires p > 0
    ensures r == Add(z, x, p)
  {
    E2(Fp.Add(z.a0, x.a0, p), Fp.Add(z.a1, x.a1, p))
  }

  function Sub(x: E2, y: E2, p: nat): (r: E2)
    requires p > 0
    ensures IsElement(r, p)
  {
    E2(Fp.Sub(x.a0, y.a0, p), Fp.Sub(x.a1, y.a1, p))
  }

  /** z -= x */
  function SubAssign(z: E2, x: E2, p: nat): (r: E2)
    requires p > 0
    ensures r == Sub(z, x, p)
  {
    E2(Fp.Sub(z.a0, x.a0, p), Fp.Sub(z.a1, x.a1, p))
  }

  function Double(x: E2, p: nat): (r: E2)
    requires p > 0
    ensures r == Add(x, x, p)
  {
    E2(Fp.Double(x.a0, p), Fp.Double(x.a1, p))
  }

  /** z *= x */
  function MulAssign(curve: Curve, z: E2, x: E2, p: nat): (r: E2)
    requires p > 0
    ensures r == Product(curve, z, x, p)
  {
    MulIsProduct(curve, z, x, p);
    Mul(curve, z, x, p)
  }

  /** Multiplication by a base-field element y. */
  function MulByElement(x: E2, y: nat, p: nat): (r: E2)
    requires p > 0
    ensures IsElement(r, p)
  {
    E2(Fp.Mul(x.a0, y, p), Fp.Mul(x.a1, y, p))
  }

  function Conjugate(x: E2, p: nat): (r: E2)
    requires p > 0
    ensures r.a0 == x.a0 && r.a1 < p && Fp.Add(x.a1, r.a1, p) == 0
  {
    Fp.AddNegCancel(x.a1, p);
    E2(x.a0, Fp.Neg(x.a1, p))
  }

  // ---------------------------------------------------------------------
  // Operations specific to each curve.

  /** Karatsuba multiplication: three base-field products. */
  function Mul(curve: Curve, x: E2, y: E2, p: nat): (r: E2)
    requires p > 0
    ensures IsElement(r, p)
  {
    var a := Fp.Mul(Fp.Add(x.a0, x.a1, p), Fp.Add(y.a0, y.a1, p), p);
    var b := Fp.Mul(x.a0, y.a0, p);
    var c := Fp.Mul(x.a1, y.a1, p);
    var a1 := Fp.Sub(Fp.Sub(a, b, p), c, p);
    if curve == BLS377 then
      E2(Fp.Add(Fp.Add(Fp.Double(Fp.Double(c, p), p), c, p), b, p), a1)
    else
      E2(Fp.Sub(b, c, p), a1)
  }

  function Square(curve: Curve, x: E2, p: nat): (r: E2)
    requires p > 0
    ensures IsElement(r, p)
  {
    if curve == BLS377 then
      var c2 := Fp.Add(Fp.Add(Fp.Double(Fp.Double(x.a1, p), p), x.a1, p), x.a0, p);
      var c0 := Fp.Mul(Fp.Add(x.a0, x.a1, p), c2, p);
      var a1 := Fp.Double(Fp.Mul(x.a0, x.a1, p), p);
      E2(Fp.Sub(Fp.Sub(Fp.Sub(c0, a1, p), a1, p), a1, p), a1)
    else
      var a := Fp.Mul(Fp.Add(x.a0, x.a1, p), Fp.Sub(x.a0, x.a1, p), p);
      var b := Fp.Double(Fp.Mul(x.a0, x.a1, p), p);
      E2(a, b)
  }

  /** Multiplication by the non-residue: (9,1), (1,1) or (0,1). */
  function MulByNonResidue(curve: Curve, x: E2, p: nat): (r: E2)
    requires p > 0
    ensures IsElement(x, p) ==> IsElement(r, p)
  {
    match curve
    case BN256 =>
      var a := Fp.Sub(Fp.Add(Fp.Double(Fp.Double(Fp.Double(x.a0, p), p), p), x.a0, p), x.a1, p);
      var b := Fp.Add(Fp.Add(Fp.Double(Fp.Double(Fp.Double(x.a1, p), p), p), x.a1, p), x.a0, p);
      E2(a, b)
    case BLS381 =>
      E2(Fp.Sub(x.a0, x.a1, p), Fp.Add(x.a0, x.a1, p))
    case BLS377 =>
      E2(Fp.Add(Fp.Double(Fp.Double(x.a1, p), p), x.a1, p), x.a0)
  }

  /**
    The constant bn256 multiplies by in MulByNonResidueInv: the inverse of
    (9,1), as the E2 inverse computes it.
  */
  function NonResidueInverse(curve: Curve, p: nat): E2
    requires p > 0
  {
    Inverse(curve, NonResidue(curve), p)
  }

  /** Multiplication by the inverse of the non-residue. */
  function MulByNonResidueInv(curve: Curve, x: E2, p: nat): (r: E2)
    requires p > 0
    ensures IsElement(x, p) ==> IsElement(r, p)
  {
    match curve
    case BN256 =>
      Mul(curve, x, NonResidueInverse(curve, p), p)
    case BLS381 =>
      var twoInv := Fp.Inverse(2, p);
      var tmp := Fp.Add(x.a0, x.a1, p);
      E2(Fp.Mul(tmp, twoInv, p), Fp.Mul(Fp.Sub(x.a1, x.a0, p), twoInv, p))
    case BLS377 =>
      var fiveInv := Fp.Inverse(5, p);
      E2(x.a1, Fp.Mul(x.a0, fiveInv, p))
  }

  /** The norm x0^2 - beta*x1^2 as the inverse computes it. */
  function InverseNorm(curve: Curve, x: E2, p: nat): nat
    requires p > 0
  {
    var t0 := Fp.Square(x.a0, p);
    var t1 := Fp.Square(x.a1, p);
    if curve == BLS377 then
      Fp.Sub(t0, Fp.Add(Fp.Double(Fp.Double(t1, p), p), t1, p), p)
    else
      Fp.Add(t0, t1, p)
  }

  /** The conjugate divided by the norm. */
  function Inverse(curve: Curve, x: E2, p: nat): (r: E2)
    requires p > 0
    ensures IsElement(r, p)
  {
    var t1 := Fp.Inverse(InverseNorm(curve, x, p), p);
    E2(Fp.Mul(x.a0, t1, p), Fp.Neg(Fp.Mul(x.a1, t1, p), p))
  }

  // ---------------------------------------------------------------------
  // Additive structure.

  /** SetZero is the neutral element of Add. */
  lemma AddZero(x: E2, p: nat)
    requires p > 0 && IsElement(x, p)
    ensures Add(x, SetZero(), p) == x
  {
    Bits.ModSmall(x.a0, p);
    Bits.ModSmall(x.a1, p);
  }

  /** Neg gives the additive inverse. */
  lemma AddNeg(x: E2, p: nat)
    requires p > 0
    ensures IsZero(Add(x, Neg(x, p), p))
  {
    Fp.AddNegCancel(x.a0, p);
    Fp.AddNegCancel(x.a1, p);
  }

  /** Sub undoes Add. */
  lemma AddSub(x: E2, y: E2, p: nat)
    requires p > 0 && IsElement(x, p)
    ensures Sub(Add(x, y, p), y, p) == x
  {
    Fp.AddSubCancel(x.a0, y.a0, p);
    Fp.AddSubCancel(x.a1, y.a1, p);
  }

  /** Conjugating twice gives back a reduced element. */
  lemma ConjugateInvolution(x: E2, p: nat)
    requires p > 0 && IsElement(x, p)
    ensures Conjugate(Conjugate(x, p), p) == x
  {
    Fp.NegNeg(x.a1, p);
  }

  // ---------------------------------------------------------------------
  // Products.

  /** Product depends only on the residues of its coordinates. */
  lemma ProductCongruent(curve: Curve, x: E2, y: E2, x0: int, x1: int, y0: int, y1: int, p: nat)
    requires p > 0
    requires x.a0 % p == x0 % p && x.a1 % p == x1 % p && y.a0 % p == y0 % p && y.a1 % p == y1 % p
    ensures Product(curve, x, y, p) == E2((x0 * y0 + Beta(curve) * (x1 * y1)) % p, (x0 * y1 + x1 * y0) % p)
  {
    var beta := Beta(curve);
    Fp.MulCongruent(x.a0, x0, y.a0, y0, p);
    Fp.MulCongruent(x.a1, x1, y.a1, y1, p);
    Fp.MulCongruent(beta, beta, x.a1 * y.a1, x1 * y1, p);
    Fp.AddCongruent(x.a0 * y.a0, x0 * y0, beta * (x.a1 * y.a1), beta * (x1 * y1), p);
    Fp.MulCongruent(x.a0, x0, y.a1, y1, p);
    Fp.MulCongruent(x.a1, x1, y.a0, y0, p);
    Fp.AddCongruent(x.a0 * y.a1, x0 * y1, x.a1 * y.a0, x1 * y0, p);
  }

  lemma KaratsubaIdentity(x0: int, x1: int, y0: int, y1: int)
    ensures (x0 + x1) * (y0 + y1) - x0 * y0 - x1 * y1 == x0 * y1 + x1 * y0
  {
  }

  /** Karatsuba multiplication computes the schoolbook product. */
  lemma MulIsProduct(curve: Curve, x: E2, y: E2, p: nat)
    requires p > 0
    ensures Mul(curve, x, y, p) == Product(curve, x, y, p)
  {
    var x0, x1, y0, y1 := x.a0, x.a1, y.a0, y.a1;
    var s, t := Fp.Add(x0, x1, p), Fp.Add(y0, y1, p);
    Fp.AddMod(x0, x1, x0, x1, p);
    Fp.AddMod(y0, y1, y0, y1, p);
    var a := Fp.Mul(s, t, p);
    Fp.MulMod(s, t, x0 + x1, y0 + y1, p);
    var b, c := Fp.Mul(x0, y0, p), Fp.Mul(x1, y1, p);
    Fp.MulMod(x0, y0, x0, y0, p);
    Fp.MulMod(x1, y1, x1, y1, p);
    var d := Fp.Sub(a, b, p);
    Fp.SubMod(a, b, (x0 + x1) * (y0 + y1), x0 * y0, p);
    Fp.SubMod(d, c, (x0 + x1) * (y0 + y1) - x0 * y0, x1 * y1, p);
    KaratsubaIdentity(x0, x1, y0, y1);
    Fp.Settle(Fp.Sub(d, c, p), x0 * y1 + x1 * y0, p);
    if curve == BLS377 {
      MulA0Five(b, c, x0 * y0, x1 * y1, p);
    } else {
      Fp.SubMod(b, c, x0 * y0, x1 * y1, p);
      Fp.Settle(Fp.Sub(b, c, p), x0 * y0 + Beta(curve) * (x1 * y1), p);
    }
  }

  /** The bls377 real part: 4c + c + b == b + 5c. */
  lemma MulA0Five(b: nat, c: nat, B: int, C: int, p: nat)
    requires p > 0 && b % p == B % p && c % p == C % p
    ensures Fp.Add(Fp.Add(Fp.Double(Fp.Double(c, p), p), c, p), b, p) == (B + 5 * C) % p
  {
    var e := Fp.Double(c, p);
    Fp.DoubleMod(c, C, p);
    var f := Fp.Double(e, p);
    Fp.DoubleMod(e, 2 * C, p);
    var g := Fp.Add(f, c, p);
    Fp.AddMod(f, c, 2 * (2 * C), C, p);
    Fp.AddMod(g, b, 2 * (2 * C) + C, B, p);
    Fp.Settle(Fp.Add(g, b, p), B + 5 * C, p);
  }

  /** MulByElement multiplies by the element y + 0*u. */
  lemma MulByElementIsProduct(curve: Curve, x: E2, y: nat, p: nat)
    requires p > 0
    ensures MulByElement(x, y, p) == Product(curve, x, E2(y, 0), p)
  {
  }

  /** SetOne is the neutral element of the product. */
  lemma ProductOne(curve: Curve, x: E2, p: nat)
    requires p > 0 && IsElement(x, p)
    ensures Product(curve, x, SetOne(), p) == x
  {
    Bits.ModSmall(x.a0, p);
    Bits.ModSmall(x.a1, p);
  }

  /** Squaring computes x*x, in the Karatsuba form of Mul as in the schoolbook form. */
  lemma SquareIsMul(curve: Curve, x: E2, p: nat)
    requires p > 0
    ensures Square(curve, x, p) == Mul(curve, x, x, p)
    ensures Square(curve, x, p) == Product(curve, x, x, p)
  {
    MulIsProduct(curve, x, x, p);
    var x0, x1 := x.a0, x.a1;
    var m := Fp.Mul(x0, x1, p);
    Fp.MulMod(x0, x1, x0, x1, p);
    Fp.DoubleMod(m, x0 * x1, p);
    var a1 := Fp.Double(m, p);
    Fp.Settle(a1, x0 * x1 + x1 * x0, p);
    if curve == BLS377 {
      SquareA0Five(x0, x1, a1, p);
    } else {
      var s, t := Fp.Add(x0, x1, p), Fp.Sub(x0, x1, p);
      Fp.AddMod(x0, x1, x0, x1, p);
      Fp.SubMod(x0, x1, x0, x1, p);
      Fp.MulMod(s, t, x0 + x1, x0 - x1, p);
      assert (x0 + x1) * (x0 - x1) == x0 * x0 + Beta(curve) * (x1 * x1);
      Fp.Settle(Fp.Mul(s, t, p), x0 * x0 + Beta(curve) * (x1 * x1), p);
    }
  }

  lemma SquareIdentityFive(x0: int, x1: int)
    ensures (x0 + x1) * (2 * (2 * x1) + x1 + x0) - 2 * (x0 * x1) - 2 * (x0 * x1) - 2 * (x0 * x1)
         == x0 * x0 + 5 * (x1 * x1)
  {
  }

  /** The bls377 real part of Square: (x0 + x1)(x0 + 5x1) - 3*(2 x0 x1). */
  lemma SquareA0Five(x0: nat, x1: nat, a1: nat, p: nat)
    requires p > 0 && a1 % p == (2 * (x0 * x1)) % p
    ensures var c2 := Fp.Add(Fp.Add(Fp.Double(Fp.Double(x1, p), p), x1, p), x0, p);
            var c0 := Fp.Mul(Fp.Add(x0, x1, p), c2, p);
            Fp.Sub(Fp.Sub(Fp.Sub(c0, a1, p), a1, p), a1, p) == (x0 * x0 + 5 * (x1 * x1)) % p
  {
    var e := Fp.Double(x1, p);
    Fp.DoubleMod(x1, x1, p);
    var f := Fp.Double(e, p);
    Fp.DoubleMod(e, 2 * x1, p);
    var g := Fp.Add(f, x1, p);
    Fp.AddMod(f, x1, 2 * (2 * x1), x1, p);
    var c2 := Fp.Add(g, x0, p);
    Fp.AddMod(g, x0, 2 * (2 * x1) + x1, x0, p);
    var s := Fp.Add(x0, x1, p);
    Fp.AddMod(x0, x1, x0, x1, p);
    var c0 := Fp.Mul(s, c2, p);
    var C0 := (x0 + x1) * (2 * (2 * x1) + x1 + x0);
    Fp.MulMod(s, c2, x0 + x1, 2 * (2 * x1) + x1 + x0, p);
    var A1 := 2 * (x0 * x1);
    var u := Fp.Sub(c0, a1, p);
    Fp.SubMod(c0, a1, C0, A1, p);
    var v := Fp.Sub(u, a1, p);
    Fp.SubMod(u, a1, C0 - A1, A1, p);
    Fp.SubMod(v, a1, C0 - A1 - A1, A1, p);
    SquareIdentityFive(x0, x1);
    Fp.Settle(Fp.Sub(v, a1, p), x0 * x0 + 5 * (x1 * x1), p);
  }

  /** 4a + a == 5a, as the bls377 formulas compute it. */
  lemma FiveTimes(a: nat, A: int, p: nat)
    requires p > 0 && a % p == A % p
    ensures Fp.Add(Fp.Double(Fp.Double(a, p), p), a, p) % p == (5 * A) % p
  {
    Fp.DoubleMod(a, A, p);
    Fp.DoubleMod(Fp.Double(a, p), 2 * A, p);
    Fp.AddMod(Fp.Double(Fp.Double(a, p), p), a, 2 * (2 * A), A, p);
  }

  /** 8a + a == 9a, as the bn256 formulas compute it. */
  lemma NineTimes(a: nat, A: int, p: nat)
    requires p > 0 && a % p == A % p
    ensures Fp.Add(Fp.Double(Fp.Double(Fp.Double(a, p), p), p), a, p) % p == (9 * A) % p
  {
    var d1 := Fp.Double(a, p);
    Fp.DoubleMod(a, A, p);
    var d2 := Fp.Double(d1, p);
    Fp.DoubleMod(d1, 2 * A, p);
    Fp.DoubleMod(d2, 2 * (2 * A), p);
    Fp.AddMod(Fp.Double(d2, p), a, 2 * (2 * (2 * A)), A, p);
  }

  /** Multiplying by the non-residue is the product with xi. */
  lemma MulByNonResidueIsProduct(curve: Curve, x: E2, p: nat)
    requires p > 0 && IsElement(x, p)
    ensures MulByNonResidue(curve, x, p) == Product(curve, x, NonResidue(curve), p)
  {
    var x0, x1 := x.a0, x.a1;
    match curve
    case BN256 =>
      var n0 := Fp.Add(Fp.Double(Fp.Double(Fp.Double(x0, p), p), p), x0, p);
      var n1 := Fp.Add(Fp.Double(Fp.Double(Fp.Double(x1, p), p), p), x1, p);
      NineTimes(x0, x0, p);
      NineTimes(x1, x1, p);
      Fp.SubMod(n0, x1, 9 * x0, x1, p);
      Fp.AddMod(n1, x0, 9 * x1, x0, p);
      Fp.Settle(Fp.Sub(n0, x1, p), x0 * 9 + Beta(curve) * (x1 * 1), p);
      Fp.Settle(Fp.Add(n1, x0, p), x0 * 1 + x1 * 9, p);
    case BLS381 =>
      assert x0 * 1 + Beta(curve) * (x1 * 1) == x0 - x1;
      assert x0 * 1 + x1 * 1 == x0 + x1;
    case BLS377 =>
      FiveTimes(x1, x1, p);
      Fp.Settle(Fp.Add(Fp.Double(Fp.Double(x1, p), p), x1, p), x0 * 0 + Beta(curve) * (x1 * 1), p);
      Bits.ModSmall(x0, p);
      assert x0 * 1 + x1 * 0 == x0;
  }

  /** The norm the inverse computes is x0^2 - beta*x1^2. */
  lemma InverseNormIsNorm(curve: Curve, x: E2, p: nat)
    requires p > 0
    ensures InverseNorm(curve, x, p) == Norm(curve, x, p)
  {
    var x0, x1 := x.a0, x.a1;
    var t0, t1 := Fp.Square(x0, p), Fp.Square(x1, p);
    Fp.SquareMod(x0, x0, p);
    Fp.SquareMod(x1, x1, p);
    if curve == BLS377 {
      FiveTimes(t1, x1 * x1, p);
      Fp.SubMod(t0, Fp.Add(Fp.Double(Fp.Double(t1, p), p), t1, p), x0 * x0, 5 * (x1 * x1), p);
      Fp.Settle(InverseNorm(curve, x, p), x0 * x0 - Beta(curve) * (x1 * x1), p);
    } else {
      Fp.AddMod(t0, t1, x0 * x0, x1 * x1, p);
      Fp.Settle(InverseNorm(curve, x, p), x0 * x0 - Beta(curve) * (x1 * x1), p);
    }
  }

  lemma InverseIdentity(x0: int, x1: int, t: int, beta: int)
    ensures x0 * (x0 * t) + beta * (x1 * -(x1 * t)) == (x0 * x0 - beta * (x1 * x1)) * t
    ensures x0 * -(x1 * t) + x1 * (x0 * t) == 0
  {
  }

  /** x times its inverse is one whenever the norm of x is not zero. */
  lemma InverseIsInverse(curve: Curve, x: E2, p: nat)
    requires Fp.IsPrime(p) && Norm(curve, x, p) != 0
    ensures Product(curve, x, Inverse(curve, x, p), p) == SetOne()
    ensures Mul(curve, x, Inverse(curve, x, p), p) == SetOne()
  {
    var n := InverseNorm(curve, x, p);
    InverseNormIsNorm(curve, x, p);
    Bits.ModSmall(n, p);
    var t := Fp.Inverse(n, p);
    Fp.InverseCorrect(n, p);
    ConjugateOverNorm(curve, x, n, t, p);
    MulIsProduct(curve, x, Inverse(curve, x, p), p);
  }

  /** The conjugate scaled by t, an inverse of the norm, is an inverse of x. */
  lemma ConjugateOverNorm(curve: Curve, x: E2, n: nat, t: nat, p: nat)
    requires p > 1 && n == Norm(curve, x, p) && (n * t) % p == 1
    ensures Product(curve, x, E2(Fp.Mul(x.a0, t, p), Fp.Neg(Fp.Mul(x.a1, t, p), p)), p) == SetOne()
  {
    var x0, x1 := x.a0, x.a1;
    var z := E2(Fp.Mul(x0, t, p), Fp.Neg(Fp.Mul(x1, t, p), p));
    ScaledConjugate(x0, x1, t, p);
    ProductCongruent(curve, x, z, x0, x1, x0 * t, -((x1 * t) as int), p);
    NormTimesInverse(x0, x1, t, Beta(curve), n, p);
  }

  lemma ScaledConjugate(x0: nat, x1: nat, t: nat, p: nat)
    requires p > 0
    ensures Fp.Mul(x0, t, p) % p == (x0 * t) % p
    ensures Fp.Neg(Fp.Mul(x1, t, p), p) % p == (-((x1 * t) as int)) % p
  {
    Fp.MulMod(x0, t, x0, t, p);
    Fp.MulMod(x1, t, x1, t, p);
    Fp.NegMod(Fp.Mul(x1, t, p), x1 * t, p);
  }

  lemma NormTimesInverse(x0: int, x1: int, t: int, beta: int, n: nat, p: nat)
    requires p > 1 && n == (x0 * x0 - beta * (x1 * x1)) % p && (n * t) % p == 1
    ensures (x0 * (x0 * t) + beta * (x1 * -(x1 * t))) % p == 1
    ensures (x0 * -(x1 * t) + x1 * (x0 * t)) % p == 0
  {
    InverseIdentity(x0, x1, t, beta);
    var N := x0 * x0 - beta * (x1 * x1);
    Fp.ModMod(N, p);
    Fp.MulCongruent(N, n, t, t, p);
  }

  lemma RightDistrib(a: int, c: int, d: int, e: int, b: int, f: int)
    ensures (a * c + b * (d * e)) * f == a * (c * f) + b * (d * (e * f))
  {
    calc {
      (a * c + b * (d * e)) * f;
      (a * c) * f + (b * (d * e)) * f;
      a * (c * f) + b * ((d * e) * f);
    }
  }

  lemma LeftDistrib(a: int, c: int, b: int, d: int, e: int)
    ensures a * (c + b * (d * e)) == a * c + b * (a * (d * e))
  {
    calc {
      a * (c + b * (d * e));
      a * c + a * (b * (d * e));
    }
  }

  lemma RightDistrib2(a: int, c: int, d: int, e: int, f: int)
    ensures (a * c + d * e) * f == a * (c * f) + d * (e * f)
  {
    calc {
      (a * c + d * e) * f;
      (a * c) * f + (d * e) * f;
    }
  }

  lemma Distrib(a: int, u: int, v: int)
    ensures a * (u + v) == a * u + a * v
  {
  }

  /** The real parts of (xy)z and x(yz) agree as polynomials. */
  lemma AssocIdentityReal(x0: int, x1: int, y0: int, y1: int, z0: int, z1: int, b: int)
    ensures (x0 * y0 + b * (x1 * y1)) * z0 + b * ((x0 * y1 + x1 * y0) * z1)
         == x0 * (y0 * z0 + b * (y1 * z1)) + b * (x1 * (y0 * z1 + y1 * z0))
  {
    RightDistrib(x0, y0, x1, y1, b, z0);
    RightDistrib2(x0, y1, x1, y0, z1);
    Distrib(b, x0 * (y1 * z1), x1 * (y0 * z1));
    LeftDistrib(x0, y0 * z0, b, y1, z1);
    Distrib(x1, y0 * z1, y1 * z0);
    Distrib(b, x1 * (y0 * z1), x1 * (y1 * z0));
  }

  /** The imaginary parts of (xy)z and x(yz) agree as polynomials. */
  lemma AssocIdentityImaginary(x0: int, x1: int, y0: int, y1: int, z0: int, z1: int, b: int)
    ensures (x0 * y0 + b * (x1 * y1)) * z1 + (x0 * y1 + x1 * y0) * z0
         == x0 * (y0 * z1 + y1 * z0) + x1 * (y0 * z0 + b * (y1 * z1))
  {
    RightDistrib(x0, y0, x1, y1, b, z1);
    RightDistrib2(x0, y1, x1, y0, z0);
    Distrib(x0, y0 * z1, y1 * z0);
    LeftDistrib(x1, y0 * z0, b, y1, z1);
  }

  /** The product is associative. */
  lemma ProductAssociates(curve: Curve, x: E2, y: E2, z: E2, p: nat)
    requires p > 0
    ensures Product(curve, Product(curve, x, y, p), z, p) == Product(curve, x, Product(curve, y, z, p), p)
  {
    var b := Beta(curve);
    var x0, x1, y0, y1, z0, z1 := x.a0, x.a1, y.a0, y.a1, z.a0, z.a1;
    var X0, X1 := x0 * y0 + b * (x1 * y1), x0 * y1 + x1 * y0;
    var Z0, Z1 := y0 * z0 + b * (y1 * z1), y0 * z1 + y1 * z0;
    Fp.ModMod(X0, p);
    Fp.ModMod(X1, p);
    Fp.ModMod(Z0, p);
    Fp.ModMod(Z1, p);
    ProductCongruent(curve, Product(curve, x, y, p), z, X0, X1, z0, z1, p);
    ProductCongruent(curve, x, Product(curve, y, z, p), x0, x1, Z0, Z1, p);
    AssocIdentityReal(x0, x1, y0, y1, z0, z1, b);
    AssocIdentityImaginary(x0, x1, y0, y1, z0, z1, b);
  }

  /** The non-residue has a nonzero norm, so it is invertible. */
  lemma NonResidueNorm(curve: Curve, p: nat)
    requires Fp.IsModulus(p)
    ensures Norm(curve, NonResidue(curve), p) != 0
  {
    match curve
    case BN256 =>
      Bits.ModSmall(82, p);
    case BLS381 =>
      Bits.ModSmall(2, p);
    case BLS377 =>
      Bits.ModAddMultiple(-5, 1, p);
      Bits.ModSmall(p - 5, p);
  }

  /** The bls381 inverse of (1,1) is (1/2, -1/2). */
  lemma NonResidueInverse381(p: nat)
    requires Fp.IsModulus(p)
    ensures NonResidueInverse(BLS381, p) == E2(Fp.Inverse(2, p), Fp.Neg(Fp.Inverse(2, p), p))
  {
    Bits.ModSmall(1, p);
    Bits.ModSmall(2, p);
    assert InverseNorm(BLS381, E2(1, 1), p) == 2;
    var t := Fp.Inverse(2, p);
    Bits.ModSmall(t, p);
    assert Fp.Mul(1, t, p) == t;
  }

  /** The bls377 inverse of (0,1) is (0, 1/5). */
  lemma NonResidueInverse377(p: nat)
    requires Fp.IsModulus(p)
    ensures NonResidueInverse(BLS377, p) == E2(0, Fp.Inverse(5, p))
  {
    var m := InverseNorm(BLS377, E2(0, 1), p);
    InverseNormIsNorm(BLS377, E2(0, 1), p);
    assert m == (-5) % p;
    Bits.ModAddMultiple(-5, 1, p);
    Bits.ModSmall(p - 5, p);
    var t := Fp.Inverse(m, p);
    Fp.InverseCorrect(m, p);
    Bits.ModSmall(t, p);
    assert Fp.Mul(1, t, p) == t;
    Bits.ModSmall(0, p);
    assert Fp.Mul(0, t, p) == 0;
    FiveInverse(m, t, p);
  }

  /** The negation of an inverse of -5 is the inverse of 5. */
  lemma FiveInverse(m: nat, t: nat, p: nat)
    requires Fp.IsModulus(p) && m == (-5) % p && (m * t) % p == 1
    ensures Fp.Neg(t, p) == Fp.Inverse(5, p)
  {
    var n := Fp.Neg(t, p);
    var minusT: int := -(t as int);
    // 5 * n == 5 * (-t) == (-5) * t == m * t == 1 (mod p)
    Fp.ModMod(minusT, p);
    Fp.MulCongruent(5, 5, n, minusT, p);
    Fp.ModMod(-5, p);
    Fp.MulCongruent(-5, m, t, t, p);
    assert 5 * minusT == -5 * t;
    Fp.InverseUnique(5, n, p);
  }

  /** MulByNonResidueInv is the product with the inverse of xi. */
  lemma MulByNonResidueInvIsProduct(curve: Curve, x: E2, p: nat)
    requires Fp.IsModulus(p) && IsElement(x, p)
    ensures MulByNonResidueInv(curve, x, p) == Product(curve, x, NonResidueInverse(curve, p), p)
  {
    match curve
    case BN256 =>
      MulIsProduct(curve, x, NonResidueInverse(curve, p), p);
    case BLS381 =>
      NonResidueInverse381(p);
      HalfProduct(x, Fp.Inverse(2, p), p);
    case BLS377 =>
      NonResidueInverse377(p);
      FifthProduct(x, Fp.Inverse(5, p), p);
  }

  lemma HalfIdentity(x0: int, x1: int, t: int)
    ensures x0 * t + -1 * (x1 * -t) == (x0 + x1) * t
    ensures x0 * -t + x1 * t == (x1 - x0) * t
  {
  }

  /** The bls381 formula is the product with (t, -t). */
  lemma HalfProduct(x: E2, t: nat, p: nat)
    requires p > 0 && IsElement(x, p)
    ensures var tmp := Fp.Add(x.a0, x.a1, p);
            E2(Fp.Mul(tmp, t, p), Fp.Mul(Fp.Sub(x.a1, x.a0, p), t, p))
            == Product(BLS381, x, E2(t, Fp.Neg(t, p)), p)
  {
    var x0, x1 := x.a0, x.a1;
    var minusT: int := -(t as int);
    Fp.ModMod(minusT, p);
    ProductCongruent(BLS381, x, E2(t, Fp.Neg(t, p)), x0, x1, t, minusT, p);
    Fp.AddMod(x0, x1, x0, x1, p);
    Fp.MulMod(Fp.Add(x0, x1, p), t, x0 + x1, t, p);
    Fp.SubMod(x1, x0, x1, x0, p);
    Fp.MulMod(Fp.Sub(x1, x0, p), t, x1 - x0, t, p);
    HalfIdentity(x0, x1, t);
    Fp.Settle(Fp.Mul(Fp.Add(x0, x1, p), t, p), (x0 + x1) * t, p);
    Fp.Settle(Fp.Mul(Fp.Sub(x1, x0, p), t, p), (x1 - x0) * t, p);
  }

  /** The bls377 formula is the product with (0, 1/5). */
  lemma FifthProduct(x: E2, n: nat, p: nat)
    requires Fp.IsModulus(p) && IsElement(x, p) && n == Fp.Inverse(5, p)
    ensures E2(x.a1, Fp.Mul(x.a0, n, p)) == Product(BLS377, x, E2(0, n), p)
  {
    var x0, x1 := x.a0, x.a1;
    Bits.ModSmall(5, p);
    Fp.InverseCorrect(5, p);
    // 5 * (x1 * n) == x1 * (5 * n) == x1 (mod p)
    Fp.ModMod(5 * n, p);
    Fp.MulCongruent(x1, x1, 5 * n, 1, p);
    Bits.MulAssoc(x1, 5, n);
    assert x0 * 0 + 5 * (x1 * n) == x1 * (5 * n);
    Bits.ModSmall(x1, p);
  }

  /** MulByNonResidueInv undoes MulByNonResidue. */
  lemma NonResidueRoundTrip(curve: Curve, x: E2, p: nat)
    requires Fp.IsModulus(p) && IsElement(x, p)
    ensures MulByNonResidueInv(curve, MulByNonResidue(curve, x, p), p) == x
  {
    var xi, inv := NonResidue(curve), NonResidueInverse(curve, p);
    MulByNonResidueIsProduct(curve, x, p);
    MulByNonResidueInvIsProduct(curve, MulByNonResidue(curve, x, p), p);
    ProductAssociates(curve, x, xi, inv, p);
    NonResidueNorm(curve, p);
    InverseIsInverse(curve, xi, p);
    ProductOne(curve, x, p);
  }
}
