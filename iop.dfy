/**
  The polynomial wrapper of the interactive-oracle-proof package over the
  scalar field of BW6-761: the basis and layout bookkeeping, resizing,
  cloning, shifted coefficient access, evaluation, blinding, and the header
  written after the coefficients when a polynomial is serialised.

  Field elements are naturals modulo a modulus m, given as a parameter. The
  FFT and the bit-reversal permutation of the coefficient vector live in
  another package: they are a `Transformer` parameter, applied to a
  description of each call, and only the basis, layout and length effects of
  the calls are specified here.
*/
module Iop {
  import opened Bits
  import opened BitRev
  import opened Poly
  import opened Wrappers
  import Fp

  type U32 = x: int | 0 <= x < 0x1_0000_0000
  type Byte = x: int | 0 <= x < 0x100

  // ---------------------------------------------------------------------
  // Forms.

  const Canonical: U32 := 1
  const Lagrange: U32 := 2
  const LagrangeCoset: U32 := 4

  const Regular: U32 := 8
  const BitReverse: U32 := 16

  /** A basis and a layout; any 32-bit codes can be read back from a header. */
  datatype Form = Form(basis: U32, layout: U32)

  const CanonicalRegular := Form(Canonical, Regular)
  const CanonicalBitReverse := Form(Canonical, BitReverse)
  const LagrangeRegular := Form(Lagrange, Regular)
  const LagrangeBitReverse := Form(Lagrange, BitReverse)
  const LagrangeCosetRegular := Form(LagrangeCoset, Regular)
  const LagrangeCosetBitReverse := Form(LagrangeCoset, BitReverse)

  predicate IsLayout(layout: U32) {
    layout == Regular || layout == BitReverse
  }

  /** One of the six forms the conversions know. */
  predicate IsKnownForm(f: Form) {
    (f.basis == Canonical || f.basis == Lagrange || f.basis == LagrangeCoset) && IsLayout(f.layout)
  }

  function Flip(layout: U32): U32 {
    if layout == Regular then BitReverse else Regular
  }

  // ---------------------------------------------------------------------
  // Calls into the FFT package.

  datatype Decimation = DIF | DIT

  /** A call the conversions delegate: a (coset) FFT, an inverse FFT, or the bit-reversal permutation. */
  datatype Transform =
    | FFT(decimation: Decimation, onCoset: bool)
    | FFTInverse(decimation: Decimation, onCoset: bool)
    | BitReversal

  /** What the FFT package does to a coefficient vector for each call. */
  type Transformer = (Transform, seq<nat>) -> seq<nat>

  /** The calls, first to last, applied to c. */
  function Apply(transform: Transformer, calls: seq<Transform>, c: seq<nat>): seq<nat>
    decreases |calls|
  {
    if |calls| == 0 then c else Apply(transform, calls[1..], transform(calls[0], c))
  }

  /** The layout a decimation reads: DIF the regular order, DIT the bit-reversed one. */
  function Reads(d: Decimation): U32 {
    if d == DIF then Regular else BitReverse
  }

  /**
    Whether call t reads a vector in form f: a forward FFT reads the
    canonical basis, an inverse FFT the (coset) Lagrange basis, each in the
    layout its decimation reads.
  */
  predicate Accepts(t: Transform, f: Form) {
    match t
    case FFT(d, _) => f.basis == Canonical && f.layout == Reads(d)
    case FFTInverse(d, coset) => f.basis == (if coset then LagrangeCoset else Lagrange) && f.layout == Reads(d)
    case BitReversal => IsLayout(f.layout)
  }

  /** The form the call leaves: every call flips the layout. */
  function Produces(t: Transform, f: Form): Form {
    match t
    case FFT(_, coset) => Form(if coset then LagrangeCoset else Lagrange, Flip(f.layout))
    case FFTInverse(_, _) => Form(Canonical, Flip(f.layout))
    case BitReversal => Form(f.basis, Flip(f.layout))
  }

  /** The calls take a vector in form `from` to form `to`, each reading what the previous one left. */
  predicate Chains(from: Form, calls: seq<Transform>, to: Form)
    decreases |calls|
  {
    if |calls| == 0 then from == to
    else Accepts(calls[0], from) && Chains(Produces(calls[0], from), calls[1..], to)
  }

  /** The new form of a conversion and the calls it makes. */
  datatype Conversion = Conversion(form: Form, calls: seq<Transform>)

  // ---------------------------------------------------------------------
  // The conversion tables.

  function RegularConversion(f: Form): (r: Conversion)
    ensures r.form == Form(f.basis, Regular)
    ensures IsLayout(f.layout) ==> Chains(f, r.calls, r.form)
  {
    if f.layout == Regular then Conversion(f, []) else Conversion(Form(f.basis, Regular), [BitReversal])
  }

  function BitReverseConversion(f: Form): (r: Conversion)
    ensures r.form == Form(f.basis, BitReverse)
    ensures IsLayout(f.layout) ==> Chains(f, r.calls, r.form)
  {
    if f.layout == BitReverse then Conversion(f, []) else Conversion(Form(f.basis, BitReverse), [BitReversal])
  }

  function LagrangeConversion(f: Form): (r: Result<Conversion>)
    ensures r.Success? <==> IsKnownForm(f)
    ensures r.Success? ==> r.value.form.basis == Lagrange && Chains(f, r.value.calls, r.value.form)
    ensures r.Failure? ==> r.error == "unknown ID"
  {
    if f == CanonicalRegular then Success(Conversion(LagrangeBitReverse, [FFT(DIF, false)]))
    else if f == CanonicalBitReverse then Success(Conversion(LagrangeRegular, [FFT(DIT, false)]))
    else if f == LagrangeRegular || f == LagrangeBitReverse then Success(Conversion(f, []))
    else if f == LagrangeCosetRegular then
      Success(Conversion(LagrangeRegular, [FFTInverse(DIF, true), FFT(DIT, false)]))
    else if f == LagrangeCosetBitReverse then
      Success(Conversion(LagrangeBitReverse, [FFTInverse(DIT, true), FFT(DIF, false)]))
    else Failure("unknown ID")
  }

  function CanonicalConversion(f: Form): (r: Result<Conversion>)
    ensures r.Success? <==> IsKnownForm(f)
    ensures r.Success? ==> r.value.form.basis == Canonical && Chains(f, r.value.calls, r.value.form)
    ensures r.Failure? ==> r.error == "unknown ID"
  {
    if f == CanonicalRegular || f == CanonicalBitReverse then Success(Conversion(f, []))
    else if f == LagrangeRegular then Success(Conversion(CanonicalBitReverse, [FFTInverse(DIF, false)]))
    else if f == LagrangeBitReverse then Success(Conversion(CanonicalRegular, [FFTInverse(DIT, false)]))
    else if f == LagrangeCosetRegular then Success(Conversion(CanonicalBitReverse, [FFTInverse(DIF, true)]))
    else if f == LagrangeCosetBitReverse then Success(Conversion(CanonicalRegular, [FFTInverse(DIT, true)]))
    else Failure("unknown ID")
  }

  function LagrangeCosetConversion(f: Form): (r: Result<Conversion>)
    ensures r.Success? <==> IsKnownForm(f)
    ensures r.Success? ==> r.value.form.basis == LagrangeCoset && Chains(f, r.value.calls, r.value.form)
    ensures r.Failure? ==> r.error == "unknown ID"
  {
    if f == CanonicalRegular then Success(Conversion(LagrangeCosetBitReverse, [FFT(DIF, true)]))
    else if f == CanonicalBitReverse then Success(Conversion(LagrangeCosetRegular, [FFT(DIT, true)]))
    else if f == LagrangeRegular then
      Success(Conversion(LagrangeCosetRegular, [FFTInverse(DIF, false), FFT(DIT, true)]))
    else if f == LagrangeBitReverse then
      Success(Conversion(LagrangeCosetBitReverse, [FFTInverse(DIT, false), FFT(DIF, true)]))
    else if f == LagrangeCosetRegular || f == LagrangeCosetBitReverse then Success(Conversion(f, []))
    else Failure("unknown ID")
  }

  // ---------------------------------------------------------------------
  // Properties of the tables.

  /** Every call flips the layout: an odd number of calls flips it, an even number keeps it. */
  lemma {:induction false} ChainLayout(from: Form, calls: seq<Transform>, to: Form)
    requires Chains(from, calls, to)
    ensures IsLayout(from.layout) ==> IsLayout(to.layout)
    ensures to.layout == if |calls| % 2 == 1 then Flip(from.layout) else from.layout
    decreases |calls|
  {
    if |calls| > 0 {
      var next := Produces(calls[0], from);
      ChainLayout(next, calls[1..], to);
      assert Accepts(calls[0], from);
    }
  }

  /** A form already in the target basis is kept, with no call made. */
  lemma AlreadyInTarget(f: Form)
    requires IsKnownForm(f)
    ensures f.basis == Lagrange ==> LagrangeConversion(f) == Success(Conversion(f, []))
    ensures f.basis == Canonical ==> CanonicalConversion(f) == Success(Conversion(f, []))
    ensures f.basis == LagrangeCoset ==> LagrangeCosetConversion(f) == Success(Conversion(f, []))
  {
  }

  /** Converting a canonical form to (coset) Lagrange form and back restores it. */
  lemma CanonicalRoundTrip(f: Form)
    requires IsKnownForm(f) && f.basis == Canonical
    ensures CanonicalConversion(LagrangeConversion(f).value.form).value.form == f
    ensures CanonicalConversion(LagrangeCosetConversion(f).value.form).value.form == f
  {
  }

  /** Changing the layout keeps the basis, and doing it twice is the same as once. */
  lemma LayoutConversionsIdempotent(f: Form)
    ensures RegularConversion(RegularConversion(f).form) == Conversion(RegularConversion(f).form, [])
    ensures BitReverseConversion(BitReverseConversion(f).form) == Conversion(BitReverseConversion(f).form, [])
    ensures RegularConversion(f).form.basis == f.basis && BitReverseConversion(f).form.basis == f.basis
  {
  }

  // ---------------------------------------------------------------------
  // Coefficient vectors.

  /** The vector after growing to newSize: never shorter, prefix kept, padded with zeros. */
  function Grown(c: seq<nat>, newSize: int): (r: seq<nat>)
    ensures |r| == if newSize > |c| then newSize else |c|
    ensures r[..|c|] == c
    ensures forall k :: |c| <= k < |r| ==> r[k] == 0
  {
    if newSize > |c| then c + seq(newSize - |c|, _ => 0) else c
  }

  /**
    The order in which the coefficients are read as c_0, c_1, …: the stored
    order for the regular layout; otherwise entry i is stored at the t-bit
    reversal of i, with 2^t the largest power of two dividing the length
    (t = k when the length is 2^k).
  */
  function ReadingOrder(c: seq<nat>, layout: U32): (r: seq<nat>)
    ensures |r| == |c|
  {
    if layout == Regular then c
    else
      seq(|c|, i requires 0 <= i < |c| =>
        ReverseBitsBound(i, TrailingZeros(|c|));
        Pow2TrailingZeros(|c|);
        c[ReverseBits(i, TrailingZeros(|c|))])
  }

  /** Coefficient k of a polynomial with coefficients q, zero outside them. */
  function At(q: seq<nat>, k: int): nat {
    if 0 <= k < |q| then q[k] else 0
  }

  /** Whether blinding with |q| values at distance d changes coefficient k. */
  predicate Touched(k: int, n: nat, d: nat) {
    (0 <= k < n) || (d <= k < d + n)
  }

  /** Coefficient k after blinding: c_k - Q_k + Q_{k-d} modulo m where Q touches it, c_k elsewhere. */
  function BlindedCoeff(c: seq<nat>, q: seq<nat>, d: nat, m: nat, k: nat): nat
    requires m > 0 && k < |c|
  {
    if Touched(k, |q|, d) then ((c[k] - At(q, k) + At(q, k - d)) % m) as nat else c[k]
  }

  /**
    The coefficients after blinding c with Q = q at distance d, so that the
    polynomial becomes P + Q·(X^d - 1) (lemma BlindAddsMultiple).
  */
  function Blinded(c: seq<nat>, q: seq<nat>, d: nat, m: nat): (r: seq<nat>)
    requires m > 0 && d + |q| <= |c|
    ensures |r| == |c|
  {
    seq(|c|, k requires 0 <= k < |c| => BlindedCoeff(c, q, d, m, k))
  }

  /** Go's remainder: truncated toward zero, with the sign of a. */
  function TruncRem(a: int, n: nat): int
    requires n > 0
  {
    if a >= 0 then a % n else -((-a) % n)
  }

  /** 2^63: Go's int holds the values in [-2^63, 2^63). */
  const HalfWord: int := 0x8000_0000_0000_0000

  /** Go's 64-bit int arithmetic: the exact value wrapped into [-2^63, 2^63). */
  function GoInt(v: int): (r: int)
    ensures -HalfWord <= r < HalfWord && (r - v) % Word == 0
    ensures -HalfWord <= v < HalfWord ==> r == v
  {
    (v + HalfWord) % Word - HalfWord
  }

  /** Go's `i + rho*shift` in int arithmetic: the exact sum whenever no step leaves the int range. */
  function ShiftedIndex(i: int, rho: nat, shift: int): (a: int)
    ensures -HalfWord <= a < HalfWord
    ensures -HalfWord <= rho * shift < HalfWord && -HalfWord <= i + rho * shift < HalfWord ==>
              a == i + rho * shift
  {
    GoInt(i + GoInt(rho * shift))
  }

  /**
    An index that wraps: with n = dimension = 8 and shift = 2, the read of
    i = 2^63 - 1 wraps to -2^63 + 1, whose Go remainder by 8 is negative.
  */
  lemma WrappedIndexNegative()
    ensures ShiftedIndex(HalfWord - 1, 8 / 8, 2) == -HalfWord + 1
    ensures TruncRem(ShiftedIndex(HalfWord - 1, 8 / 8, 2), 8) == -7
  {
  }

  // ---------------------------------------------------------------------
  // The header.

  /** Go's uint32 conversion: two's-complement truncation to 32 bits. */
  function Uint32(v: int): U32 {
    v % 0x1_0000_0000
  }

  function BigEndian(v: U32): (b: seq<Byte>)
    ensures |b| == 4
  {
    [v / 0x100_0000, (v / 0x1_0000) % 0x100, (v / 0x100) % 0x100, v % 0x100]
  }

  function FromBigEndian(b: seq<Byte>): U32
    requires |b| == 4
  {
    (b[0] as int) * 0x100_0000 + (b[1] as int) * 0x1_0000 + (b[2] as int) * 0x100 + b[3] as int
  }

  /** Each word as four big-endian bytes, in order. */
  function Encode(words: seq<U32>): (b: seq<Byte>)
    ensures |b| == 4 * |words|
  {
    if |words| == 0 then [] else BigEndian(words[0]) + Encode(words[1..])
  }

  /** Each group of four bytes as a big-endian word. */
  function Decode(b: seq<Byte>): (w: seq<U32>)
    requires |b| % 4 == 0
    ensures |w| == |b| / 4
  {
    if |b| == 0 then [] else [FromBigEndian(b[..4])] + Decode(b[4..])
  }

  lemma FromToBigEndian(v: U32)
    ensures FromBigEndian(BigEndian(v)) == v
  {
    var v1, b3 := Euclid(v, 0x100);
    var v2, b2 := Euclid(v1, 0x100);
    var b0, b1 := Euclid(v2, 0x100);
    DivDiv(v, 0x100, 0x100);
    DivDiv(v, 0x1_0000, 0x100);
    ByteDigits(v, v1, v2, b0, b1, b2, b3);
  }

  lemma ByteDigits(v: int, v1: int, v2: int, b0: int, b1: int, b2: int, b3: int)
    requires v == 0x100 * v1 + b3 && v1 == 0x100 * v2 + b2 && v2 == 0x100 * b0 + b1
    ensures v == b0 * 0x100_0000 + b1 * 0x1_0000 + b2 * 0x100 + b3
  {
  }

  /** Decoding undoes encoding. */
  lemma {:induction false} DecodeEncode(words: seq<U32>)
    ensures Decode(Encode(words)) == words
  {
    if |words| > 0 {
      var b := Encode(words);
      assert b[..4] == BigEndian(words[0]);
      assert b[4..] == Encode(words[1..]);
      FromToBigEndian(words[0]);
      DecodeEncode(words[1..]);
    }
  }

  lemma {:induction false} EncodeAppend(words: seq<U32>, w: U32)
    ensures Encode(words + [w]) == Encode(words) + BigEndian(w)
  {
    if |words| > 0 {
      assert (words + [w])[1..] == words[1..] + [w];
      EncodeAppend(words[1..], w);
    } else {
      assert words + [w] == [w];
    }
  }

  lemma {:induction false} DecodeAt(b: seq<Byte>, j: nat)
    requires |b| % 4 == 0 && 4 * j + 4 <= |b|
    ensures Decode(b)[j] == FromBigEndian(b[4 * j..4 * j + 4])
  {
    if j > 0 {
      DecodeAt(b[4..], j - 1);
      assert b[4..][4 * (j - 1)..4 * (j - 1) + 4] == b[4 * j..4 * j + 4];
    }
  }

  /** The five header words of a polynomial: basis, layout, shift, dimension, blinded size. */
  function HeaderWords(form: Form, shift: int, dimension: nat, blindedSize: nat): (w: seq<U32>)
    ensures |w| == 5
  {
    [form.basis, form.layout, Uint32(shift), Uint32(dimension), Uint32(blindedSize)]
  }

  /**
    Reading back a written header restores every field, the shift, dimension
    and blinded size exactly when they are below 2^32.
  */
  lemma HeaderRoundTrip(form: Form, shift: int, dimension: nat, blindedSize: nat)
    requires 0 <= shift < 0x1_0000_0000 && dimension < 0x1_0000_0000 && blindedSize < 0x1_0000_0000
    ensures Decode(Encode(HeaderWords(form, shift, dimension, blindedSize)))
         == [form.basis, form.layout, shift, dimension, blindedSize]
  {
    DecodeEncode(HeaderWords(form, shift, dimension, blindedSize));
  }

  // ---------------------------------------------------------------------
  // Proof steps.

  lemma HornerStep(acc: nat, x: nat, s: seq<nat>, m: nat)
    requires m > 0 && |s| > 0 && acc == Horner(s[1..], x) % m
    ensures Fp.Add(Fp.Mul(acc, x, m), s[0], m) == Horner(s, x) % m
  {
    var h := Horner(s[1..], x);
    Fp.ModMod(h, m);
    Fp.MulMod(acc, x, h, x, m);
    Fp.AddMod(Fp.Mul(acc, x, m), s[0], h * x, s[0], m);
    Fp.Settle(Fp.Add(Fp.Mul(acc, x, m), s[0], m), s[0] + x * h, m);
  }

  /** The index Go's `evaluate` and `GetCoeff` compute for entry i of a bit-reversed vector. */
  lemma ReadIndex(i: nat, n: nat, nn: nat, p: nat)
    requires 0 < n < Word && nn == WordBits - TrailingZeros(n) && p == Pow2(nn)
    ensures Reverse64(i) / p == ReverseBits(i, TrailingZeros(n)) < n
  {
    TrailingZerosBound(n);
    ShiftedReverse(i, TrailingZeros(n), nn, p);
    ReverseBitsBound(i, TrailingZeros(n));
    Pow2TrailingZeros(n);
  }

  lemma SubAddMod(c: int, a: int, b: int, m: nat)
    requires m > 0
    ensures ((c + b) % m - a) % m == (c - a + b) % m
    ensures ((c - a) % m + a) % m == (c - a + a) % m
  {
    Fp.ModMod(c + b, m);
    Fp.SubCongruent((c + b) % m, c + b, a, a, m);
    Fp.ModMod(c - a, m);
    Fp.AddCongruent((c - a) % m, c - a, a, a, m);
  }

  lemma StepSub(c: seq<nat>, q: seq<nat>, i: nat, d: nat, m: nat)
    requires m > 0 && 0 < d && i < |q| && d + |q| <= |c|
    ensures Fp.Sub(BlindedCoeff(c, q[..i], d, m, i), q[i], m) == BlindedCoeff(c, q[..i + 1], d, m, i)
  {
    if i >= d {
      assert At(q[..i], i - d) == q[i - d] == At(q[..i + 1], i - d);
      SubAddMod(c[i], q[i], q[i - d], m);
    }
  }

  lemma StepAdd(c: seq<nat>, q: seq<nat>, i: nat, d: nat, m: nat)
    requires m > 0 && 0 < d && i < |q| && d + |q| <= |c|
    ensures Fp.Add(BlindedCoeff(c, q[..i], d, m, i + d), q[i], m) == BlindedCoeff(c, q[..i + 1], d, m, i + d)
  {
    assert At(q[..i + 1], i) == q[i];
  }

  lemma SubThenAdd(c: nat, a: nat, m: nat)
    requires m > 0
    ensures Fp.Add(Fp.Sub(c, a, m), a, m) == c % m
  {
    SubAddMod(c, a, a, m);
  }

  lemma StepSame(c: seq<nat>, q: seq<nat>, i: nat, m: nat)
    requires m > 0 && i < |q| && |q| <= |c|
    ensures Fp.Add(Fp.Sub(BlindedCoeff(c, q[..i], 0, m, i), q[i], m), q[i], m) == BlindedCoeff(c, q[..i + 1], 0, m, i)
  {
    assert BlindedCoeff(c, q[..i], 0, m, i) == c[i];
    SubThenAdd(c[i], q[i], m);
    assert At(q[..i + 1], i) == q[i];
    assert BlindedCoeff(c, q[..i + 1], 0, m, i) == c[i] % m;
  }

  lemma StepOther(c: seq<nat>, q: seq<nat>, i: nat, d: nat, m: nat, k: nat)
    requires m > 0 && i < |q| && d + |q| <= |c| && k < |c| && k != i && k != i + d
    ensures BlindedCoeff(c, q[..i], d, m, k) == BlindedCoeff(c, q[..i + 1], d, m, k)
  {
    assert At(q[..i], k) == At(q[..i + 1], k);
    assert At(q[..i], k - d) == At(q[..i + 1], k - d);
  }

  /** One round of the blinding loop extends the closed form by one value. */
  lemma BlindedStep(c: seq<nat>, q: seq<nat>, i: nat, d: nat, m: nat)
    requires m > 0 && i < |q| && d + |q| <= |c|
    ensures var cur := Blinded(c, q[..i], d, m);
            var s := cur[i := Fp.Sub(cur[i], q[i], m)];
            s[i + d := Fp.Add(s[i + d], q[i], m)] == Blinded(c, q[..i + 1], d, m)
  {
    var cur := Blinded(c, q[..i], d, m);
    var s := cur[i := Fp.Sub(cur[i], q[i], m)];
    var t := s[i + d := Fp.Add(s[i + d], q[i], m)];
    var next := Blinded(c, q[..i + 1], d, m);
    forall k | 0 <= k < |c|
      ensures t[k] == next[k]
    {
      if d == 0 && k == i {
        StepSame(c, q, i, m);
      } else if k == i {
        StepSub(c, q, i, d, m);
      } else if k == i + d {
        StepAdd(c, q, i, d, m);
      } else {
        StepOther(c, q, i, d, m, k);
      }
    }
  }

  /** Q as n coefficients. */
  function Low(q: seq<nat>, n: nat): (r: seq<int>)
    requires |q| <= n
    ensures |r| == n && forall k :: 0 <= k < n ==> r[k] == At(q, k)
  {
    q + ZeroCoeffs(n - |q|)
  }

  /** X^d·Q as n coefficients. */
  function High(q: seq<nat>, d: nat, n: nat): (r: seq<int>)
    requires d + |q| <= n
    ensures |r| == n && forall k :: 0 <= k < n ==> r[k] == At(q, k - d)
  {
    ZeroCoeffs(d) + q + ZeroCoeffs(n - d - |q|)
  }

  /** The |c| coefficients of C + Q·(X^d - 1). */
  function AddMultiple(c: seq<nat>, q: seq<nat>, d: nat): (r: seq<int>)
    requires d + |q| <= |c|
    ensures |r| == |c|
  {
    Combine(c, Low(q, |c|), High(q, d, |c|))
  }

  /** Coefficient by coefficient, blinding gives C + Q·(X^d - 1) modulo m. */
  lemma BlindedCongruent(c: seq<nat>, q: seq<nat>, d: nat, m: nat)
    requires m > 0 && d + |q| <= |c|
    ensures forall k :: 0 <= k < |c| ==> Blinded(c, q, d, m)[k] % m == AddMultiple(c, q, d)[k] % m
  {
    forall k | 0 <= k < |c|
      ensures Blinded(c, q, d, m)[k] % m == (c[k] - At(q, k) + At(q, k - d)) % m
    {
      if Touched(k, |q|, d) {
        Fp.ModMod(c[k] - At(q, k) + At(q, k - d), m);
      }
    }
  }

  lemma HighValue(q: seq<nat>, d: nat, n: nat, x: int)
    requires d + |q| <= n
    ensures PolySum(High(q, d, n), x) == Pow(x, d) * PolySum(q, x)
  {
    PolySumZerosRight(ZeroCoeffs(d) + q, n - d - |q|, x);
    PolySumZerosLeft(d, q, x);
  }

  lemma CombinedValue(c: seq<nat>, q: seq<nat>, d: nat, x: int)
    requires d + |q| <= |c|
    ensures PolySum(AddMultiple(c, q, d), x) == PolySum(c, x) - PolySum(q, x) + Pow(x, d) * PolySum(q, x)
  {
    var n := |c|;
    PolySumCombine(c, Low(q, n), High(q, d, n), x);
    PolySumZerosRight(q, n - |q|, x);
    HighValue(q, d, n, x);
  }

  /** AddMultiple(c, q, d) is the polynomial C + Q·(X^d - 1): so is its value at every point. */
  lemma AddMultipleValue(c: seq<nat>, q: seq<nat>, d: nat, x: int)
    requires d + |q| <= |c|
    ensures PolySum(AddMultiple(c, q, d), x) == PolySum(c, x) + PolySum(q, x) * (Pow(x, d) - 1)
  {
    CombinedValue(c, q, d, x);
  }

  /** Blinding adds Q·(X^d - 1) to the polynomial: the values agree modulo m at every point. */
  lemma BlindAddsMultiple(c: seq<nat>, q: seq<nat>, d: nat, m: nat, x: int)
    requires m > 0 && d + |q| <= |c|
    ensures PolySum(Blinded(c, q, d, m), x) % m == PolySum(AddMultiple(c, q, d), x) % m
  {
    BlindedCongruent(c, q, d, m);
    PolySumCongruent(Blinded(c, q, d, m), AddMultiple(c, q, d), x, m);
  }

  /** Go's remainder differs from the Euclidean one by a multiple of n. */
  lemma TruncRemOffset(a: int, n: nat) returns (t: int)
    requires n > 0
    ensures TruncRem(a, n) == a % n + n * t
  {
    if a >= 0 {
      t := 0;
    } else {
      var b := -a;
      t := a / n + b / n;
      assert a == n * (a / n) + a % n;
      assert b == n * (b / n) + b % n;
      assert n * t == n * (a / n) + n * (b / n);
    }
  }

  /**
    Go's remainder of a by n, reinterpreted as a uint64, agrees with the
    Euclidean remainder a mod n in its low k bits whenever 2^k divides n.
  */
  lemma CoeffIndex(a: int, n: nat, k: nat)
    requires n > 0 && k < WordBits && n % Pow2(k) == 0
    ensures TruncRem(a, n) % Word % Pow2(k) == a % n % Pow2(k)
  {
    var q := Pow2(k);
    assert n == q * (n / q);
    var j := TruncRem(a, n);
    var t := TruncRemOffset(a, n);
    ModOfMultiple(a % n, t, q, n / q, n);
    Pow2Word();
    Pow2Sum(k, WordBits - k, WordBits);
    ModOfMultiple(j, -(j / Word), q, Pow2(WordBits - k), Word);
    assert j % Word == j + Word * (-(j / Word));
  }

  /** The entry Go's `GetCoeff` reads for index a (a Go int, reduced with Go's %) of c. */
  function CoeffAt(c: seq<nat>, layout: U32, a: int): (r: nat)
    requires 0 < |c| < Word
    requires layout == Regular ==> TruncRem(a, |c|) >= 0
    ensures r == ReadingOrder(c, layout)[a % |c|]
  {
    var n := |c|;
    var j := TruncRem(a, n);
    if layout == Regular then
      TruncRemNonneg(a, n);
      c[j]
    else
      TrailingZerosBound(n);
      var nn := WordBits - TrailingZeros(n);
      var p := Pow2(nn);
      ReadIndex(j % Word, n, nn, p);
      BitReversedCoeff(c, layout, a, Reverse64(j % Word) / p);
      c[Reverse64(j % Word) / p]
  }

  // ---------------------------------------------------------------------
  // The polynomial classes.

  /** A coefficient vector together with its form. */
  class PolynomialData {
    var coefficients: seq<nat>
    var form: Form

    constructor (coefficients: seq<nat>, form: Form)
      ensures this.coefficients == coefficients && this.form == form
    {
      this.coefficients := coefficients;
      this.form := form;
    }

    /** Extends the vector with zeros up to newSize; never shrinks it. */
    method Grow(newSize: int)
      modifies this
      ensures coefficients == Grown(old(coefficients), newSize)
      ensures form == old(form)
    {
      var offset := newSize - |coefficients|;
      if offset > 0 {
        coefficients := coefficients + seq(offset, _ => 0);
      }
    }

    /** A deep copy. */
    method Clone() returns (r: PolynomialData)
      ensures fresh(r) && r.coefficients == coefficients && r.form == form
    {
      r := new PolynomialData(coefficients, form);
    }

    /**
      The value at x, by Horner's rule over the reading order: fails unless
      the basis is canonical.
    */
    method Evaluate(x: nat, m: nat) returns (r: Result<nat>)
      requires m > 0 && |coefficients| < Word
      ensures form.basis != Canonical ==> r == Failure("p must be in canonical basis")
      ensures form.basis == Canonical ==> r == Success(PolySum(ReadingOrder(coefficients, form.layout), x) % m)
    {
      if form.basis != Canonical {
        return Failure("p must be in canonical basis");
      }
      var n := |coefficients|;
      ghost var order := ReadingOrder(coefficients, form.layout);
      var acc := 0;
      var i := n;
      if form.layout == Regular {
        while i > 0
          invariant 0 <= i <= n && acc == Horner(order[i..], x) % m
        {
          i := i - 1;
          assert order[i..][1..] == order[i + 1..];
          HornerStep(acc, x, order[i..], m);
          acc := Fp.Add(Fp.Mul(acc, x, m), coefficients[i], m);
        }
      } else {
        var nn := WordBits - TrailingZeros(n);
        if n > 0 {
          TrailingZerosBound(n);
        }
        var p := Pow2(nn);
        while i > 0
          invariant 0 <= i <= n && acc == Horner(order[i..], x) % m
        {
          i := i - 1;
          ReadIndex(i, n, nn, p);
          var iRev := Reverse64(i) / p;
          assert order[i..][1..] == order[i + 1..];
          HornerStep(acc, x, order[i..], m);
          acc := Fp.Add(Fp.Mul(acc, x, m), coefficients[iRev], m);
        }
      }
      HornerIsPolySum(order, x);
      return Success(acc);
    }
  }

  /**
    A polynomial P' (X) = P(ω^shift·X) over a coefficient vector, with the
    dimension deg P + 1 and the size it has once blinded.
  */
  class Polynomial {
    var data: PolynomialData
    var shift: int
    var dimension: nat
    var blindedSize: nat

    /** A polynomial over the given coefficients, unshifted, of full dimension. */
    constructor (coefficients: seq<nat>, form: Form)
      ensures fresh(data) && data.coefficients == coefficients && data.form == form
      ensures shift == 0 && dimension == |coefficients| && blindedSize == |coefficients|
    {
      data := new PolynomialData(coefficients, form);
      shift := 0;
      dimension := |coefficients|;
      blindedSize := |coefficients|;
    }

    /** A polynomial over an existing coefficient vector, with the given read parameters. */
    constructor Wrap(data: PolynomialData, shift: int, dimension: nat, blindedSize: nat)
      ensures this.data == data && this.shift == shift
      ensures this.dimension == dimension && this.blindedSize == blindedSize
    {
      this.data := data;
      this.shift := shift;
      this.dimension := dimension;
      this.blindedSize := blindedSize;
    }

    /** Marks the polynomial as read at ω^s·X; nothing else changes. */
    method Shift(s: int)
      modifies this
      ensures shift == s
      ensures data == old(data) && dimension == old(dimension) && blindedSize == old(blindedSize)
    {
      shift := s;
    }

    function Dimension(): nat
      reads this
    {
      dimension
    }

    function BlindedSize(): nat
      reads this
    {
      blindedSize
    }

    /** A copy sharing the coefficient vector. */
    method ShallowClone() returns (r: Polynomial)
      ensures fresh(r) && r.data == data
      ensures r.shift == shift && r.dimension == dimension && r.blindedSize == blindedSize
    {
      r := new Polynomial.Wrap(data, shift, dimension, blindedSize);
    }

    /** A copy with its own coefficient vector. */
    method Clone() returns (r: Polynomial)
      ensures fresh(r) && fresh(r.data)
      ensures r.data.coefficients == data.coefficients && r.data.form == data.form
      ensures r.shift == shift && r.dimension == dimension && r.blindedSize == blindedSize
    {
      r := ShallowClone();
      r.data := data.Clone();
    }

    /**
      Coefficient i of the shifted polynomial: entry (i + ρ·shift) mod n of the
      reading order, with ρ = n / dimension. For a non-regular layout Go's
      code reads the reversal of the low t bits of the index (2^t dividing
      n), as ReadingOrder does, whatever the length. The
      index i + ρ·shift is computed in Go's 64-bit int and may wrap around.
    */
    function GetCoeff(i: int): (r: nat)
      reads this, data
      requires dimension > 0 && 0 < |data.coefficients| < Word
      requires var n := |data.coefficients|;
               data.form.layout == Regular ==> TruncRem(ShiftedIndex(i, n / dimension, shift), n) >= 0
      ensures var n := |data.coefficients|;
              r == ReadingOrder(data.coefficients, data.form.layout)[ShiftedIndex(i, n / dimension, shift) % n]
    {
      var n := |data.coefficients|;
      CoeffAt(data.coefficients, data.form.layout, ShiftedIndex(i, n / dimension, shift))
    }

    /**
      Adds Q(X)·(X^dimension - 1) to the polynomial, Q being the
      blindingOrder + 1 values drawn from `randomness`, and returns Q. Fails
      unless the form is canonical-regular; a negative length for Q fails
      after the resize, as `make` does.
    */
    method Blind(blindingOrder: int, randomness: seq<nat>, m: nat) returns (r: Result<Polynomial>)
      requires m > 0 && blindingOrder + 1 <= |randomness|
      modifies this, data
      ensures data == old(data) && shift == old(shift) && dimension == old(dimension)
      ensures data.form == old(data.form)
      ensures old(data.form) != CanonicalRegular ==>
                r == Failure("the input must be in canonical basis, regular layout")
                && data.coefficients == old(data.coefficients) && blindedSize == old(blindedSize)
      ensures old(data.form) == CanonicalRegular && blindingOrder < -1 ==>
                r == Failure("makeslice: len out of range")
                && data.coefficients == Grown(old(data.coefficients), dimension + blindingOrder + 1)
                && blindedSize == old(blindedSize)
      ensures old(data.form) == CanonicalRegular && blindingOrder >= -1 ==>
                var q := randomness[..blindingOrder + 1];
                var grown := Grown(old(data.coefficients), dimension + blindingOrder + 1);
                r.Success? && fresh(r.value) && fresh(r.value.data)
                && r.value.data.coefficients == q && r.value.data.form == CanonicalRegular
                && r.value.shift == 0 && r.value.dimension == |q| && r.value.blindedSize == |q|
                && blindedSize == dimension + blindingOrder + 1
                && data.coefficients == Blinded(grown, q, dimension, m)
    {
      if data.form != CanonicalRegular {
        return Failure("the input must be in canonical basis, regular layout");
      }
      var newSize := dimension + blindingOrder + 1;
      data.Grow(newSize);
      if blindingOrder + 1 < 0 {
        return Failure("makeslice: len out of range");
      }
      ghost var c := data.coefficients;
      var i := 0;
      while i <= blindingOrder
        invariant 0 <= i <= blindingOrder + 1
        invariant data.coefficients == Blinded(c, randomness[..i], dimension, m)
        invariant data.form == CanonicalRegular
        modifies data
      {
        var rand := randomness[i];
        BlindedStep(c, randomness[..blindingOrder + 1], i, dimension, m);
        assert randomness[..blindingOrder + 1][..i] == randomness[..i];
        assert randomness[..blindingOrder + 1][..i + 1] == randomness[..i + 1];
        data.coefficients := data.coefficients[i := Fp.Sub(data.coefficients[i], rand, m)];
        data.coefficients := data.coefficients[i + dimension := Fp.Add(data.coefficients[i + dimension], rand, m)];
        i := i + 1;
      }
      blindedSize := newSize;
      var q := new Polynomial(randomness[..blindingOrder + 1], CanonicalRegular);
      return Success(q);
    }

    /** Puts the coefficients in the regular layout; the basis is kept. */
    method ToRegular(transform: Transformer)
      modifies data
      ensures data.form == RegularConversion(old(data.form)).form
      ensures data.coefficients == Apply(transform, RegularConversion(old(data.form)).calls, old(data.coefficients))
    {
      if data.form.layout == Regular {
        return;
      }
      data.coefficients := transform(BitReversal, data.coefficients);
      data.form := data.form.(layout := Regular);
    }

    /** Puts the coefficients in the bit-reversed layout; the basis is kept. */
    method ToBitReverse(transform: Transformer)
      modifies data
      ensures data.form == BitReverseConversion(old(data.form)).form
      ensures data.coefficients == Apply(transform, BitReverseConversion(old(data.form)).calls, old(data.coefficients))
    {
      if data.form.layout == BitReverse {
        return;
      }
      data.coefficients := transform(BitReversal, data.coefficients);
      data.form := data.form.(layout := BitReverse);
    }

    /**
      Grows the vector to the domain's cardinality, then makes the calls of
      the conversion table and takes its form; an unknown form fails after
      the resize.
    */
    method Convert(conversion: Result<Conversion>, cardinality: nat, transform: Transformer)
      returns (r: Result<()>)
      modifies data
      ensures var grown := Grown(old(data.coefficients), cardinality);
              match conversion
              case Failure(e) => r == Failure(e) && data.form == old(data.form) && data.coefficients == grown
              case Success(conv) =>
                r.Success? && data.form == conv.form && data.coefficients == Apply(transform, conv.calls, grown)
    {
      data.Grow(cardinality);
      if conversion.Failure? {
        return Failure(conversion.error);
      }
      data.coefficients := Apply(transform, conversion.value.calls, data.coefficients);
      data.form := conversion.value.form;
      return Success(());
    }

    method ToLagrange(cardinality: nat, transform: Transformer) returns (r: Result<()>)
      modifies data
      ensures var grown := Grown(old(data.coefficients), cardinality);
              match LagrangeConversion(old(data.form))
              case Failure(e) => r == Failure(e) && data.form == old(data.form) && data.coefficients == grown
              case Success(conv) =>
                r.Success? && data.form == conv.form && data.coefficients == Apply(transform, conv.calls, grown)
    {
      r := Convert(LagrangeConversion(data.form), cardinality, transform);
    }

    method ToCanonical(cardinality: nat, transform: Transformer) returns (r: Result<()>)
      modifies data
      ensures var grown := Grown(old(data.coefficients), cardinality);
              match CanonicalConversion(old(data.form))
              case Failure(e) => r == Failure(e) && data.form == old(data.form) && data.coefficients == grown
              case Success(conv) =>
                r.Success? && data.form == conv.form && data.coefficients == Apply(transform, conv.calls, grown)
    {
      r := Convert(CanonicalConversion(data.form), cardinality, transform);
    }

    method ToLagrangeCoset(cardinality: nat, transform: Transformer) returns (r: Result<()>)
      modifies data
      ensures var grown := Grown(old(data.coefficients), cardinality);
              match LagrangeCosetConversion(old(data.form))
              case Failure(e) => r == Failure(e) && data.form == old(data.form) && data.coefficients == grown
              case Success(conv) =>
                r.Success? && data.form == conv.form && data.coefficients == Apply(transform, conv.calls, grown)
    {
      r := Convert(LagrangeCosetConversion(data.form), cardinality, transform);
    }

    /** The header written after the coefficients: five big-endian 32-bit words. */
    method WriteHeader() returns (out: seq<Byte>)
      ensures out == Encode(HeaderWords(data.form, shift, dimension, blindedSize))
    {
      var words := [data.form.basis, data.form.layout, Uint32(shift), Uint32(dimension), Uint32(blindedSize)];
      out := [];
      var i := 0;
      while i < |words|
        invariant 0 <= i <= |words| && out == Encode(words[..i])
      {
        EncodeAppend(words[..i], words[i]);
        assert words[..i + 1] == words[..i] + [words[i]];
        out := out + BigEndian(words[i]);
        i := i + 1;
      }
      assert words[..i] == words;
    }

    /**
      Reads the header back from `input`: the five words in order, with no
      check on the basis and layout codes. A short input fails after
      consuming what it holds ("EOF" at a word boundary, "unexpected EOF"
      inside a word) and leaves the polynomial unchanged.
    */
    method ReadHeader(input: seq<Byte>) returns (n: nat, r: Result<()>)
      modifies this, data
      ensures data == old(data) && data.coefficients == old(data.coefficients)
      ensures |input| < 20 ==>
                n == |input| && r == Failure(if |input| % 4 == 0 then "EOF" else "unexpected EOF")
                && data.form == old(data.form) && shift == old(shift)
                && dimension == old(dimension) && blindedSize == old(blindedSize)
      ensures |input| >= 20 ==>
                var w := Decode(input[..20]);
                n == 20 && r.Success? && data.form == Form(w[0], w[1])
                && shift == w[2] && dimension == w[3] && blindedSize == w[4]
    {
      var words := new U32[5];
      n := 0;
      var i := 0;
      while i < 5
        invariant 0 <= i <= 5 && n == 4 * i && 4 * i <= |input|
        invariant forall j :: 0 <= j < i ==> words[j] == FromBigEndian(input[4 * j..4 * j + 4])
        modifies words
      {
        var available := |input| - 4 * i;
        if available < 4 {
          n := n + available;
          r := Failure(if available == 0 then "EOF" else "unexpected EOF");
          return;
        }
        words[i] := FromBigEndian(input[4 * i..4 * i + 4]);
        n := n + 4;
        i := i + 1;
      }
      forall j | 0 <= j < 5
        ensures words[j] == Decode(input[..20])[j]
      {
        DecodeAt(input[..20], j);
        assert input[..20][4 * j..4 * j + 4] == input[4 * j..4 * j + 4];
      }
      data.form := Form(words[0], words[1]);
      shift := words[2];
      dimension := words[3];
      blindedSize := words[4];
      r := Success(());
    }
  }

  /** A non-negative Go remainder is the Euclidean one. */
  lemma TruncRemNonneg(a: int, n: nat)
    requires n > 0 && TruncRem(a, n) >= 0
    ensures TruncRem(a, n) == a % n
  {
    if a < 0 {
      var t := (-a) / n;
      assert -a == n * t;
      ModAddMultiple(0, -t, n);
    }
  }

  /** Go's index for a shifted entry of a bit-reversed vector reads the reading order at a mod n. */
  lemma BitReversedCoeff(c: seq<nat>, layout: U32, a: int, idx: nat)
    requires 0 < |c| < Word && layout != Regular
    requires idx == ReverseBits(TruncRem(a, |c|) % Word, TrailingZeros(|c|)) < |c|
    ensures c[idx] == ReadingOrder(c, layout)[a % |c|]
  {
    ShiftedCoeff(a, |c|);
  }

  /**
    Reversing the low bits of the uint64 of Go's remainder reads the same
    entry as reversing those of the Euclidean remainder.
  */
  lemma ShiftedCoeff(a: int, n: nat)
    requires 0 < n < Word
    ensures ReverseBits(TruncRem(a, n) % Word, TrailingZeros(n)) == ReverseBits(a % n, TrailingZeros(n))
  {
    var k := TrailingZeros(n);
    TrailingZerosBound(n);
    Pow2DividesSize(n);
    CoeffIndex(a, n, k);
    ReverseBitsMod(TruncRem(a, n) % Word, a % n, k, Pow2(k));
  }
}
