/**
  Bit reversal of indices, as used to read the coefficients of a polynomial
  stored in bit-reversed order.

  The source computes the k-bit reversal of an index i < 2^k as
  `bits.Reverse64(i) >> (64 - k)`, with k the number of trailing zeros of
  the domain size 2^k. Here the k-bit reversal is defined on bit sequences,
  and the word-level formula is proved equal to it.
*/
module BitRev {
  import opened Bits

  /** The k low bits of x, least significant first. */
  function ToBits(x: nat, k: nat): (s: seq<bool>)
    ensures |s| == k
  {
    if k == 0 then [] else [x % 2 == 1] + ToBits(x / 2, k - 1)
  }

  /** The number whose bits, least significant first, are s. */
  function FromBits(s: seq<bool>): nat
  {
    if |s| == 0 then 0 else (if s[0] then 1 else 0) + 2 * FromBits(s[1..])
  }

  function Reverse<T>(s: seq<T>): (r: seq<T>)
    ensures |r| == |s|
    ensures forall j :: 0 <= j < |s| ==> r[j] == s[|s| - 1 - j]
  {
    if |s| == 0 then [] else Reverse(s[1..]) + [s[0]]
  }

  /** The k-bit reversal of x: bit t of x becomes bit k-1-t. */
  function ReverseBits(x: nat, k: nat): nat
  {
    FromBits(Reverse(ToBits(x, k)))
  }

  /** Go's bits.Reverse64 on a 64-bit word. */
  function Reverse64(x: nat): nat
  {
    ReverseBits(x, WordBits)
  }

  /** Go's bits.TrailingZeros64: 64 for zero. */
  function TrailingZeros(n: nat): nat
  {
    if n == 0 then 64 else if n % 2 == 1 then 0 else 1 + TrailingZeros(n / 2)
  }

  /** A size 2^k with k < 64, the size of an FFT domain. */
  predicate IsDomainSize(n: nat)
  {
    TrailingZeros(n) < WordBits && Pow2(TrailingZeros(n)) == n
  }

  // ---------------------------------------------------------------------
  // Bits of a number.

  lemma {:induction false} FromBitsBound(s: seq<bool>)
    ensures FromBits(s) < Pow2(|s|)
  {
    if |s| > 0 {
      FromBitsBound(s[1..]);
    }
  }

  lemma {:induction false} FromToBits(x: nat, k: nat)
    requires x < Pow2(k)
    ensures FromBits(ToBits(x, k)) == x
  {
    if k > 0 {
      FromToBits(x / 2, k - 1);
      assert ToBits(x, k)[1..] == ToBits(x / 2, k - 1);
    }
  }

  lemma {:induction false} ToFromBits(s: seq<bool>)
    ensures ToBits(FromBits(s), |s|) == s
  {
    if |s| > 0 {
      var v := FromBits(s);
      var b := if s[0] then 1 else 0;
      ModAddMultiple(b, FromBits(s[1..]), 2);
      assert v % 2 == b && v / 2 == FromBits(s[1..]);
      ToFromBits(s[1..]);
      assert s == [s[0]] + s[1..];
    }
  }

  /**
    The bits of p·hi + lo, with lo < p = 2^k: the k bits of lo, then the bits
    of hi.
  */
  lemma {:induction false} ToBitsSplit(hi: nat, lo: nat, k: nat, j: nat, p: nat)
    requires p == Pow2(k) && lo < p
    ensures ToBits(p * hi + lo, k + j) == ToBits(lo, k) + ToBits(hi, j)
  {
    if k > 0 {
      var half := Pow2(k - 1);
      MulAssoc(2, half, hi);
      ModAddMultiple(lo, half * hi, 2);
      assert p * hi + lo == lo + 2 * (half * hi);
      ToBitsSplit(hi, lo / 2, k - 1, j, half);
      assert (p * hi + lo) / 2 == half * hi + lo / 2;
    } else {
      assert ToBits(lo, k) == [];
    }
  }

  lemma AppendStep(b: int, a: int, p: int, f: int)
    ensures b + 2 * (a + p * f) == (b + 2 * a) + (2 * p) * f
  {
  }

  lemma {:induction false} FromBitsAppend(a: seq<bool>, b: seq<bool>)
    ensures FromBits(a + b) == FromBits(a) + Pow2(|a|) * FromBits(b)
  {
    if |a| > 0 {
      assert (a + b)[1..] == a[1..] + b;
      FromBitsAppend(a[1..], b);
      AppendStep(if a[0] then 1 else 0, FromBits(a[1..]), Pow2(|a| - 1), FromBits(b));
    } else {
      assert a + b == b;
    }
  }

  lemma ReverseAppend<T>(a: seq<T>, b: seq<T>)
    ensures Reverse(a + b) == Reverse(b) + Reverse(a)
  {
  }

  lemma ReverseReverse<T>(s: seq<T>)
    ensures Reverse(Reverse(s)) == s
  {
  }

  // ---------------------------------------------------------------------
  // The reversal permutation.

  /** The k-bit reversal maps [0, 2^k) into itself ... */
  lemma ReverseBitsBound(x: nat, k: nat)
    ensures ReverseBits(x, k) < Pow2(k)
  {
    FromBitsBound(Reverse(ToBits(x, k)));
  }

  /** ... and is its own inverse there, so it permutes [0, 2^k). */
  lemma ReverseBitsInvolution(x: nat, k: nat)
    requires x < Pow2(k)
    ensures ReverseBits(ReverseBits(x, k), k) == x
  {
    var r := Reverse(ToBits(x, k));
    ToFromBits(r);
    ReverseReverse(ToBits(x, k));
    FromToBits(x, k);
  }

  /** Euclidean division by a positive divisor. */
  lemma Euclid(x: nat, q: nat) returns (hi: nat, lo: nat)
    requires q > 0
    ensures x == q * hi + lo && lo < q && hi == x / q && lo == x % q
  {
    hi, lo := x / q, x % q;
  }

  /** The reversed 64 bits of q·h + l: the reversed bits of h, then those of l. */
  lemma WordSplit(x: nat, k: nat, shift: nat, q: nat, h: nat, l: nat)
    requires q == Pow2(k) && x == q * h + l && l < q && k + shift == WordBits
    ensures Reverse(ToBits(x, WordBits)) == Reverse(ToBits(h, shift)) + Reverse(ToBits(l, k))
    ensures ToBits(x, k) == ToBits(l, k)
  {
    ToBitsSplit(h, l, k, shift, q);
    ReverseAppend(ToBits(l, k), ToBits(h, shift));
    ToBitsSplit(h, l, k, 0, q);
    assert ToBits(l, k) + ToBits(h, 0) == ToBits(l, k);
  }

  /**
    The word-level formula: reversing all 64 bits of x and shifting right by
    64 - k gives the k-bit reversal of x.
  */
  lemma ShiftedReverse(x: nat, k: nat, shift: nat, p: nat)
    requires k <= WordBits
    requires shift == WordBits - k && p == Pow2(shift)
    ensures Reverse64(x) / p == ReverseBits(x, k)
  {
    var h, l := Euclid(x, Pow2(k));
    WordSplit(x, k, shift, Pow2(k), h, l);
    var top, low := Reverse(ToBits(h, shift)), Reverse(ToBits(l, k));
    FromBitsAppend(top, low);
    FromBitsBound(top);
    DivOfSum(FromBits(top), p, FromBits(low));
  }

  /** The k-bit reversal only depends on x modulo 2^k. */
  lemma ReverseBitsMod(x: nat, y: nat, k: nat, q: nat)
    requires q == Pow2(k) && x % q == y % q
    ensures ReverseBits(x, k) == ReverseBits(y, k)
  {
    var hx, lx := Euclid(x, q);
    var hy, ly := Euclid(y, q);
    ToBitsSplit(hx, lx, k, 0, q);
    ToBitsSplit(hy, ly, k, 0, q);
    assert ToBits(x, k) == ToBits(lx, k) + ToBits(hx, 0);
    assert ToBits(y, k) == ToBits(ly, k) + ToBits(hy, 0);
  }

  lemma {:induction false} TrailingZerosPow2(k: nat)
    ensures TrailingZeros(Pow2(k)) == k
  {
    if k > 0 {
      ModAddMultiple(0, Pow2(k - 1), 2);
      TrailingZerosPow2(k - 1);
    }
  }

  /** A non-empty size is a multiple of 2^(its trailing zeros). */
  lemma {:induction false} Pow2TrailingZeros(n: nat)
    requires n > 0
    ensures Pow2(TrailingZeros(n)) <= n
  {
    if n % 2 == 0 {
      Pow2TrailingZeros(n / 2);
    }
  }

  /** 2 to the number of trailing zeros of n divides n. */
  lemma {:induction false} Pow2DividesSize(n: nat)
    requires n > 0
    ensures n % Pow2(TrailingZeros(n)) == 0
  {
    if n % 2 == 0 {
      Pow2DividesSize(n / 2);
      var p := Pow2(TrailingZeros(n / 2));
      var t := (n / 2) / p;
      assert n / 2 == p * t;
      assert n == (2 * p) * t;
      ModAddMultiple(0, t, 2 * p);
    }
  }

  /** A non-empty 64-bit size has fewer than 64 trailing zeros. */
  lemma TrailingZerosBound(n: nat)
    requires 0 < n < Word
    ensures TrailingZeros(n) < WordBits
  {
    Pow2TrailingZeros(n);
    Pow2Word();
    if TrailingZeros(n) >= WordBits {
      Pow2Monotone(WordBits, TrailingZeros(n));
    }
  }

  /** The sizes 2^k, k < 64, are exactly the domain sizes. */
  lemma DomainSizePow2(k: nat)
    requires k < WordBits
    ensures IsDomainSize(Pow2(k))
  {
    TrailingZerosPow2(k);
  }
}
