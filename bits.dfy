/**
  Bit-level arithmetic shared by the multi-scalar-multiplication model.

  A machine word is a natural number below 2^64 and a multi-word scalar is a
  little-endian sequence of words (limb 0 is the least significant), as in
  `fr.Element`. The bitwise operators `&` and `|` that the source applies to
  words are given here as recursive functions on naturals, together with the
  few identities the source relies on (masking low bits, masking a shifted
  window, or-ing disjoint bit fields).
*/
module Bits {

  /** The number of bits in a machine word. */
  const WordBits: nat := 64

  /** 2^64, the number of distinct machine words. */
  const Word: nat := 0x1_0000_0000_0000_0000

  /** 2^n. */
  function Pow2(n: nat): (r: nat)
    ensures r > 0
  {
    if n == 0 then 1 else 2 * Pow2(n - 1)
  }

  lemma {:induction false} Pow2Add(a: nat, b: nat)
    ensures Pow2(a + b) == Pow2(a) * Pow2(b)
  {
    if a > 0 {
      Pow2Add(a - 1, b);
    }
  }

  /** Pow2Add with the exponent of the product named. */
  lemma Pow2Sum(a: nat, b: nat, n: nat)
    requires n == a + b
    ensures Pow2(n) == Pow2(a) * Pow2(b)
  {
    Pow2Add(a, b);
  }

  lemma {:induction false} Pow2Monotone(a: nat, b: nat)
    requires a <= b
    ensures Pow2(a) <= Pow2(b)
  {
    if a < b {
      Pow2Monotone(a, b - 1);
    }
  }

  lemma Pow2Word()
    ensures Pow2(WordBits) == Word
  {
    assert Pow2(8) == 256;
    Pow2Add(8, 8);
    Pow2Add(16, 16);
    Pow2Add(32, 32);
  }

  // ---------------------------------------------------------------------
  // Euclidean division facts, stated once for positive divisors.

  lemma MulMonotone(a: int, x: int, y: int)
    requires a >= 0 && x <= y
    ensures a * x <= a * y
  {
    assert a * y - a * x == a * (y - x);
  }

  lemma MulAddRight(a: int, b: int, k: int)
    ensures (a + b) * k == a * k + b * k
  {
  }

  lemma MulNext(n: int, m: int, c: int)
    requires n == m + 1
    ensures n * c == m * c + c
  {
  }

  lemma MulAssoc(a: int, b: int, k: int)
    ensures a * (b * k) == (a * b) * k
  {
  }

  lemma DivModUnique(x: int, d: int, q: int, r: int)
    requires d > 0 && 0 <= r < d && x == d * q + r
    ensures x / d == q && x % d == r
  {
    var q0, r0 := x / d, x % d;
    assert d * (q - q0) == r0 - r;
    if q > q0 {
      MulMonotone(d, 1, q - q0);
    } else if q < q0 {
      MulMonotone(d, 1, q0 - q);
    }
  }

  /** A value below the modulus is its own remainder. */
  lemma ModSmall(x: nat, q: nat)
    requires x < q
    ensures x % q == x
  {
    DivModUnique(x, q, 0, x);
  }

  /** Dividing twice is dividing by the product. */
  lemma DivDiv(x: nat, a: nat, b: nat)
    requires a > 0 && b > 0
    ensures x / a / b == x / (a * b)
    ensures x % (a * b) == x % a + a * ((x / a) % b)
  {
    var q, r := x / a, x % a;
    var q2, r2 := q / b, q % b;
    MulMonotone(a, r2, b - 1);
    assert x == (a * b) * q2 + (a * r2 + r) by {
      assert q == b * q2 + r2;
      assert a * q == a * (b * q2) + a * r2;
    }
    DivModUnique(x, a * b, q2, a * r2 + r);
  }

  /** Adding a multiple of the divisor does not change the remainder. */
  lemma ModAddMultiple(x: int, k: int, d: int)
    requires d > 0
    ensures (x + d * k) % d == x % d
    ensures (x + d * k) / d == x / d + k
  {
    DivModUnique(x + d * k, d, x / d + k, x % d);
  }

  lemma DivBound(x: nat, d: nat, b: nat)
    requires d > 0 && x < d * b
    ensures x / d < b
  {
    if x / d >= b {
      MulMonotone(d, b, x / d);
    }
  }

  /** (x + d*q) / d and remainder when x is already below d. */
  lemma DivOfSum(x: nat, d: nat, q: nat)
    requires 0 < d && x < d
    ensures (x + d * q) / d == q && (x + d * q) % d == x
  {
    DivModUnique(x + d * q, d, q, x);
  }

  /** Adding a multiple of a multiple m·d of d does not change the remainder modulo d. */
  lemma ModOfMultiple(x: int, k: int, d: int, m: int, dm: int)
    requires d > 0 && dm == d * m
    ensures (x + dm * k) % d == x % d
  {
    MulAssoc(d, m, k);
    ModAddMultiple(x, m * k, d);
  }

  /** The remainder modulo a product ab, for x = a0 + a·hi with a0 < a. */
  lemma ModProduct(a0: nat, hi: nat, a: nat, b: nat, ab: nat)
    requires a0 < a && b > 0 && ab == a * b
    ensures (a0 + a * hi) % ab == a0 + a * (hi % b)
  {
    DivDiv(a0 + a * hi, a, b);
    DivOfSum(a0, a, hi);
  }

  // ---------------------------------------------------------------------
  // Bitwise and / or on naturals.

  /** Bitwise and of two naturals (Go's `&` on uint64). */
  function And(a: nat, b: nat): nat
    decreases a
  {
    if a == 0 || b == 0 then 0
    else 2 * And(a / 2, b / 2) + (if a % 2 == 1 && b % 2 == 1 then 1 else 0)
  }

  /** Bitwise or of two naturals (Go's `|` on uint64). */
  function Or(a: nat, b: nat): nat
    decreases a
  {
    if a == 0 then b
    else if b == 0 then a
    else 2 * Or(a / 2, b / 2) + (if a % 2 == 1 || b % 2 == 1 then 1 else 0)
  }

  /** Bitwise and-not of two naturals (Go's `&^` on uint64): the bits of a not set in b. */
  function AndNot(a: nat, b: nat): nat
    decreases a
  {
    if a == 0 then 0
    else if b == 0 then a
    else 2 * AndNot(a / 2, b / 2) + (if a % 2 == 1 && b % 2 == 0 then 1 else 0)
  }

  /**
    Testing and clearing the top bit of a (k+1)-bit value: x & 2^k is 2^k
    exactly when x reaches 2^k, and x &^ 2^k takes it away.
  */
  lemma {:induction false} TopBit(x: nat, k: nat)
    requires x < Pow2(k + 1)
    ensures And(x, Pow2(k)) == (if x >= Pow2(k) then Pow2(k) else 0)
    ensures AndNot(x, Pow2(k)) == (if x >= Pow2(k) then x - Pow2(k) else x)
  {
    var h := Pow2(k);
    if x == 0 {
    } else if k == 0 {
      assert x == 1;
      assert And(0, 0) == 0 && AndNot(0, 0) == 0;
    } else {
      var h' := Pow2(k - 1);
      assert h == 2 * h';
      assert h / 2 == h' && h % 2 == 0;
      TopBit(x / 2, k - 1);
      assert x / 2 >= h' <==> x >= h;
    }
  }

  lemma ZeroDivMod(d: nat)
    requires d > 0
    ensures 0 / d == 0 && 0 % d == 0
  {
  }

  lemma DivNonneg(x: nat, d: int)
    requires d > 0
    ensures x / d >= 0
  {
  }

  /** Dividing by a positive number never increases a natural. */
  lemma DivLe(x: nat, d: int)
    requires d > 0
    ensures 0 <= x / d <= x
  {
    var q := x / d;
    MulMonotone(q, 1, d);
  }

  lemma MulTwice(v: int, h: int, p: int)
    requires p == 2 * h
    ensures 2 * (v * h) == v * p
  {
  }

  lemma AndZero(x: nat)
    ensures And(x, 0) == 0 && And(0, x) == 0
  {
  }

  /** One step of `And` against an odd mask 2h-1. */
  lemma AndOddStep(x: nat, m: nat, h: nat)
    requires x > 0 && h > 0 && m == 2 * h - 1
    ensures And(x, m) == 2 * And(x / 2, h - 1) + x % 2
  {
    assert m / 2 == h - 1 && m % 2 == 1;
  }

  /** One step of `And` against an even mask 2M. */
  lemma AndEvenStep(x: nat, M: nat)
    requires x > 0 && M > 0
    ensures And(x, 2 * M) == 2 * And(x / 2, M)
  {
    assert (2 * M) / 2 == M && (2 * M) % 2 == 0;
  }

  /** Masking with k low one-bits keeps the value modulo 2^k. */
  lemma {:induction false} AndLowOnes(x: nat, k: nat)
    ensures And(x, Pow2(k) - 1) == x % Pow2(k)
  {
    var p := Pow2(k);
    if x == 0 {
      ZeroDivMod(p);
      AndZero(p - 1);
    } else if k == 0 {
    } else {
      var h := Pow2(k - 1);
      assert p == 2 * h;
      AndLowOnes(x / 2, k - 1);
      AndOddStep(x, p - 1, h);
      assert And(x / 2, h - 1) == (x / 2) % h;
      DivDiv(x, 2, h);
      assert x % p == x % 2 + 2 * ((x / 2) % h);
    }
  }

  /**
    Masking with a mask shifted left by s bits is masking the value shifted
    right by s bits, then shifting back. The divisor p stands for 2^s.
  */
  lemma {:induction false} AndShifted(x: nat, m: nat, s: nat, p: nat)
    requires p == Pow2(s)
    ensures x / p >= 0
    ensures And(x, m * p) == And(x / p, m) * p
  {
    DivNonneg(x, p);
    if s == 0 {
      assert m * p == m && x / p == x;
    } else if x == 0 {
      ZeroDivMod(p);
    } else if m == 0 {
      assert m * p == 0;
      AndZero(x);
      AndZero(x / p);
    } else {
      var h := Pow2(s - 1);
      var mh := m * h;
      assert p == 2 * h;
      assert m * p == 2 * mh;
      assert mh > 0 by { MulMonotone(m, 1, h); }
      AndEvenStep(x, mh);
      AndShifted(x / 2, m, s - 1, h);
      DivDiv(x, 2, h);
      assert x / p == x / 2 / h;
      MulTwice(And(x / p, m), h, p);
    }
  }

  /** Bits of the mask above the width of x do not matter. */
  lemma {:induction false} AndTruncated(x: nat, m: nat, k: nat)
    requires x < Pow2(k)
    ensures And(x, m % Pow2(k)) == And(x, m)
  {
    if x == 0 {
    } else {
      assert k > 0;
      DivDiv(m, 2, Pow2(k - 1));
      var mt := m % Pow2(k);
      assert mt / 2 == (m / 2) % Pow2(k - 1) && mt % 2 == m % 2 by {
        DivDiv(m, 2, Pow2(k - 1));
        DivOfSum(m % 2, 2, (m / 2) % Pow2(k - 1));
      }
      AndTruncated(x / 2, m / 2, k - 1);
      if m == 0 {
      } else if mt == 0 {
        assert m % 2 == 0 && (m / 2) % Pow2(k - 1) == 0;
        AndTruncated(x / 2, m / 2, k - 1);
        assert And(x / 2, m / 2) == 0;
      }
    }
  }

  /** Or-ing two values whose set bits are disjoint is adding them. */
  lemma {:induction false} OrDisjoint(a: nat, b: nat, s: nat)
    requires a < Pow2(s) && b % Pow2(s) == 0
    ensures Or(a, b) == a + b
  {
    if a == 0 || b == 0 {
    } else {
      assert s > 0;
      DivDiv(b, 2, Pow2(s - 1));
      OrDisjoint(a / 2, b / 2, s - 1);
    }
  }

  // ---------------------------------------------------------------------
  // Multi-word values.

  /** Every element is a machine word. */
  predicate IsWords(s: seq<nat>) {
    forall i :: 0 <= i < |s| ==> s[i] < Word
  }

  /** The value of a little-endian word sequence. */
  function LimbsValue(s: seq<nat>): nat {
    if |s| == 0 then 0 else s[0] + Word * LimbsValue(s[1..])
  }

  lemma {:induction false} LimbsValueAppend(a: seq<nat>, b: seq<nat>)
    ensures LimbsValue(a + b) == LimbsValue(a) + Pow2(WordBits * |a|) * LimbsValue(b)
  {
    if |a| == 0 {
      assert a + b == b;
    } else {
      assert (a + b)[1..] == a[1..] + b;
      LimbsValueAppend(a[1..], b);
      Pow2Word();
      Pow2Add(WordBits, WordBits * (|a| - 1));
    }
  }

  lemma {:induction false} LimbsValueBound(s: seq<nat>)
    requires IsWords(s)
    ensures LimbsValue(s) < Pow2(WordBits * |s|)
  {
    if |s| > 0 {
      LimbsValueBound(s[1..]);
      Pow2Word();
      Pow2Add(WordBits, WordBits * (|s| - 1));
      MulMonotone(Word, LimbsValue(s[1..]), Pow2(WordBits * (|s| - 1)) - 1);
    }
  }

  lemma {:induction false} LimbsValueZero(s: seq<nat>)
    requires LimbsValue(s) == 0
    ensures forall i :: 0 <= i < |s| ==> s[i] == 0
  {
    if |s| > 0 {
      LimbsValueZero(s[1..]);
      assert forall i :: 1 <= i < |s| ==> s[i] == s[1..][i - 1];
    }
  }

  /** A sequence of n zero words. */
  function Zeros(n: nat): (s: seq<nat>)
    ensures |s| == n && IsWords(s) && LimbsValue(s) == 0
  {
    if n == 0 then [] else [0] + Zeros(n - 1)
  }

  lemma MulAddDistrib(w: int, a: int, b: int, t: int, q: int)
    requires q == w * b
    ensures w * (a + b * t) == w * a + q * t
  {
  }

  /** Splitting a value around one of its limbs. */
  lemma {:induction false} LimbsValueAt(s: seq<nat>, idx: nat)
    requires idx < |s|
    ensures LimbsValue(s) == LimbsValue(s[..idx]) + Pow2(WordBits * idx) * (s[idx] + Word * LimbsValue(s[idx + 1..]))
  {
    var t := s[idx] + Word * LimbsValue(s[idx + 1..]);
    if idx == 0 {
      assert s[..0] == [];
    } else {
      var tail := s[1..];
      LimbsValueAt(tail, idx - 1);
      assert tail[idx - 1] == s[idx] && tail[idx..] == s[idx + 1..];
      assert s[..idx][1..] == tail[..idx - 1];
      assert LimbsValue(s[..idx]) == s[0] + Word * LimbsValue(tail[..idx - 1]);
      Pow2Word();
      Pow2Add(WordBits, WordBits * (idx - 1));
      MulAddDistrib(Word, LimbsValue(tail[..idx - 1]), Pow2(WordBits * (idx - 1)), t, Pow2(WordBits * idx));
    }
  }
}
