/**
  Value-level view of the scalar partitioning used by the bucket method.

  A scalar of `limbs` machine words is cut into c-bit windows, least
  significant first. The windows are recoded into signed digits in
  [-2^(c-1), 2^(c-1)): a window value reaching 2^(c-1) borrows 2^c from the
  next window. Each digit is then stored in sign-magnitude form inside its
  c-bit window (low c-1 bits: magnitude minus one for negative digits, top
  bit: sign), truncated to the bits the scalar actually has.
*/
module Digits {
  import opened Bits

  /** Window widths the source can use. */
  predicate ValidWidth(c: nat) {
    2 <= c < WordBits
  }

  /** Number of c-bit windows needed to cover a scalar of `limbs` words. */
  function NbChunks(c: nat, limbs: nat): (n: nat)
    requires c > 0
    ensures n * c >= WordBits * limbs
    ensures limbs > 0 ==> n > 0 && (n - 1) * c < WordBits * limbs
  {
    var bits := WordBits * limbs;
    if bits % c != 0 then bits / c + 1 else bits / c
  }

  /** Window j of a scalar starts inside the scalar. */
  lemma ChunkStart(c: nat, limbs: nat, j: nat)
    requires c > 0 && j < NbChunks(c, limbs)
    ensures j * c < WordBits * limbs
  {
    MulMonotone(c, j, NbChunks(c, limbs) - 1);
  }

  /** Number of bits of window j that lie inside the scalar. */
  function Width(j: nat, c: nat, limbs: nat): (w: nat)
    requires c > 0 && j < NbChunks(c, limbs)
    ensures 0 < w <= c && j * c + w <= WordBits * limbs
    ensures w < c ==> j * c + w == WordBits * limbs
  {
    ChunkStart(c, limbs, j);
    MulAddRight(j, 1, c);
    if (j + 1) * c <= WordBits * limbs then c else WordBits * limbs - j * c
  }

  /** Every window below the top one is a full c bits wide. */
  lemma FullWidth(c: nat, limbs: nat, j: nat)
    requires c > 0 && j + 1 < NbChunks(c, limbs)
    ensures Width(j, c, limbs) == c
  {
    var n := NbChunks(c, limbs);
    MulMonotone(c, j + 1, n - 1);
    assert c * (n - 1) < WordBits * limbs;
    assert (j + 1) * c <= WordBits * limbs;
  }

  /** The raw value of the c-bit window j of v. */
  function Window(v: nat, j: nat, c: nat): (r: nat)
    ensures r < Pow2(c)
  {
    (v / Pow2(j * c)) % Pow2(c)
  }

  // ---------------------------------------------------------------------
  // Signed-digit recoding.

  /** The digit range [-2^(c-1), 2^(c-1)) of the recoding. */
  predicate IsDigit(d: int, c: nat)
    requires c >= 1
  {
    -(Pow2(c - 1) as int) <= d < Pow2(c - 1)
  }

  /**
    One step of the recoding: the window value w plus the incoming carry
    becomes a signed digit and an outgoing carry.
  */
  function RecodeStep(w: nat, carry: nat, c: nat): (r: (int, nat))
    requires c >= 1 && w < Pow2(c) && carry <= 1
    ensures r.1 <= 1
    ensures IsDigit(r.0, c)
    ensures r.0 + Pow2(c) * r.1 == w + carry
  {
    var d := w + carry;
    if d >= Pow2(c - 1) then (d - Pow2(c), 1) else (d, 0)
  }

  /** The carry entering window j. */
  function CarryAt(v: nat, c: nat, j: nat): (carry: nat)
    requires c >= 1
    ensures carry <= 1
  {
    if j == 0 then 0 else RecodeStep(Window(v, j - 1, c), CarryAt(v, c, j - 1), c).1
  }

  /** The signed digit of window j. */
  function DigitAt(v: nat, c: nat, j: nat): (d: int)
    requires c >= 1
    ensures IsDigit(d, c)
  {
    RecodeStep(Window(v, j, c), CarryAt(v, c, j), c).0
  }

  /** The first n signed digits of v. */
  function Digits(v: nat, c: nat, n: nat): (ds: seq<int>)
    requires c >= 1
    ensures |ds| == n
  {
    seq(n, j requires 0 <= j => DigitAt(v, c, j))
  }

  /** Σ s[k]·2^(k·c): the value of a sequence of base-2^c digits. */
  function WeightedSum(s: seq<int>, c: nat): int {
    if |s| == 0 then 0 else WeightedSum(s[..|s| - 1], c) + s[|s| - 1] * Pow2((|s| - 1) * c)
  }

  // ---------------------------------------------------------------------
  // Sign-magnitude encoding of a digit inside its window.

  /** The bits stored for digit d: d itself, or (-d-1) with the window's top bit set. */
  function Encode(d: int, c: nat): (bits: nat)
    requires c >= 1 && IsDigit(d, c)
    ensures bits < Pow2(c)
  {
    if d >= 0 then d else EncodeNegative(d, c); Or(-d - 1, Pow2(c - 1))
  }

  lemma EncodeNegative(d: int, c: nat)
    requires c >= 1 && IsDigit(d, c) && d < 0
    ensures Or(-d - 1, Pow2(c - 1)) == -d - 1 + Pow2(c - 1)
  {
    OrDisjoint(-d - 1, Pow2(c - 1), c - 1);
  }

  /** The digit that the stored window bits stand for. */
  function DigitOf(bits: nat, c: nat): (d: int)
    requires c >= 1 && bits < Pow2(c)
    ensures IsDigit(d, c)
  {
    if bits < Pow2(c - 1) then bits else Pow2(c - 1) - 1 - bits
  }

  /** Encoding is a bijection between the digit range and the c-bit window values. */
  lemma EncodeDecode(d: int, bits: nat, c: nat)
    requires c >= 1 && IsDigit(d, c) && bits < Pow2(c)
    ensures DigitOf(Encode(d, c), c) == d
    ensures Encode(DigitOf(bits, c), c) == bits
  {
    if d < 0 {
      EncodeNegative(d, c);
    }
    if bits >= Pow2(c - 1) {
      EncodeNegative(Pow2(c - 1) - 1 - bits, c);
    }
  }

  /** The encoding of window j, cut to the bits window j has inside the scalar. */
  function StoredWindow(v: nat, c: nat, limbs: nat, j: nat): (bits: nat)
    requires c >= 1 && j < NbChunks(c, limbs)
    ensures bits < Pow2(c)
  {
    NbChunkBound(c, limbs, j);
    Encode(DigitAt(v, c, j), c) % Pow2(Width(j, c, limbs))
  }

  /** The stored windows of v, one per chunk. */
  function StoredWindows(v: nat, c: nat, limbs: nat, n: nat): (s: seq<int>)
    requires c >= 1 && n <= NbChunks(c, limbs)
    ensures |s| == n
    ensures forall j :: 0 <= j < n ==> 0 <= s[j] < Pow2(c)
  {
    seq(n, j requires 0 <= j < n => StoredWindow(v, c, limbs, j))
  }

  lemma NbChunkBound(c: nat, limbs: nat, j: nat)
    requires c >= 1 && j < NbChunks(c, limbs)
    ensures j * c < WordBits * limbs
    ensures Width(j, c, limbs) <= c && Pow2(Width(j, c, limbs)) <= Pow2(c)
  {
    ChunkStart(c, limbs, j);
    Pow2Monotone(Width(j, c, limbs), c);
  }

  /**
    The condition under which the recoding loses nothing: no carry leaves the
    top window, and the top digit fits the bits and the 2^(Width-1) buckets
    of the top window.
  */
  predicate TopDigitFits(v: nat, c: nat, limbs: nat)
    requires c >= 1 && limbs > 0
  {
    var n := NbChunks(c, limbs);
    CarryAt(v, c, n) == 0 && DigitAt(v, c, n - 1) <= Pow2(Width(n - 1, c, limbs) - 1)
  }

  // ---------------------------------------------------------------------
  // Weighted sums.

  /** Window offsets add: 2^(a·c)·2^(b·c) == 2^((a+b)·c). */
  lemma Pow2Windows(a: nat, b: nat, c: nat)
    ensures Pow2(a * c) * Pow2(b * c) == Pow2((a + b) * c)
  {
    MulAddRight(a, b, c);
    Pow2Add(a * c, b * c);
  }

  lemma {:induction false} WeightedSumAppend(a: seq<int>, b: seq<int>, c: nat)
    ensures WeightedSum(a + b, c) == WeightedSum(a, c) + Pow2(|a| * c) * WeightedSum(b, c)
    decreases |b|
  {
    if |b| == 0 {
      assert a + b == a;
    } else {
      var b', x := b[..|b| - 1], b[|b| - 1];
      assert (a + b)[..|a + b| - 1] == a + b';
      assert (a + b)[|a + b| - 1] == x;
      WeightedSumAppend(a, b', c);
      var pa, pb := Pow2(|a| * c), Pow2((|b| - 1) * c);
      Pow2Windows(|a|, |b| - 1, c);
      assert |a| + (|b| - 1) == |a + b| - 1;
      var wb' := WeightedSum(b', c);
      assert WeightedSum(b, c) == wb' + x * pb;
      Distrib(pa, wb', x, pb);
    }
  }

  lemma Distrib(p: int, w: int, x: int, q: int)
    ensures p * (w + x * q) == p * w + x * (p * q)
  {
  }

  /** The Horner view of a weighted sum: s[0] + 2^c·(value of the rest). */
  lemma WeightedSumHorner(s: seq<int>, c: nat)
    requires |s| > 0
    ensures WeightedSum(s, c) == s[0] + Pow2(c) * WeightedSum(s[1..], c)
  {
    assert s == [s[0]] + s[1..];
    WeightedSumAppend([s[0]], s[1..], c);
    assert WeightedSum([s[0]], c) == s[0] by {
      assert [s[0]][..0] == [];
    }
  }

  /** One more window: 2^(n·c) == 2^(m·c)·2^c when n == m + 1. */
  lemma Pow2Next(n: nat, m: nat, c: nat)
    requires n == m + 1
    ensures Pow2(n * c) == Pow2(m * c) * Pow2(c)
  {
    MulNext(n, m, c);
    Pow2Add(m * c, c);
  }

  lemma DigitArith(lo: int, x: int, p: int, b: int, q: int)
    requires 0 <= lo < p && 0 <= x < b && q == p * b
    ensures 0 <= lo + x * p < q
  {
    MulMonotone(p, x, b - 1);
    assert p * (b - 1) == q - p;
  }

  /** Digits in [0, 2^c) make a value below 2^(|s|·c). */
  lemma {:induction false} WeightedSumBound(s: seq<int>, c: nat)
    requires forall k :: 0 <= k < |s| ==> 0 <= s[k] < Pow2(c)
    ensures 0 <= WeightedSum(s, c) < Pow2(|s| * c)
  {
    if |s| > 0 {
      var m := |s| - 1;
      var s', x := s[..m], s[m];
      WeightedSumBound(s', c);
      assert WeightedSum(s, c) == WeightedSum(s', c) + x * Pow2(m * c);
      Pow2Next(|s|, m, c);
      DigitArith(WeightedSum(s', c), x, Pow2(m * c), Pow2(c), Pow2(|s| * c));
    }
  }

  /** A weighted sum split around its digit j. */
  lemma WeightedSumAt(s: seq<int>, c: nat, j: nat)
    requires j < |s|
    ensures WeightedSum(s, c)
         == WeightedSum(s[..j], c) + Pow2(j * c) * (s[j] + Pow2(c) * WeightedSum(s[j + 1..], c))
  {
    var lo, mid, hi := s[..j], s[j..], s[j + 1..];
    SplitAt(s, j);
    var p := Pow2(j * c);
    var wm, rest := WeightedSum(mid, c), s[j] + Pow2(c) * WeightedSum(hi, c);
    WeightedSumAppend(lo, mid, c);
    assert WeightedSum(s, c) == WeightedSum(lo, c) + p * wm;
    WeightedSumHorner(mid, c);
    assert wm == rest;
    SubstProduct(p, wm, rest);
  }

  lemma SplitAt(s: seq<int>, j: nat)
    requires j < |s|
    ensures s == s[..j] + s[j..] && |s[..j]| == j
    ensures s[j..][0] == s[j] && s[j..][1..] == s[j + 1..]
  {
  }

  lemma SubstProduct(p: int, a: int, b: int)
    requires a == b
    ensures p * a == p * b
  {
  }

  /** Window j of lo + 2^(j·c)·(x + 2^c·hi), with lo below 2^(j·c) and x a c-bit value, is x. */
  lemma WindowOfDigit(v: nat, lo: nat, x: nat, hi: nat, j: nat, c: nat)
    requires lo < Pow2(j * c) && x < Pow2(c) && v == lo + Pow2(j * c) * (x + Pow2(c) * hi)
    ensures Window(v, j, c) == x
  {
    var p, rest := Pow2(j * c), x + Pow2(c) * hi;
    DivOfSum(lo, p, rest);
    assert v / p == rest;
    ModAddMultiple(x, hi, Pow2(c));
    DivModUnique(x, Pow2(c), 0, x);
  }

  /** Window j of a weighted sum of c-bit digits is digit j. */
  lemma WindowOfWeightedSum(s: seq<int>, c: nat, j: nat)
    requires forall k :: 0 <= k < |s| ==> 0 <= s[k] < Pow2(c)
    requires j < |s|
    ensures WeightedSum(s, c) >= 0 && Window(WeightedSum(s, c), j, c) == s[j]
  {
    WeightedSumAt(s, c, j);
    WeightedSumBound(s, c);
    WeightedSumBound(s[..j], c);
    WeightedSumBound(s[j + 1..], c);
    WindowOfDigit(WeightedSum(s, c), WeightedSum(s[..j], c), s[j], WeightedSum(s[j + 1..], c), j, c);
  }

  // ---------------------------------------------------------------------
  // The recoding preserves the value.

  /** Splitting v modulo 2^((j+1)c) at window j. */
  lemma WindowSplit(v: nat, c: nat, n: nat, j: nat)
    requires n == j + 1
    ensures v % Pow2(n * c) == v % Pow2(j * c) + Pow2(j * c) * Window(v, j, c)
  {
    Pow2Next(n, j, c);
    DivDiv(v, Pow2(j * c), Pow2(c));
  }

  /** The arithmetic of one recoding step, with every power named. */
  lemma CarryArith(wsm: int, wsn: int, cin: int, cout: int, d: int, w: int, p: int, b: int, q: int, modm: int, modn: int)
    requires wsm + cin * p == modm && wsn == wsm + d * p && modn == modm + p * w
    requires d + b * cout == w + cin && q == p * b
    ensures wsn + cout * q == modn
  {
    assert (d + b * cout) * p == (w + cin) * p;
  }

  /** Extending the digit sequence by one digit adds that digit at its weight. */
  lemma DigitsExtend(v: nat, c: nat, m: nat)
    requires c >= 1
    ensures WeightedSum(Digits(v, c, m + 1), c) == WeightedSum(Digits(v, c, m), c) + DigitAt(v, c, m) * Pow2(m * c)
  {
    assert Digits(v, c, m + 1)[..m] == Digits(v, c, m);
  }

  /**
    The first n digits, together with the carry leaving window n-1, make up
    the low n windows of v.
  */
  lemma {:induction false} RecodeValue(v: nat, c: nat, n: nat)
    requires c >= 1
    ensures WeightedSum(Digits(v, c, n), c) + CarryAt(v, c, n) * Pow2(n * c) == v % Pow2(n * c)
  {
    if n == 0 {
      assert Digits(v, c, 0) == [];
    } else {
      var m := n - 1;
      RecodeValue(v, c, m);
      DigitsExtend(v, c, m);
      WindowSplit(v, c, n, m);
      var w, cin := Window(v, m, c), CarryAt(v, c, m);
      var d, cout := DigitAt(v, c, m), CarryAt(v, c, n);
      Pow2Next(n, m, c);
      CarryArith(WeightedSum(Digits(v, c, m), c), WeightedSum(Digits(v, c, n), c), cin, cout, d, w,
                 Pow2(m * c), Pow2(c), Pow2(n * c), v % Pow2(m * c), v % Pow2(n * c));
    }
  }

  /** Without a final carry, the digits of a value below 2^(n·c) add up to it. */
  lemma RecodeExact(v: nat, c: nat, n: nat)
    requires c >= 1 && v < Pow2(n * c) && CarryAt(v, c, n) == 0
    ensures WeightedSum(Digits(v, c, n), c) == v
  {
    RecodeValue(v, c, n);
    DivModUnique(v, Pow2(n * c), 0, v);
  }

  lemma WindowOfZero(j: nat, c: nat)
    ensures Window(0, j, c) == 0
  {
    var p := Pow2(j * c);
    ZeroDivMod(p);
    ZeroDivMod(Pow2(c));
  }

  /** A zero scalar has only zero digits and no carries. */
  lemma {:induction false} ZeroDigits(c: nat, j: nat)
    requires c >= 1
    ensures CarryAt(0, c, j) == 0 && DigitAt(0, c, j) == 0
  {
    WindowOfZero(j, c);
    if j > 0 {
      ZeroDigits(c, j - 1);
      WindowOfZero(j - 1, c);
    }
  }

  /** The top window ends exactly at the last bit of the scalar. */
  lemma TopWidth(c: nat, limbs: nat)
    requires c >= 1 && limbs > 0
    ensures (NbChunks(c, limbs) - 1) * c + Width(NbChunks(c, limbs) - 1, c, limbs) == WordBits * limbs
  {
    var n := NbChunks(c, limbs);
    MulAddRight(n - 1, 1, c);
  }

  /** Below 2^(64·limbs - 2), the top window is below 2^(Width-2), or empty when it is one bit wide. */
  lemma TopWindowSmall(v: nat, c: nat, limbs: nat)
    requires c >= 2 && limbs > 0 && v < Pow2(WordBits * limbs - 2)
    ensures var n := NbChunks(c, limbs);
            var w := Width(n - 1, c, limbs);
            (w >= 2 ==> Window(v, n - 1, c) < Pow2(w - 2)) && (w < 2 ==> Window(v, n - 1, c) == 0)
  {
    var n := NbChunks(c, limbs);
    var top := (n - 1) * c;
    var w := Width(n - 1, c, limbs);
    var p := Pow2(top);
    TopWidth(c, limbs);
    if w >= 2 {
      Pow2Add(top, w - 2);
      DivNonneg(v, p);
      var q := v / p;
      DivBound(v, p, Pow2(w - 2));
      Pow2Monotone(w - 2, c);
      ModSmall(q, Pow2(c));
    } else {
      Pow2Monotone(WordBits * limbs - 2, top);
      DivModUnique(v, p, 0, v);
      ZeroDivMod(Pow2(c));
    }
  }

  /** A scalar that is a reduced field element (below 2^(64·limbs - 2)) loses nothing in the recoding. */
  lemma SmallScalarFits(v: nat, c: nat, limbs: nat)
    requires c >= 2 && limbs > 0 && v < Pow2(WordBits * limbs - 2)
    ensures TopDigitFits(v, c, limbs)
  {
    var n := NbChunks(c, limbs);
    var w := Width(n - 1, c, limbs);
    var win, cin := Window(v, n - 1, c), CarryAt(v, c, n - 1);
    TopWindowSmall(v, c, limbs);
    assert Pow2(c - 1) == 2 * Pow2(c - 2);
    if w >= 2 {
      Pow2Monotone(w - 2, c - 2);
      assert Pow2(w - 1) == 2 * Pow2(w - 2);
      assert win + cin <= Pow2(w - 2) < Pow2(c - 1);
    } else {
      Pow2Monotone(1, c - 1);
      assert win + cin <= 1 < Pow2(c - 1);
    }
  }
}
