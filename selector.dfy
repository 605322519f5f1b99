/**
  Window selectors of the bucket method.

  Window j of a scalar covers bits [j·c, j·c + c). A selector records where
  those bits live in the little-endian word sequence: the word `index`
  holding the low bits, the `shift` inside that word and, when c does not
  divide 64, whether the window continues into the next word. The same
  selector is used twice: to read the raw window while recoding
  (`Extract`) and to or the encoded digit back into a zeroed scalar
  (`Insert`), and again to read the encoded digit while filling buckets.
*/
module Selector {
  import opened Bits
  import opened Digits

  /** Where the bits of one c-bit window live inside a multi-word scalar. */
  datatype Selector = Selector(
    index: nat,             // word holding the low bits of the window
    mask: nat,              // c one-bits moved to the window, cut to 64 bits
    shift: nat,             // offset of the window inside that word
    multiWordSelect: bool,  // the window continues in word index + 1
    maskHigh: nat,          // the bits taken from word index + 1
    shiftHigh: nat)         // where those bits go inside the window

  /** The selector of window j for c-bit windows over `limbs` words. */
  function NewSelector(j: nat, c: nat, limbs: nat): (s: Selector)
    requires ValidWidth(c)
    ensures WordBits * s.index + s.shift == j * c && s.shift < WordBits
    ensures s.mask == ((Pow2(c) - 1) * Pow2(s.shift)) % Word
    ensures s.multiWordSelect <==> WordBits % c != 0 && s.shift + c > WordBits && s.index + 1 < limbs
    ensures s.multiWordSelect ==> s.shiftHigh == WordBits - s.shift && s.maskHigh == Pow2(s.shift + c - WordBits) - 1
  {
    var jc := j * c;
    var index := jc / WordBits;
    var shift := jc - index * WordBits;
    var mask := ((Pow2(c) - 1) * Pow2(shift)) % Word;
    var multi := WordBits % c != 0 && shift > WordBits - c && index < limbs - 1;
    if multi then
      var nbBitsHigh := shift - (WordBits - c);
      Selector(index, mask, shift, true, Pow2(nbBitsHigh) - 1, c - nbBitsHigh)
    else
      Selector(index, mask, shift, false, 0, 0)
  }

  /** The selector's words exist in a scalar of `limbs` words. */
  predicate InRange(s: Selector, n: nat) {
    s.index < n && (s.multiWordSelect ==> s.index + 1 < n)
  }

  /** The raw bits of the window: the masked low word shifted down, plus the masked high word shifted up. */
  function Extract(w: seq<nat>, s: Selector): nat
    requires InRange(s, |w|)
  {
    DivNonneg(And(w[s.index], s.mask), Pow2(s.shift));
    var low := And(w[s.index], s.mask) / Pow2(s.shift);
    if s.multiWordSelect then low + And(w[s.index + 1], s.maskHigh) * Pow2(s.shiftHigh) else low
  }

  /** Or-ing `bits` into the window: shifted up into the low word (cut to 64 bits), shifted down into the high word. */
  function Insert(w: seq<nat>, s: Selector, bits: nat): (r: seq<nat>)
    requires InRange(s, |w|)
    ensures |r| == |w|
  {
    var w1 := w[s.index := Or(w[s.index], (bits * Pow2(s.shift)) % Word)];
    if s.multiWordSelect then w1[s.index + 1 := Or(w1[s.index + 1], bits / Pow2(s.shiftHigh))] else w1
  }

  // ---------------------------------------------------------------------
  // Arithmetic of window positions.

  /** When c divides 64, a window never crosses a word boundary. */
  lemma DividesNoStraddle(j: nat, c: nat)
    requires 0 < c && WordBits % c == 0
    ensures (j * c) % WordBits + c <= WordBits
  {
    var t := WordBits / c;
    assert c * t == WordBits;
    var jc := j * c;
    var q, r := jc / WordBits, jc % WordBits;
    assert WordBits * q == c * (t * q) by { MulAssoc(c, t, q); }
    var k := j - t * q;
    assert r == c * k by { MulAddRight(j, -(t * q), c); }
    if k >= t {
      MulMonotone(c, t, k);
      assert false;
    }
    MulMonotone(c, k, t - 1);
    MulAddRight(t, -1, c);
  }

  /** Facts about the selector of a window that starts inside the scalar. */
  lemma SelectorFacts(j: nat, c: nat, limbs: nat)
    requires ValidWidth(c) && j * c < WordBits * limbs
    ensures var s := NewSelector(j, c, limbs);
            InRange(s, limbs) &&
            (s.shift + c > WordBits ==> WordBits % c != 0) &&
            (s.shift + c > WordBits && !s.multiWordSelect ==> s.index + 1 == limbs)
  {
    var s := NewSelector(j, c, limbs);
    if WordBits % c == 0 {
      DividesNoStraddle(j, c);
      assert (j * c) % WordBits == s.shift;
    }
  }

  /** x < 2^64 masked with c one-bits at offset sh (cut to 64 bits) and shifted down is window sh of x. */
  lemma MaskedShift(x: nat, c: nat, sh: nat, p: nat)
    requires x < Word && p == Pow2(sh)
    ensures And(x, ((Pow2(c) - 1) * p) % Word) / p == (x / p) % Pow2(c)
  {
    var m := (Pow2(c) - 1) * p;
    Pow2Word();
    AndTruncated(x, m, WordBits);
    AndShifted(x, Pow2(c) - 1, sh, p);
    var a := And(x / p, Pow2(c) - 1);
    DivModUnique(a * p, p, a, 0);
    AndLowOnes(x / p, c);
  }

  /** 2^64 splits at any offset sh below 64. */
  lemma WordSplit(sh: nat)
    requires sh <= WordBits
    ensures Word == Pow2(sh) * Pow2(WordBits - sh)
  {
    Pow2Word();
    Pow2Add(sh, WordBits - sh);
  }

  /** Dividing a value by the weight of the window start, with the value split around word idx. */
  lemma ShiftDown(v: nat, lo: nat, x: nat, hi: nat, idx: nat, sh: nat, jc: nat)
    requires sh < WordBits && jc == WordBits * idx + sh
    requires lo < Pow2(WordBits * idx) && Placed(v, lo, Pow2(WordBits * idx), x, hi)
    ensures v / Pow2(jc) == x / Pow2(sh) + Pow2(WordBits - sh) * hi
  {
    var P, p, Q := Pow2(WordBits * idx), Pow2(sh), Pow2(WordBits - sh);
    DivOfSum(lo, P, x + Word * hi);
    Pow2Add(WordBits * idx, sh);
    DivDiv(v, P, p);
    WordSplit(sh);
    assert Word * hi == p * (Q * hi) by { MulAssoc(p, Q, hi); }
    ModAddMultiple(x, Q * hi, p);
  }

  /** v is the value lo of the words below a word of weight P, plus word x and the value hi of the words above it. */
  predicate Placed(v: int, lo: int, P: int, x: int, hi: int) {
    v == lo + P * (x + Word * hi)
  }

  /** The value of a word sequence around word idx. */
  lemma SplitLimbs(w: seq<nat>, idx: nat)
    requires IsWords(w) && idx < |w|
    ensures LimbsValue(w[..idx]) < Pow2(WordBits * idx)
    ensures Placed(LimbsValue(w), LimbsValue(w[..idx]), Pow2(WordBits * idx), w[idx], LimbsValue(w[idx + 1..]))
  {
    LimbsValueAt(w, idx);
    assert IsWords(w[..idx]);
    LimbsValueBound(w[..idx]);
  }

  /** The words above idx, read from word idx + 1. */
  lemma NextLimb(w: seq<nat>, idx: nat)
    requires idx + 1 < |w|
    ensures LimbsValue(w[idx + 1..]) == w[idx + 1] + Word * LimbsValue(w[idx + 2..])
  {
    assert w[idx + 1..][1..] == w[idx + 2..];
  }

  // ---------------------------------------------------------------------
  // Reading a window.

  /** Window j of a word sequence, seen from the word idx where it starts. */
  lemma WindowAround(w: seq<nat>, j: nat, c: nat, idx: nat, sh: nat)
    requires IsWords(w) && idx < |w| && sh < WordBits && WordBits * idx + sh == j * c
    ensures Window(LimbsValue(w), j, c) == (w[idx] / Pow2(sh) + Pow2(WordBits - sh) * LimbsValue(w[idx + 1..])) % Pow2(c)
  {
    SplitLimbs(w, idx);
    ShiftDown(LimbsValue(w), LimbsValue(w[..idx]), w[idx], LimbsValue(w[idx + 1..]), idx, sh, j * c);
  }

  /** The low mask alone reads the window when it lies inside the word or nothing lies above the word. */
  lemma ExtractLow(x: nat, hi: nat, c: nat, sh: nat, mask: nat)
    requires x < Word && sh < WordBits && (sh + c <= WordBits || hi == 0)
    requires mask == ((Pow2(c) - 1) * Pow2(sh)) % Word
    ensures And(x, mask) / Pow2(sh) == (x / Pow2(sh) + Pow2(WordBits - sh) * hi) % Pow2(c)
  {
    MaskedShift(x, c, sh, Pow2(sh));
    if sh + c <= WordBits {
      Pow2Sum(c, WordBits - sh - c, WordBits - sh);
      ModOfMultiple(x / Pow2(sh), hi, Pow2(c), Pow2(WordBits - sh - c), Pow2(WordBits - sh));
    }
  }

  /** When the window continues past word idx, the low mask keeps every bit of the word from the shift up. */
  lemma StraddleLow(x: nat, c: nat, sh: nat, mask: nat)
    requires x < Word && sh < WordBits && sh + c > WordBits
    requires mask == ((Pow2(c) - 1) * Pow2(sh)) % Word
    ensures And(x, mask) / Pow2(sh) == x / Pow2(sh) < Pow2(WordBits - sh)
  {
    var p, Q, K := Pow2(sh), Pow2(WordBits - sh), Pow2(sh + c - WordBits);
    MaskedShift(x, c, sh, p);
    WordSplit(sh);
    DivBound(x, p, Q);
    Pow2Sum(WordBits - sh, sh + c - WordBits, c);
    MulMonotone(Q, 1, K);
    DivNonneg(x, p);
    ModSmall(x / p, Pow2(c));
  }

  /** The high mask keeps the low k bits of word idx + 1, which are the low k bits of everything above word idx. */
  lemma StraddleHigh(y: nat, rest: nat, k: nat, maskHigh: nat)
    requires k < WordBits && maskHigh == Pow2(k) - 1
    ensures And(y, maskHigh) == (y + Word * rest) % Pow2(k)
  {
    WordSplit(k);
    ModOfMultiple(y, rest, Pow2(k), Pow2(WordBits - k), Word);
    AndLowOnes(y, k);
  }

  /** A window of c bits starting at offset sh, crossing into the next word. */
  lemma StraddleMod(a: nat, hi: nat, c: nat, sh: nat)
    requires sh < WordBits && sh + c > WordBits && a < Pow2(WordBits - sh)
    ensures (a + Pow2(WordBits - sh) * hi) % Pow2(c) == a + Pow2(WordBits - sh) * (hi % Pow2(sh + c - WordBits))
  {
    Pow2Sum(WordBits - sh, sh + c - WordBits, c);
    ModProduct(a, hi, Pow2(WordBits - sh), Pow2(sh + c - WordBits), Pow2(c));
  }

  /** Both masks together read a window that continues into the next word. */
  lemma ExtractStraddle(x: nat, y: nat, rest: nat, c: nat, sh: nat, mask: nat, maskHigh: nat, shiftHigh: nat)
    requires x < Word && c < WordBits && sh < WordBits && sh + c > WordBits
    requires mask == ((Pow2(c) - 1) * Pow2(sh)) % Word
    requires shiftHigh == WordBits - sh && maskHigh == Pow2(sh + c - WordBits) - 1
    ensures And(x, mask) / Pow2(sh) + And(y, maskHigh) * Pow2(shiftHigh)
         == (x / Pow2(sh) + Pow2(WordBits - sh) * (y + Word * rest)) % Pow2(c)
  {
    var k := sh + c - WordBits;
    StraddleLow(x, c, sh, mask);
    StraddleHigh(y, rest, k, maskHigh);
    DivNonneg(x, Pow2(sh));
    StraddleMod(x / Pow2(sh), y + Word * rest, c, sh);
    SumOfParts(And(x, mask) / Pow2(sh), And(y, maskHigh), Pow2(shiftHigh), x / Pow2(sh), Pow2(WordBits - sh),
               (y + Word * rest) % Pow2(k), (x / Pow2(sh) + Pow2(WordBits - sh) * (y + Word * rest)) % Pow2(c));
  }

  lemma SumOfParts(lowPart: int, highPart: int, shifted: int, a: int, Q: int, h: int, r: int)
    requires lowPart == a && highPart == h && shifted == Q && r == a + Q * h
    ensures lowPart + highPart * shifted == r
  {
  }

  /** Extracting window j through its selector reads bits [j·c, j·c + c) of the scalar. */
  lemma ExtractWindow(w: seq<nat>, j: nat, c: nat, limbs: nat)
    requires ValidWidth(c) && IsWords(w) && |w| == limbs && j * c < WordBits * limbs
    ensures InRange(NewSelector(j, c, limbs), |w|)
    ensures Extract(w, NewSelector(j, c, limbs)) == Window(LimbsValue(w), j, c)
  {
    var s := NewSelector(j, c, limbs);
    SelectorFacts(j, c, limbs);
    var idx, sh := s.index, s.shift;
    WindowAround(w, j, c, idx, sh);
    if s.multiWordSelect {
      NextLimb(w, idx);
      ExtractStraddle(w[idx], w[idx + 1], LimbsValue(w[idx + 2..]), c, sh, s.mask, s.maskHigh, s.shiftHigh);
    } else if sh + c <= WordBits {
      ExtractLow(w[idx], LimbsValue(w[idx + 1..]), c, sh, s.mask);
    } else {
      assert w[idx + 1..] == [];
      ExtractLow(w[idx], 0, c, sh, s.mask);
    }
  }

  // ---------------------------------------------------------------------
  // Writing a window.

  /** A value below 2^(j·c) has nothing at or above word idx except low bits of word idx. */
  lemma BelowWindow(w: seq<nat>, idx: nat, sh: nat, jc: nat)
    requires IsWords(w) && idx < |w| && sh < WordBits && jc == WordBits * idx + sh
    requires LimbsValue(w) < Pow2(jc)
    ensures w[idx] < Pow2(sh) && LimbsValue(w[idx + 1..]) == 0
  {
    SplitLimbs(w, idx);
    Pow2Sum(WordBits * idx, sh, jc);
    ProductBelow(LimbsValue(w), LimbsValue(w[..idx]), Pow2(WordBits * idx), w[idx], LimbsValue(w[idx + 1..]), Pow2(jc), Pow2(sh));
    WordSplit(sh);
    HighZero(w[idx], LimbsValue(w[idx + 1..]), Pow2(sh), Pow2(WordBits - sh));
  }

  lemma ProductBelow(v: int, lo: int, P: int, x: int, hi: int, q: int, u: int)
    requires P > 0 && lo >= 0 && Placed(v, lo, P, x, hi) && v < q && q == P * u
    ensures x + Word * hi < u
  {
    if x + Word * hi >= u {
      MulMonotone(P, u, x + Word * hi);
    }
  }

  lemma HighZero(x: nat, hi: nat, p: nat, Q: nat)
    requires Q > 0 && Word == p * Q && x + Word * hi < p
    ensures hi == 0 && x < p
  {
    MulMonotone(p, 1, Q);
    if hi > 0 {
      MulMonotone(Word, 1, hi);
    }
  }

  /** Shifting up by p and keeping p·q values keeps the low q values of b. */
  lemma ModShifted(b: nat, p: nat, q: nat, pq: nat)
    requires p > 0 && q > 0 && pq == p * q
    ensures (b * p) % pq == (b % q) * p
    ensures ((b % q) * p) % p == 0
    ensures (b % q) * p + pq * (b / q) == b * p
  {
    var B, r := b / q, b % q;
    assert b * p == pq * B + r * p by {
      MulAddRight(q * B, r, p);
      MulAssoc(p, q, B);
    }
    MulMonotone(p, r, q - 1);
    DivModUnique(b * p, pq, B, r * p);
    DivModUnique(r * p, p, r, 0);
  }

  /** The low word after the or: the old low bits plus the window bits that fit in the word (W stands for 2^64). */
  lemma OrLow(x: nat, bits: nat, sh: nat, p: nat, Q: nat, W: nat)
    requires p == Pow2(sh) && Q > 0 && W == p * Q && x < p
    ensures Or(x, (bits * p) % W) == x + (bits % Q) * p
    ensures x + (bits % Q) * p < W
  {
    ModShifted(bits, p, Q, W);
    var e := bits % Q;
    OrDisjoint(x, e * p, sh);
    LowFits(x, e, p, Q);
  }

  lemma LowFits(x: nat, e: nat, p: nat, Q: nat)
    requires x < p && e < Q
    ensures x + e * p < p * Q
  {
    MulMonotone(p, e, Q - 1);
  }

  /** Replacing word idx by y changes the value by (y - w[idx])·2^(64·idx). */
  lemma ReplaceWord(w: seq<nat>, idx: nat, y: nat)
    requires IsWords(w) && idx < |w| && y < Word
    ensures IsWords(w[idx := y])
    ensures LimbsValue(w[idx := y]) == LimbsValue(w) + (y - w[idx]) * Pow2(WordBits * idx)
  {
    var r := w[idx := y];
    assert r[..idx] == w[..idx] && r[idx + 1..] == w[idx + 1..];
    SplitLimbs(w, idx);
    SplitLimbs(r, idx);
    PlacedChange(LimbsValue(w), LimbsValue(r), LimbsValue(w[..idx]), Pow2(WordBits * idx), w[idx], y, LimbsValue(w[idx + 1..]));
  }

  lemma PlacedChange(v: int, v1: int, lo: int, P: int, x: int, y: int, hi: int)
    requires Placed(v, lo, P, x, hi) && Placed(v1, lo, P, y, hi)
    ensures v1 == v + (y - x) * P
  {
  }

  /** The number of bits of window j, from the word where it starts. */
  lemma WidthAt(j: nat, c: nat, limbs: nat, idx: nat, sh: nat)
    requires ValidWidth(c) && j < NbChunks(c, limbs) && sh < WordBits && WordBits * idx + sh == j * c
    ensures sh + c <= WordBits || idx + 1 < limbs ==> Width(j, c, limbs) == c
    ensures sh + c > WordBits && idx + 1 >= limbs ==> Width(j, c, limbs) == WordBits - sh
  {
    ChunkStart(c, limbs, j);
    WidthLinear(j * c, Width(j, c, limbs), c, limbs, idx, sh);
  }

  lemma WidthLinear(jc: int, wd: int, c: int, limbs: int, idx: int, sh: int)
    requires 0 < wd <= c < WordBits && jc + wd <= WordBits * limbs && (wd < c ==> jc + wd == WordBits * limbs)
    requires 0 <= sh < WordBits && WordBits * idx + sh == jc && jc < WordBits * limbs
    ensures sh + c <= WordBits || idx + 1 < limbs ==> wd == c
    ensures sh + c > WordBits && idx + 1 >= limbs ==> wd == WordBits - sh
  {
  }

  /** The low word of an insertion that stays inside word idx. */
  lemma InsertInside(w: seq<nat>, idx: nat, sh: nat, bits: nat, y: nat, jc: nat)
    requires IsWords(w) && idx < |w| && sh < WordBits && w[idx] < Pow2(sh) && jc == WordBits * idx + sh
    requires y == Or(w[idx], (bits * Pow2(sh)) % Word)
    ensures y < Word
    ensures LimbsValue(w[idx := y]) == LimbsValue(w) + (bits % Pow2(WordBits - sh)) * Pow2(jc)
  {
    var p, Q, P := Pow2(sh), Pow2(WordBits - sh), Pow2(WordBits * idx);
    var e := bits % Q;
    assert y == w[idx] + e * p && y < Word by {
      WordSplit(sh);
      OrLow(w[idx], bits, sh, p, Q, Word);
    }
    ReplaceWord(w, idx, y);
    Pow2Sum(WordBits * idx, sh, jc);
    ScaleWord(LimbsValue(w[idx := y]), LimbsValue(w), y, w[idx], e, p, P, Pow2(jc));
  }

  lemma ScaleWord(v1: int, v: int, y: int, x: int, e: int, p: int, P: int, q: int)
    requires v1 == v + (y - x) * P && y == x + e * p && q == P * p
    ensures v1 == v + e * q
  {
    MulAssoc(e, p, P);
  }

  /** The word after an insertion that continues into the empty word idx + 1. */
  lemma InsertAcross(w: seq<nat>, idx: nat, sh: nat, bits: nat, y: nat, z: nat, jc: nat)
    requires IsWords(w) && idx + 1 < |w| && sh < WordBits && jc == WordBits * idx + sh
    requires w[idx + 1] == 0 && bits < Word
    requires y < Word && LimbsValue(w[idx := y]) == LimbsValue(w) + (bits % Pow2(WordBits - sh)) * Pow2(jc)
    requires z == bits / Pow2(WordBits - sh)
    ensures IsWords(w[idx := y][idx + 1 := z])
    ensures LimbsValue(w[idx := y][idx + 1 := z]) == LimbsValue(w) + bits * Pow2(jc)
  {
    var p, Q, P := Pow2(sh), Pow2(WordBits - sh), Pow2(WordBits * idx);
    DivLe(bits, Q);
    ReplaceWord(w[idx := y], idx + 1, z);
    WordSplit(sh);
    ModShifted(bits, p, Q, Word);
    Pow2Sum(WordBits * idx, sh, jc);
    Pow2Sum(jc, WordBits - sh, WordBits * (idx + 1));
    AcrossArith(bits % Q, z, bits, p, Q, P, Pow2(jc), Pow2(WordBits * (idx + 1)));
  }

  lemma AcrossArith(e: int, z: int, b: int, p: int, Q: int, P: int, q: int, P1: int)
    requires e * p + (p * Q) * z == b * p && q == P * p && P1 == q * Q
    ensures e * q + z * P1 == b * q
  {
    calc {
      e * q + z * P1;
      == { MulAssoc(e, P, p); MulAssoc(z, q, Q); }
      P * (e * p) + P * ((p * Q) * z);
      == { MulAddRight(e * p, (p * Q) * z, P); }
      P * (b * p);
      ==
      b * q;
    }
  }

  /** Or-ing into a window that lies in word idx alone. */
  lemma InsertOneWord(w: seq<nat>, s: Selector, jc: nat, bits: nat)
    requires IsWords(w) && InRange(s, |w|) && !s.multiWordSelect
    requires s.shift < WordBits && jc == WordBits * s.index + s.shift && w[s.index] < Pow2(s.shift)
    ensures IsWords(Insert(w, s, bits))
    ensures LimbsValue(Insert(w, s, bits)) == LimbsValue(w) + (bits % Pow2(WordBits - s.shift)) * Pow2(jc)
  {
    var y := Or(w[s.index], (bits * Pow2(s.shift)) % Word);
    InsertInside(w, s.index, s.shift, bits, y, jc);
    ReplaceWord(w, s.index, y);
  }

  /** Or-ing into a window that continues into the empty word idx + 1. */
  lemma InsertTwoWords(w: seq<nat>, s: Selector, jc: nat, c: nat, bits: nat)
    requires IsWords(w) && InRange(s, |w|) && s.multiWordSelect && c <= WordBits && bits < Pow2(c)
    requires s.shift < WordBits && jc == WordBits * s.index + s.shift && s.shiftHigh == WordBits - s.shift
    requires w[s.index] < Pow2(s.shift) && LimbsValue(w[s.index + 1..]) == 0
    ensures IsWords(Insert(w, s, bits))
    ensures LimbsValue(Insert(w, s, bits)) == LimbsValue(w) + bits * Pow2(jc)
  {
    var idx, sh := s.index, s.shift;
    var y := Or(w[idx], (bits * Pow2(sh)) % Word);
    DivNonneg(bits, Pow2(s.shiftHigh));
    var z := bits / Pow2(s.shiftHigh);
    assert w[idx + 1] == 0 by { NextLimb(w, idx); }
    assert Insert(w, s, bits) == w[idx := y][idx + 1 := z];
    assert bits < Word by { Pow2Monotone(c, WordBits); Pow2Word(); }
    InsertInside(w, idx, sh, bits, y, jc);
    assert z == bits / Pow2(WordBits - sh);
    InsertAcross(w, idx, sh, bits, y, z, jc);
  }

  /** Or-ing a c-bit value into window j of a value below 2^(j·c) adds it there, cut to the bits the scalar has. */
  lemma InsertWindow(w: seq<nat>, j: nat, c: nat, limbs: nat, bits: nat)
    requires ValidWidth(c) && IsWords(w) && |w| == limbs && j < NbChunks(c, limbs)
    requires LimbsValue(w) < Pow2(j * c) && bits < Pow2(c)
    ensures InRange(NewSelector(j, c, limbs), |w|)
    ensures IsWords(Insert(w, NewSelector(j, c, limbs), bits))
    ensures LimbsValue(Insert(w, NewSelector(j, c, limbs), bits))
         == LimbsValue(w) + (bits % Pow2(Width(j, c, limbs))) * Pow2(j * c)
  {
    var s := NewSelector(j, c, limbs);
    ChunkStart(c, limbs, j);
    SelectorFacts(j, c, limbs);
    var idx, sh := s.index, s.shift;
    BelowWindow(w, idx, sh, j * c);
    WidthAt(j, c, limbs, idx, sh);
    if s.multiWordSelect {
      InsertTwoWords(w, s, j * c, c, bits);
      ModSmall(bits, Pow2(c));
    } else {
      InsertOneWord(w, s, j * c, bits);
      if sh + c <= WordBits {
        Pow2Monotone(c, WordBits - sh);
        ModSmall(bits, Pow2(WordBits - sh));
        ModSmall(bits, Pow2(c));
      }
    }
  }
}
