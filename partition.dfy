/**
  Scalar partitioning of the bucket method (partitionScalars).

  Every scalar is recoded into signed c-bit digits, window by window from
  the least significant one, with a carry of one moving into the next window
  whenever a window value reaches 2^(c-1). Each digit is written back in
  sign-magnitude form into the same window of a fresh, zeroed scalar: the
  digitised scalar. Scalars that fit on one word and have no bit above the
  low c bits are counted as small.
*/
module Partition {
  import opened Bits
  import opened Digits
  import opened Selector

  // ---------------------------------------------------------------------
  // Specification.

  /** The value whose windows hold the stored digits of v. */
  function Digitized(v: nat, c: nat, limbs: nat): nat
    requires ValidWidth(c)
  {
    var s := StoredWindows(v, c, limbs, NbChunks(c, limbs));
    WeightedSumBound(s, c);
    WeightedSum(s, c)
  }

  /** Every word above the lowest one is zero. */
  predicate FitsOnOneWord(s: seq<nat>) {
    forall k :: 1 <= k < |s| ==> s[k] == 0
  }

  /** The test the source uses to count a scalar as small. */
  predicate IsSmall(s: seq<nat>, c: nat) {
    |s| > 0 && FitsOnOneWord(s) && s[0] != 0 && And(s[0], Pow2(c) - 1) == s[0]
  }

  /** The number of small scalars among the first n. */
  function SmallCount(scalars: seq<seq<nat>>, c: nat, n: nat): nat
    requires n <= |scalars|
  {
    if n == 0 then 0 else SmallCount(scalars, c, n - 1) + (if IsSmall(scalars[n - 1], c) then 1 else 0)
  }

  /** A digitised scalar of the right shape holding the stored digits of the scalar. */
  predicate DigitizedRow(row: seq<nat>, scalar: seq<nat>, c: nat, limbs: nat)
    requires ValidWidth(c)
  {
    |row| == limbs && IsWords(row) && LimbsValue(row) == Digitized(LimbsValue(scalar), c, limbs)
  }

  // ---------------------------------------------------------------------
  // The partitioning itself.

  /** The selector of every window, computed once. */
  method ComputeSelectors(c: nat, limbs: nat) returns (selectors: array<Selector>)
    requires ValidWidth(c)
    ensures selectors.Length == NbChunks(c, limbs)
    ensures forall j :: 0 <= j < selectors.Length ==> selectors[j] == NewSelector(j, c, limbs)
  {
    var nbChunks := WordBits * limbs / c;
    if (WordBits * limbs) % c != 0 {
      nbChunks := nbChunks + 1;
    }
    selectors := new Selector[nbChunks];
    var chunk := 0;
    while chunk < nbChunks
      invariant 0 <= chunk <= nbChunks
      invariant forall j :: 0 <= j < chunk ==> selectors[j] == NewSelector(j, c, limbs)
    {
      selectors[chunk] := NewSelector(chunk, c, limbs);
      chunk := chunk + 1;
    }
  }

  /** Recodes one scalar window by window and ors each encoded digit into a zeroed scalar. */
  method DigitizeScalar(scalar: seq<nat>, selectors: array<Selector>, c: nat, limbs: nat) returns (row: seq<nat>)
    requires ValidWidth(c) && IsWords(scalar) && |scalar| == limbs
    requires selectors.Length == NbChunks(c, limbs)
    requires forall j :: 0 <= j < selectors.Length ==> selectors[j] == NewSelector(j, c, limbs)
    ensures DigitizedRow(row, scalar, c, limbs)
  {
    ghost var v := LimbsValue(scalar);
    var nbChunks := selectors.Length;
    row := Zeros(limbs);
    ZerosAreZero(limbs);
    var carry := 0;
    var chunk := 0;
    while chunk < nbChunks
      invariant 0 <= chunk <= nbChunks && carry == CarryAt(v, c, chunk)
      invariant IsWords(row) && |row| == limbs
      invariant LimbsValue(row) == WeightedSum(StoredWindows(v, c, limbs, chunk), c)
    {
      var s := selectors[chunk];
      NbChunkBound(c, limbs, chunk);
      ExtractWindow(scalar, chunk, c, limbs);
      var digit: int := carry + Extract(scalar, s);
      carry := 0;
      RecodeAt(v, c, chunk, digit);
      if digit == 0 {
        ZeroStep(v, c, limbs, chunk);
        chunk := chunk + 1;
        continue;
      }
      if digit >= Pow2(c - 1) {
        digit := digit - Pow2(c);
        carry := 1;
      }
      assert digit == DigitAt(v, c, chunk);
      var bits := Encode(digit, c);
      InsertStep(row, v, c, limbs, chunk, bits);
      row := Insert(row, s, bits);
      chunk := chunk + 1;
    }
  }

  /**
    The work done for scalar i: a scalar that fits on one word and is zero
    keeps its zeroed row; any other scalar is digitised into row i, and
    counted as small when it fits on one word and has no bit above the low
    c bits.
  */
  method PartitionScalar(scalars: seq<seq<nat>>, i: nat, selectors: array<Selector>, c: nat, limbs: nat, toReturn: array<seq<nat>>)
    returns (small: bool)
    requires ValidWidth(c) && limbs > 0 && i < |scalars| == toReturn.Length
    requires IsWords(scalars[i]) && |scalars[i]| == limbs
    requires selectors.Length == NbChunks(c, limbs)
    requires forall j :: 0 <= j < selectors.Length ==> selectors[j] == NewSelector(j, c, limbs)
    requires RowsDigitized(toReturn[..], scalars, c, limbs, i)
    modifies toReturn
    ensures RowsDigitized(toReturn[..], scalars, c, limbs, i + 1)
    ensures small == IsSmall(scalars[i], c)
  {
    var scalar := scalars[i];
    var mask := Pow2(c) - 1;
    ghost var before := toReturn[..];
    var row := Zeros(limbs);
    small := false;
    if FitsOnOneWord(scalar) && scalar[0] == 0 {
      ZeroRow(scalar, c, limbs);
    } else {
      if FitsOnOneWord(scalar) && And(scalar[0], mask) == scalar[0] {
        small := true;
      }
      row := DigitizeScalar(scalar, selectors, c, limbs);
    }
    toReturn[i] := row;
    assert toReturn[..] == before[i := row];
    RowsExtend(before, row, scalars, c, limbs, i);
  }

  /**
    Digitises every scalar and counts the small ones. A scalar that fits on
    one word and is zero is skipped: its digitised scalar stays zero.
  */
  method PartitionScalars(scalars: seq<seq<nat>>, c: nat, limbs: nat) returns (toReturn: array<seq<nat>>, smallValues: nat)
    requires ValidWidth(c) && limbs > 0
    requires forall i :: 0 <= i < |scalars| ==> IsWords(scalars[i]) && |scalars[i]| == limbs
    ensures toReturn.Length == |scalars|
    ensures forall i :: 0 <= i < |scalars| ==> DigitizedRow(toReturn[i], scalars[i], c, limbs)
    ensures smallValues == SmallCount(scalars, c, |scalars|)
  {
    var selectors := ComputeSelectors(c, limbs);
    toReturn := new seq<nat>[|scalars|](_ => Zeros(limbs));
    smallValues := 0;
    var i := 0;
    while i < |scalars|
      modifies toReturn
      invariant 0 <= i <= |scalars|
      invariant smallValues == SmallCount(scalars, c, i)
      invariant RowsDigitized(toReturn[..], scalars, c, limbs, i)
    {
      var small := PartitionScalar(scalars, i, selectors, c, limbs, toReturn);
      ghost var counted := smallValues;
      if small {
        smallValues := smallValues + 1;
      }
      SmallCountStep(scalars, c, i, counted, small, smallValues);
      i := i + 1;
    }
    RowsDigitizedAll(toReturn[..], scalars, c, limbs, |scalars|);
  }

  /** The first n rows hold the digitised values of the first n scalars. */
  predicate RowsDigitized(rows: seq<seq<nat>>, scalars: seq<seq<nat>>, c: nat, limbs: nat, n: nat)
    requires ValidWidth(c)
  {
    n <= |rows| && n <= |scalars| &&
    (n == 0 || (RowsDigitized(rows, scalars, c, limbs, n - 1) && DigitizedRow(rows[n - 1], scalars[n - 1], c, limbs)))
  }

  lemma {:induction false} RowsDigitizedAll(rows: seq<seq<nat>>, scalars: seq<seq<nat>>, c: nat, limbs: nat, n: nat)
    requires ValidWidth(c) && RowsDigitized(rows, scalars, c, limbs, n)
    ensures forall k :: 0 <= k < n ==> DigitizedRow(rows[k], scalars[k], c, limbs)
  {
    if n > 0 {
      RowsDigitizedAll(rows, scalars, c, limbs, n - 1);
    }
  }

  /** Rows past the first n do not matter. */
  lemma {:induction false} RowsUnchanged(rows: seq<seq<nat>>, rows': seq<seq<nat>>, scalars: seq<seq<nat>>, c: nat, limbs: nat, n: nat)
    requires ValidWidth(c) && RowsDigitized(rows, scalars, c, limbs, n)
    requires n <= |rows'| && rows'[..n] == rows[..n]
    ensures RowsDigitized(rows', scalars, c, limbs, n)
  {
    if n > 0 {
      assert rows'[..n - 1] == rows[..n - 1];
      assert rows'[n - 1] == rows'[..n][n - 1];
      RowsUnchanged(rows, rows', scalars, c, limbs, n - 1);
    }
  }

  /** Writing the digitised row i extends the digitised prefix by one row. */
  lemma RowsExtend(rows: seq<seq<nat>>, row: seq<nat>, scalars: seq<seq<nat>>, c: nat, limbs: nat, i: nat)
    requires ValidWidth(c) && i < |rows| && i < |scalars|
    requires RowsDigitized(rows, scalars, c, limbs, i) && DigitizedRow(row, scalars[i], c, limbs)
    ensures RowsDigitized(rows[i := row], scalars, c, limbs, i + 1)
  {
    RowsUnchanged(rows, rows[i := row], scalars, c, limbs, i);
  }

  /** A zero scalar needs no digitising: the zeroed row already holds its digitised value. */
  lemma ZeroRow(scalar: seq<nat>, c: nat, limbs: nat)
    requires ValidWidth(c) && |scalar| == limbs > 0 && FitsOnOneWord(scalar) && scalar[0] == 0
    ensures DigitizedRow(Zeros(limbs), scalar, c, limbs)
  {
    OneWordValue(scalar);
    DigitizedZero(c, limbs);
  }

  /** Counting one more scalar. */
  lemma SmallCountStep(scalars: seq<seq<nat>>, c: nat, i: nat, counted: nat, small: bool, count: nat)
    requires i < |scalars| && counted == SmallCount(scalars, c, i) && small == IsSmall(scalars[i], c)
    requires count == if small then counted + 1 else counted
    ensures count == SmallCount(scalars, c, i + 1)
  {
  }

  // ---------------------------------------------------------------------
  // One step of the recoding loop.

  /** A window whose value plus carry is zero stores nothing and passes no carry on. */
  lemma ZeroStep(v: nat, c: nat, limbs: nat, j: nat)
    requires ValidWidth(c) && j < NbChunks(c, limbs)
    requires Window(v, j, c) + CarryAt(v, c, j) == 0
    ensures CarryAt(v, c, j + 1) == 0
    ensures WeightedSum(StoredWindows(v, c, limbs, j + 1), c) == WeightedSum(StoredWindows(v, c, limbs, j), c)
  {
    assert DigitAt(v, c, j) == 0;
    ZeroDivMod(Pow2(Width(j, c, limbs)));
    assert StoredWindow(v, c, limbs, j) == 0;
    StoredAppend(v, c, limbs, j);
  }

  /** One recoding step as the loop performs it on the window value plus the carry. */
  lemma RecodeAt(v: nat, c: nat, j: nat, sum: int)
    requires c >= 1 && sum == Window(v, j, c) + CarryAt(v, c, j)
    ensures sum >= Pow2(c - 1) ==> DigitAt(v, c, j) == sum - Pow2(c) && CarryAt(v, c, j + 1) == 1
    ensures sum < Pow2(c - 1) ==> DigitAt(v, c, j) == sum && CarryAt(v, c, j + 1) == 0
  {
  }

  /** The stored windows grow by one window at a time. */
  lemma StoredAppend(v: nat, c: nat, limbs: nat, j: nat)
    requires ValidWidth(c) && j < NbChunks(c, limbs)
    ensures WeightedSum(StoredWindows(v, c, limbs, j + 1), c)
         == WeightedSum(StoredWindows(v, c, limbs, j), c) + StoredWindow(v, c, limbs, j) * Pow2(j * c)
  {
    var s := StoredWindows(v, c, limbs, j + 1);
    assert s[..j] == StoredWindows(v, c, limbs, j);
  }

  /** Or-ing the encoded digit into window j of the partial result extends it by the stored window j. */
  lemma InsertStep(w: seq<nat>, v: nat, c: nat, limbs: nat, j: nat, bits: nat)
    requires ValidWidth(c) && j < NbChunks(c, limbs) && IsWords(w) && |w| == limbs
    requires LimbsValue(w) == WeightedSum(StoredWindows(v, c, limbs, j), c)
    requires bits == Encode(DigitAt(v, c, j), c)
    ensures InRange(NewSelector(j, c, limbs), |w|)
    ensures IsWords(Insert(w, NewSelector(j, c, limbs), bits))
    ensures LimbsValue(Insert(w, NewSelector(j, c, limbs), bits)) == WeightedSum(StoredWindows(v, c, limbs, j + 1), c)
  {
    NbChunkBound(c, limbs, j);
    WeightedSumBound(StoredWindows(v, c, limbs, j), c);
    InsertWindow(w, j, c, limbs, bits);
    StoredAppend(v, c, limbs, j);
  }

  // ---------------------------------------------------------------------
  // What the digitised scalar holds.

  /** Window j of the digitised scalar is the stored window j. */
  lemma DigitizedWindow(v: nat, c: nat, limbs: nat, j: nat)
    requires ValidWidth(c) && j < NbChunks(c, limbs)
    ensures Window(Digitized(v, c, limbs), j, c) == StoredWindow(v, c, limbs, j)
  {
    WindowOfWeightedSum(StoredWindows(v, c, limbs, NbChunks(c, limbs)), c, j);
  }

  /**
    When the recoding loses nothing, decoding window j of the digitised
    scalar gives back digit j, and its magnitude is at most half the window
    the scalar has there: 2^(c-1) below the top, 2^(Width-1) at the top.
  */
  lemma DigitizedDigit(v: nat, c: nat, limbs: nat, j: nat)
    requires ValidWidth(c) && limbs > 0 && j < NbChunks(c, limbs) && TopDigitFits(v, c, limbs)
    ensures DigitOf(Window(Digitized(v, c, limbs), j, c), c) == DigitAt(v, c, j)
    ensures -(Pow2(Width(j, c, limbs) - 1) as int) <= DigitAt(v, c, j) <= Pow2(Width(j, c, limbs) - 1)
  {
    DigitizedWindow(v, c, limbs, j);
    var n := NbChunks(c, limbs);
    var d := DigitAt(v, c, j);
    var w := Width(j, c, limbs);
    NbChunkBound(c, limbs, j);
    if j + 1 < n {
      FullWidth(c, limbs, j);
    }
    if w == c {
      ModSmall(Encode(d, c), Pow2(c));
      EncodeDecode(d, 0, c);
    } else {
      assert j == n - 1;
      TopDigit(v, c, limbs);
    }
  }

  /** The top digit of a scalar whose recoding loses nothing, in a window narrower than c. */
  lemma TopDigit(v: nat, c: nat, limbs: nat)
    requires ValidWidth(c) && limbs > 0 && TopDigitFits(v, c, limbs)
    requires Width(NbChunks(c, limbs) - 1, c, limbs) < c
    ensures var j := NbChunks(c, limbs) - 1;
            0 <= DigitAt(v, c, j) <= Pow2(Width(j, c, limbs) - 1) &&
            DigitOf(StoredWindow(v, c, limbs, j), c) == DigitAt(v, c, j)
  {
    var j := NbChunks(c, limbs) - 1;
    var w := Width(j, c, limbs);
    var d := DigitAt(v, c, j);
    assert CarryAt(v, c, j + 1) == 0;
    assert d >= 0;
    Pow2Monotone(w - 1, c - 2);
    assert Pow2(c - 1) == 2 * Pow2(c - 2);
    assert Pow2(w) == 2 * Pow2(w - 1);
    ModSmall(d, Pow2(w));
  }

  /** Zero digitises to zero. */
  lemma DigitizedZero(c: nat, limbs: nat)
    requires ValidWidth(c)
    ensures Digitized(0, c, limbs) == 0
  {
    var n := NbChunks(c, limbs);
    var s := StoredWindows(0, c, limbs, n);
    forall j | 0 <= j < n
      ensures s[j] == 0
    {
      ZeroDigits(c, j);
      NbChunkBound(c, limbs, j);
      ZeroDivMod(Pow2(Width(j, c, limbs)));
    }
    ZeroWeightedSum(s, c);
  }

  lemma {:induction false} ZeroWeightedSum(s: seq<int>, c: nat)
    requires forall k :: 0 <= k < |s| ==> s[k] == 0
    ensures WeightedSum(s, c) == 0
  {
    if |s| > 0 {
      ZeroWeightedSum(s[..|s| - 1], c);
    }
  }

  // ---------------------------------------------------------------------
  // Small scalars.

  /** A scalar that fits on one word has the value of its lowest word. */
  lemma OneWordValue(s: seq<nat>)
    requires |s| > 0 && FitsOnOneWord(s)
    ensures LimbsValue(s) == s[0]
  {
    var t := s[1..];
    assert forall k :: 0 <= k < |t| ==> t[k] == 0;
    assert t == Zeros(|t|) by {
      assert forall k :: 0 <= k < |t| ==> t[k] == Zeros(|t|)[k] by {
        ZerosAreZero(|t|);
      }
    }
  }

  lemma {:induction false} ZerosAreZero(n: nat)
    ensures forall k :: 0 <= k < n ==> Zeros(n)[k] == 0
  {
    if n > 0 {
      ZerosAreZero(n - 1);
      assert forall k :: 1 <= k < n ==> Zeros(n)[k] == Zeros(n - 1)[k - 1];
    }
  }

  /** The source's small-scalar test holds exactly for the scalars with 0 < s < 2^c. */
  lemma SmallIffBelow(s: seq<nat>, c: nat)
    requires ValidWidth(c) && |s| > 0 && IsWords(s)
    ensures IsSmall(s, c) <==> 0 < LimbsValue(s) < Pow2(c)
  {
    var v := LimbsValue(s);
    AndLowOnes(s[0], c);
    if IsSmall(s, c) {
      OneWordValue(s);
      assert s[0] % Pow2(c) == s[0];
      assert s[0] < Pow2(c);
    }
    if 0 < v < Pow2(c) {
      Pow2Monotone(c, WordBits);
      Pow2Word();
      assert LimbsValue(s[1..]) == 0;
      LimbsValueZero(s[1..]);
      assert forall k :: 1 <= k < |s| ==> s[k] == s[1..][k - 1];
      assert FitsOnOneWord(s);
      ModSmall(s[0], Pow2(c));
    }
  }
}
