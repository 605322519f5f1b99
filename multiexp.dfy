/**
  The multi-scalar multiplication Σ scalars[i]·points[i] by the bucket
  method: the choice of the window width, the split of the points into
  independent ranges, the processing of every chunk of every range and the
  combination of the results.

  As in the chunk module, the group is modelled additively by the integers.
*/
module MultiExp {
  import opened Bits
  import opened Digits
  import opened Partition
  import opened Chunk
  import opened Wrappers

  // ---------------------------------------------------------------------
  // Specification.

  /** Number of 64-bit words of a scalar field element of BW6-756. */
  const Limbs: nat := 6

  /** The window widths the source implements a bucket method for. */
  const ImplementedCs: seq<nat> := [4, 5, 8, 16]

  /**
    80 times the estimated number of group operations with c-bit windows,
    64·limbs·(n + 2^c)/c: exact, since every implemented c divides 80.
  */
  function Cost(c: nat, n: nat, limbs: nat): nat
    requires c in ImplementedCs
  {
    WordBits * limbs * (n + Pow2(c)) * (80 / c)
  }

  /** The integer each scalar stands for. */
  function Values(scalars: seq<seq<nat>>): (vs: seq<int>)
    ensures |vs| == |scalars|
  {
    seq(|scalars|, i requires 0 <= i < |scalars| => LimbsValue(scalars[i]) as int)
  }

  /** The total of every chunk j < n, as each chunk computes it. */
  function ChunkTotals(points: seq<int>, rows: seq<seq<nat>>, c: nat, n: nat): (ts: seq<int>)
    requires c >= 1 && |points| == |rows|
    ensures |ts| == n
  {
    seq(n, j requires 0 <= j < n => Dot(points, ChunkDigits(rows, j, c)))
  }

  /** The digits of one digitised scalar in windows 0 .. n-1. */
  function RowDigits(row: seq<nat>, c: nat, n: nat): (ds: seq<int>)
    requires c >= 1
    ensures |ds| == n
  {
    seq(n, j requires 0 <= j < n => DigitOf(Window(LimbsValue(row), j, c), c))
  }

  /** The value each digitised scalar's digits stand for. */
  function RowValues(rows: seq<seq<nat>>, c: nat, n: nat): (vs: seq<int>)
    requires c >= 1
    ensures |vs| == |rows|
  {
    seq(|rows|, i requires 0 <= i < |rows| => WeightedSum(RowDigits(rows[i], c, n), c))
  }

  /** A scalar that is a reduced field element: below 2^(64·limbs - 2). */
  predicate Reduced(scalar: seq<nat>, limbs: nat)
    requires limbs > 0
  {
    |scalar| == limbs && IsWords(scalar) && LimbsValue(scalar) < Pow2(WordBits * limbs - 2)
  }

  /** rows[i] holds the signed digits of scalars[i], a reduced scalar, for every i. */
  predicate DigitizedRows(rows: seq<seq<nat>>, scalars: seq<seq<nat>>, c: nat, limbs: nat)
    requires ValidWidth(c) && limbs > 0
  {
    |rows| == |scalars| &&
    forall i :: 0 <= i < |rows| ==> Reduced(scalars[i], limbs) && DigitizedRow(rows[i], scalars[i], c, limbs)
  }

  // ---------------------------------------------------------------------
  // Exchanging the sum over the chunks and the sum over the points.

  lemma {:induction false} DotZero(points: seq<int>, s: seq<int>)
    requires |points| == |s| && forall i :: 0 <= i < |s| ==> s[i] == 0
    ensures Dot(points, s) == 0
    decreases |points|
  {
    if |points| > 0 {
      DotZero(points[..|points| - 1], s[..|s| - 1]);
    }
  }

  /** The combination is linear in the digits: s = a + k·b gives Dot(s) = Dot(a) + k·Dot(b). */
  lemma {:induction false} DotLinear(points: seq<int>, a: seq<int>, b: seq<int>, s: seq<int>, k: int)
    requires |points| == |a| == |b| == |s|
    requires forall i :: 0 <= i < |s| ==> s[i] == a[i] + b[i] * k
    ensures Dot(points, s) == Dot(points, a) + Dot(points, b) * k
    decreases |points|
  {
    var n := |points|;
    if n > 0 {
      var pre := points[..n - 1];
      DotLinear(pre, a[..n - 1], b[..n - 1], s[..n - 1], k);
      LinearArith(Dot(pre, a[..n - 1]), Dot(pre, b[..n - 1]), a[n - 1], b[n - 1], points[n - 1], k);
    }
  }

  lemma LinearArith(da: int, db: int, x: int, y: int, p: int, k: int)
    ensures da + db * k + (x + y * k) * p == da + x * p + (db + y * p) * k
  {
  }

  lemma RowDigitsStep(row: seq<nat>, c: nat, n: nat)
    requires c >= 1 && n > 0
    ensures WeightedSum(RowDigits(row, c, n), c)
         == WeightedSum(RowDigits(row, c, n - 1), c) + DigitOf(Window(LimbsValue(row), n - 1, c), c) * Pow2((n - 1) * c)
  {
    assert RowDigits(row, c, n)[..n - 1] == RowDigits(row, c, n - 1);
  }

  /**
    Σ_j 2^(j·c)·(Σ_i d_ij·P_i) == Σ_i (Σ_j 2^(j·c)·d_ij)·P_i: the weighted sum
    of the chunk totals is the combination of the points with the values of
    their digit rows.
  */
  lemma {:induction false} SwapSums(points: seq<int>, rows: seq<seq<nat>>, c: nat, n: nat)
    requires c >= 1 && |points| == |rows|
    ensures WeightedSum(ChunkTotals(points, rows, c, n), c) == Dot(points, RowValues(rows, c, n))
  {
    if n == 0 {
      DotZero(points, RowValues(rows, c, 0));
    } else {
      var k := Pow2((n - 1) * c);
      var totals := ChunkTotals(points, rows, c, n);
      assert totals[..n - 1] == ChunkTotals(points, rows, c, n - 1);
      SwapSums(points, rows, c, n - 1);
      var digits := ChunkDigits(rows, n - 1, c);
      forall i | 0 <= i < |rows|
        ensures RowValues(rows, c, n)[i] == RowValues(rows, c, n - 1)[i] + digits[i] * k
      {
        RowDigitsStep(rows[i], c, n);
      }
      DotLinear(points, RowValues(rows, c, n - 1), digits, RowValues(rows, c, n), k);
    }
  }

  /** The digits of a digitised reduced scalar stand for the scalar. */
  lemma RowValue(row: seq<nat>, scalar: seq<nat>, c: nat, limbs: nat)
    requires ValidWidth(c) && limbs > 0 && Reduced(scalar, limbs) && DigitizedRow(row, scalar, c, limbs)
    ensures WeightedSum(RowDigits(row, c, NbChunks(c, limbs)), c) == LimbsValue(scalar)
  {
    var v, n := LimbsValue(scalar), NbChunks(c, limbs);
    SmallScalarFits(v, c, limbs);
    forall j | 0 <= j < n
      ensures RowDigits(row, c, n)[j] == Digits.Digits(v, c, n)[j]
    {
      DigitizedDigit(v, c, limbs, j);
    }
    assert RowDigits(row, c, n) == Digits.Digits(v, c, n);
    Pow2Monotone(WordBits * limbs - 2, n * c);
    RecodeExact(v, c, n);
  }

  /** Every digit of a chunk of digitised reduced scalars has a bucket among the 2^(Width-1). */
  lemma ChunkFits(rows: seq<seq<nat>>, scalars: seq<seq<nat>>, c: nat, limbs: nat, j: nat)
    requires ValidWidth(c) && limbs > 0 && j < NbChunks(c, limbs) && DigitizedRows(rows, scalars, c, limbs)
    ensures BucketsFit(ChunkDigits(rows, j, c), Pow2(Width(j, c, limbs) - 1))
  {
    var digits := ChunkDigits(rows, j, c);
    forall i | 0 <= i < |rows|
      ensures -(Pow2(Width(j, c, limbs) - 1) as int) <= digits[i] <= Pow2(Width(j, c, limbs) - 1)
    {
      SmallScalarFits(LimbsValue(scalars[i]), c, limbs);
      DigitizedDigit(LimbsValue(scalars[i]), c, limbs, j);
    }
  }

  /** Digitised reduced scalars stand for their values. */
  lemma RowsValue(rows: seq<seq<nat>>, scalars: seq<seq<nat>>, c: nat, limbs: nat)
    requires ValidWidth(c) && limbs > 0 && DigitizedRows(rows, scalars, c, limbs)
    ensures RowValues(rows, c, NbChunks(c, limbs)) == Values(scalars)
  {
    forall i | 0 <= i < |rows|
      ensures RowValues(rows, c, NbChunks(c, limbs))[i] == Values(scalars)[i]
    {
      RowValue(rows[i], scalars[i], c, limbs);
    }
  }

  lemma ValuesSlice(scalars: seq<seq<nat>>, lo: nat, hi: nat)
    requires lo <= hi <= |scalars|
    ensures Values(scalars[lo..hi]) == Values(scalars)[lo..hi]
  {
  }

  lemma DigitizedRowsSlice(rows: seq<seq<nat>>, scalars: seq<seq<nat>>, c: nat, limbs: nat, lo: nat, hi: nat)
    requires ValidWidth(c) && limbs > 0 && DigitizedRows(rows, scalars, c, limbs) && lo <= hi <= |rows|
    ensures DigitizedRows(rows[lo..hi], scalars[lo..hi], c, limbs)
  {
    forall i | 0 <= i < hi - lo
      ensures Reduced(scalars[lo..hi][i], limbs) && DigitizedRow(rows[lo..hi][i], scalars[lo..hi][i], c, limbs)
    {
      assert rows[lo..hi][i] == rows[lo + i] && scalars[lo..hi][i] == scalars[lo + i];
    }
  }

  /** Splitting the points in two: the two halves' totals of a chunk add up to the whole's. */
  lemma SplitChunk(points: seq<int>, rows: seq<seq<nat>>, c: nat, j: nat, s: nat)
    requires c >= 1 && |points| == |rows| && s <= |points|
    ensures Dot(points[..s], ChunkDigits(rows[..s], j, c)) + Dot(points[s..], ChunkDigits(rows[s..], j, c))
         == Dot(points, ChunkDigits(rows, j, c))
  {
    var d := ChunkDigits(rows, j, c);
    assert ChunkDigits(rows[..s], j, c) == d[..s];
    assert ChunkDigits(rows[s..], j, c) == d[s..];
    DotSplit(points, d, s);
  }

  /** The combination over points[..hi] is the one over points[..lo] plus the one over points[lo..hi]. */
  lemma DotExtend(points: seq<int>, digits: seq<int>, lo: nat, hi: nat)
    requires |points| == |digits| && lo <= hi <= |points|
    ensures Dot(points[..hi], digits[..hi]) == Dot(points[..lo], digits[..lo]) + Dot(points[lo..hi], digits[lo..hi])
  {
    DotSplit(points[..hi], digits[..hi], lo);
    assert points[..hi][..lo] == points[..lo] && digits[..hi][..lo] == digits[..lo];
    assert points[..hi][lo..] == points[lo..hi] && digits[..hi][lo..] == digits[lo..hi];
  }

  // ---------------------------------------------------------------------
  // The bucket method for one window width.

  /**
    Processes chunk j of all the points with its own buckets: 2^(c-1) of
    them, or 2^(w-1) for a top chunk only w < c bits wide.
  */
  method RunChunk(j: nat, c: nat, limbs: nat, points: seq<int>, rows: seq<seq<nat>>, ghost scalars: seq<seq<nat>>)
    returns (total: int)
    requires ValidWidth(c) && limbs > 0 && j < NbChunks(c, limbs)
    requires |points| == |rows| && DigitizedRows(rows, scalars, c, limbs)
    ensures total == Dot(points, ChunkDigits(rows, j, c))
  {
    var buckets := new int[Pow2(Width(j, c, limbs) - 1)];
    ChunkFits(rows, scalars, c, limbs, j);
    total := ProcessChunk(j, buckets, c, limbs, points, rows);
  }

  /**
    The bucket method with c-bit windows: every chunk but the first is
    processed over all the points; the first is processed whole, or in two
    halves whose totals are added when splitFirstChunk is set; the chunk
    totals are then combined, the top chunk first.
  */
  method MsmC(c: nat, limbs: nat, points: seq<int>, rows: seq<seq<nat>>, splitFirstChunk: bool, ghost scalars: seq<seq<nat>>)
    returns (p: int)
    requires ValidWidth(c) && limbs > 0
    requires |points| == |rows| && DigitizedRows(rows, scalars, c, limbs)
    ensures p == Dot(points, Values(scalars))
  {
    var nbChunks := NbChunks(c, limbs);
    var totals := new int[nbChunks];
    ghost var expected := ChunkTotals(points, rows, c, nbChunks);
    var j := nbChunks - 1;
    while j > 0
      modifies totals
      invariant 0 <= j < nbChunks
      invariant forall k :: j < k < nbChunks ==> totals[k] == expected[k]
    {
      var total := RunChunk(j, c, limbs, points, rows, scalars);
      totals[j] := total;
      j := j - 1;
    }
    var total0 := RunFirstChunk(c, limbs, points, rows, splitFirstChunk, scalars);
    totals[0] := total0;
    assert totals[..] == expected;
    p := ReduceChunks(c, totals[..]);
    SwapSums(points, rows, c, nbChunks);
    RowsValue(rows, scalars, c, limbs);
  }

  /**
    Processes chunk 0: over all the points, or over the two halves of the
    points whose totals are then added.
  */
  method RunFirstChunk(c: nat, limbs: nat, points: seq<int>, rows: seq<seq<nat>>, splitFirstChunk: bool, ghost scalars: seq<seq<nat>>)
    returns (total0: int)
    requires ValidWidth(c) && limbs > 0
    requires |points| == |rows| && DigitizedRows(rows, scalars, c, limbs)
    ensures total0 == Dot(points, ChunkDigits(rows, 0, c))
  {
    if !splitFirstChunk {
      total0 := RunChunk(0, c, limbs, points, rows, scalars);
    } else {
      var split := |points| / 2;
      DigitizedRowsSlice(rows, scalars, c, limbs, 0, split);
      DigitizedRowsSlice(rows, scalars, c, limbs, split, |rows|);
      assert rows[..split] == rows[0..split] && rows[split..] == rows[split..|rows|];
      assert scalars[..split] == scalars[0..split] && scalars[split..] == scalars[split..|rows|];
      var s1 := RunChunk(0, c, limbs, points[..split], rows[..split], scalars[..split]);
      var s2 := RunChunk(0, c, limbs, points[split..], rows[split..], scalars[split..]);
      total0 := s1 + s2;
      SplitChunk(points, rows, c, 0, split);
    }
  }

  /** Dispatches on the window width; a width with no bucket method is an error. */
  method MsmInner(c: nat, limbs: nat, points: seq<int>, rows: seq<seq<nat>>, splitFirstChunk: bool, ghost scalars: seq<seq<nat>>)
    returns (r: Result<int>)
    requires limbs > 0 && |points| == |rows|
    requires c in ImplementedCs ==> DigitizedRows(rows, scalars, c, limbs)
    ensures c in ImplementedCs ==> r == Success(Dot(points, Values(scalars)))
    ensures c !in ImplementedCs ==> r.Failure?
  {
    if c == 4 || c == 5 || c == 8 || c == 16 {
      var p := MsmC(c, limbs, points, rows, splitFirstChunk, scalars);
      r := Success(p);
    } else {
      r := Failure("not implemented");
    }
  }

  // ---------------------------------------------------------------------
  // Choosing the window width and the number of ranges.

  /**
    The implemented width of least estimated cost for n points; among
    widths of equal cost, the smallest.
  */
  method BestC(n: nat, limbs: nat) returns (C: nat)
    ensures C in ImplementedCs
    ensures forall c :: c in ImplementedCs ==> Cost(C, n, limbs) <= Cost(c, n, limbs)
    ensures forall c :: c in ImplementedCs && c < C ==> Cost(C, n, limbs) < Cost(c, n, limbs)
  {
    var found := false;
    C := 0;
    var i := 0;
    while i < |ImplementedCs|
      invariant 0 <= i <= |ImplementedCs|
      invariant found <==> i > 0
      invariant found ==> C in ImplementedCs[..i]
      invariant found ==> forall k :: 0 <= k < i ==> Cost(C, n, limbs) <= Cost(ImplementedCs[k], n, limbs)
      invariant found ==> forall k :: 0 <= k < i && ImplementedCs[k] < C ==> Cost(C, n, limbs) < Cost(ImplementedCs[k], n, limbs)
    {
      var c := ImplementedCs[i];
      if !found || Cost(c, n, limbs) < Cost(C, n, limbs) {
        C := c;
        found := true;
      }
      i := i + 1;
    }
    assert ImplementedCs[..i] == ImplementedCs;
  }

  /**
    Σ scalars[i]·points[i]. Mismatched lengths are an error. Otherwise the
    window width and the number of ranges are chosen so that there are at
    least as many chunks over all the ranges as tasks; the scalars are
    digitised; each range of points is processed on its own, the last range
    taking the points left over; and the ranges' results are added.
  */
  method MultiExp(points: seq<int>, scalars: seq<seq<nat>>, nbTasks: int, numCPU: nat) returns (r: Result<int>)
    requires numCPU > 0
    requires forall i :: 0 <= i < |scalars| ==> Reduced(scalars[i], Limbs)
    ensures |points| != |scalars| ==> r == Failure("len(points) != len(scalars)")
    ensures |points| == |scalars| ==> r == Success(Dot(points, Values(scalars)))
  {
    if |points| != |scalars| {
      return Failure("len(points) != len(scalars)");
    }
    var tasks := nbTasks;
    if tasks <= 0 {
      tasks := numCPU;
    }
    var C, nbSplits, nbPoints := SplitWork(|points|, tasks);
    var rowsArray, smallValues := PartitionScalars(scalars, C, Limbs);
    var rows := rowsArray[..];
    assert DigitizedRows(rows, scalars, C, Limbs);
    var splitFirstChunk := |rows| > 0 && 10 * smallValues >= |rows|;

    var p := SumRanges(C, Limbs, nbSplits, nbPoints, points, rows, splitFirstChunk, scalars);
    r := Success(p);
  }

  /**
    Runs the bucket method on each range of nbPoints points, the last range
    also taking the points left over, and adds the results.
  */
  method SumRanges(C: nat, limbs: nat, nbSplits: nat, nbPoints: nat, points: seq<int>, rows: seq<seq<nat>>,
                   splitFirstChunk: bool, ghost scalars: seq<seq<nat>>)
    returns (p: int)
    requires C in ImplementedCs && limbs > 0 && nbSplits > 0 && (nbSplits - 1) * nbPoints <= |points|
    requires |points| == |rows| && DigitizedRows(rows, scalars, C, limbs)
    ensures p == Dot(points, Values(scalars))
  {
    ghost var values := Values(scalars);
    assert |values| == |points|;
    var lastStart := (nbSplits - 1) * nbPoints;
    p := RunRange(C, limbs, points, rows, lastStart, |points|, splitFirstChunk, scalars);
    assert Dot(points[..0], values[..0]) == 0;
    var i, start := 0, 0;
    while i < nbSplits - 1
      invariant 0 <= i <= nbSplits - 1 && start == i * nbPoints && start <= lastStart
      invariant p == Dot(points[lastStart..|points|], values[lastStart..|points|]) + Dot(points[..start], values[..start])
    {
      var end := start + nbPoints;
      NextRange(i, nbPoints, nbSplits, start, lastStart);
      var part := RunRange(C, limbs, points, rows, start, end, splitFirstChunk, scalars);
      AddRange(points, values, lastStart, start, end, p, part);
      p := p + part;
      i, start := i + 1, end;
    }
    AddLastRange(points, values, lastStart, p);
  }

  lemma AddRange(points: seq<int>, values: seq<int>, lastStart: nat, start: nat, end: nat, p: int, part: int)
    requires start <= end <= lastStart <= |points| == |values|
    requires p == Dot(points[lastStart..|points|], values[lastStart..|points|]) + Dot(points[..start], values[..start])
    requires part == Dot(points[start..end], values[start..end])
    ensures p + part == Dot(points[lastStart..|points|], values[lastStart..|points|]) + Dot(points[..end], values[..end])
  {
    DotExtend(points, values, start, end);
  }

  lemma AddLastRange(points: seq<int>, values: seq<int>, lastStart: nat, p: int)
    requires lastStart <= |points| == |values|
    requires p == Dot(points[lastStart..|points|], values[lastStart..|points|]) + Dot(points[..lastStart], values[..lastStart])
    ensures p == Dot(points, values)
  {
    DotExtend(points, values, lastStart, |points|);
    assert points[..|points|] == points && values[..|points|] == values;
  }

  /** The bucket method on the points start .. end-1. */
  method RunRange(C: nat, limbs: nat, points: seq<int>, rows: seq<seq<nat>>, start: nat, end: nat,
                  splitFirstChunk: bool, ghost scalars: seq<seq<nat>>)
    returns (part: int)
    requires C in ImplementedCs && limbs > 0 && start <= end <= |points|
    requires |points| == |rows| && DigitizedRows(rows, scalars, C, limbs)
    ensures part == Dot(points[start..end], Values(scalars)[start..end])
  {
    DigitizedRowsSlice(rows, scalars, C, limbs, start, end);
    var r := MsmInner(C, limbs, points[start..end], rows[start..end], splitFirstChunk, scalars[start..end]);
    ValuesSlice(scalars, start, end);
    part := r.value;
  }

  lemma NextRange(i: nat, nbPoints: nat, nbSplits: nat, start: nat, lastStart: nat)
    requires start == i * nbPoints && i + 1 <= nbSplits - 1 && lastStart == (nbSplits - 1) * nbPoints
    ensures start + nbPoints == (i + 1) * nbPoints <= lastStart
  {
    MulMonotone(nbPoints, i + 1, nbSplits - 1);
  }

  /**
    Chooses the window width for the points of one range, doubling the
    number of ranges (and halving the points per range) until the ranges
    hold at least `tasks` chunks between them; the width is the one BestC
    chooses for the final number of points per range.
  */
  method SplitWork(nbPoints0: nat, tasks: nat) returns (C: nat, nbSplits: nat, nbPoints: nat)
    requires tasks > 0
    ensures C in ImplementedCs && IsPow2(nbSplits) && nbSplits <= tasks && nbPoints == nbPoints0 / nbSplits
    ensures forall c :: c in ImplementedCs ==> Cost(C, nbPoints, Limbs) <= Cost(c, nbPoints, Limbs)
    ensures forall c :: c in ImplementedCs && c < C ==> Cost(C, nbPoints, Limbs) < Cost(c, nbPoints, Limbs)
    ensures NbChunks(C, Limbs) * nbSplits >= tasks
    ensures (nbSplits - 1) * nbPoints <= nbPoints0
  {
    nbSplits, nbPoints := 1, nbPoints0;
    C := 0;
    var nbChunks := 0;
    ghost var doublings := 0;
    while nbChunks < tasks
      invariant 0 < nbSplits <= tasks && nbSplits == Pow2(doublings) && nbPoints == Halved(nbPoints0, doublings)
      invariant nbChunks > 0 ==> C in ImplementedCs
      invariant nbChunks >= tasks ==> NbChunks(C, Limbs) * nbSplits >= tasks
      invariant nbChunks >= tasks ==> forall c :: c in ImplementedCs ==> Cost(C, nbPoints, Limbs) <= Cost(c, nbPoints, Limbs)
      invariant nbChunks >= tasks ==>
                  forall c :: c in ImplementedCs && c < C ==> Cost(C, nbPoints, Limbs) < Cost(c, nbPoints, Limbs)
      decreases if nbChunks < tasks then tasks - nbSplits + 1 else 0
    {
      C := BestC(nbPoints, Limbs);
      var perSplit := NbChunks(C, Limbs);
      nbChunks := perSplit * nbSplits;
      if nbChunks < tasks {
        SplitStep(C, perSplit, nbSplits, tasks);
        nbSplits := nbSplits * 2;
        nbPoints := nbPoints / 2;
        doublings := doublings + 1;
      }
    }
    PowersOfTwo(doublings);
    HalvedDiv(nbPoints0, doublings);
    RangesFit(nbPoints0, nbSplits, nbPoints);
  }

  lemma RangesFit(n: nat, nbSplits: nat, nbPoints: nat)
    requires nbSplits > 0 && nbPoints == n / nbSplits
    ensures (nbSplits - 1) * nbPoints <= n
  {
    MulMonotone(nbPoints, nbSplits - 1, nbSplits);
    assert nbSplits * (n / nbSplits) <= n;
  }

  /** n is 1, 2, 4, 8, ... */
  predicate IsPow2(n: nat)
    decreases n
  {
    n == 1 || (n > 1 && n % 2 == 0 && IsPow2(n / 2))
  }

  lemma {:induction false} PowersOfTwo(k: nat)
    ensures IsPow2(Pow2(k))
  {
    if k > 0 {
      PowersOfTwo(k - 1);
      assert Pow2(k) / 2 == Pow2(k - 1);
    }
  }

  /** Doubling the number of ranges keeps it within the number of tasks and halves the points per range. */
  lemma SplitStep(C: nat, perSplit: nat, nbSplits: nat, tasks: nat)
    requires C in ImplementedCs && perSplit == NbChunks(C, Limbs) && nbSplits > 0 && perSplit * nbSplits < tasks
    ensures nbSplits * 2 < tasks
  {
    assert perSplit >= 2;
    MulMonotone(nbSplits, 2, perSplit);
  }

  /** n halved k times, rounding down each time. */
  function Halved(n: nat, k: nat): nat {
    if k == 0 then n else Halved(n, k - 1) / 2
  }

  lemma {:induction false} HalvedDiv(n: nat, k: nat)
    ensures Halved(n, k) == n / Pow2(k)
  {
    if k > 0 {
      HalvedDiv(n, k - 1);
      DivDiv(n, Pow2(k - 1), 2);
    }
  }
}
