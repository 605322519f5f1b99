/**
  One chunk of the bucket method (msmProcessChunk) and the combination of
  the chunk totals into the result (msmReduceChunk).

  The group is modelled additively by the integers: a point is an integer,
  the point at infinity is 0, adding two points is +, subtracting is -, and
  doubling a point is adding it to itself.
*/
module Chunk {
  import opened Bits
  import opened Digits
  import opened Selector

  // ---------------------------------------------------------------------
  // Specification.

  /** Σ digits[i]·points[i]: the multi-scalar combination of the points with these digits. */
  function Dot(points: seq<int>, digits: seq<int>): int
    requires |points| == |digits|
  {
    if |points| == 0 then 0
    else Dot(points[..|points| - 1], digits[..|digits| - 1]) + digits[|digits| - 1] * points[|points| - 1]
  }

  /** The digit each digitised scalar holds in window j. */
  function ChunkDigits(scalars: seq<seq<nat>>, j: nat, c: nat): seq<int>
    requires c >= 1
  {
    seq(|scalars|, i requires 0 <= i < |scalars| => DigitOf(Window(LimbsValue(scalars[i]), j, c), c))
  }

  /** Digits whose magnitude stays within the number of buckets. */
  predicate BucketsFit(digits: seq<int>, nbBuckets: nat) {
    forall i :: 0 <= i < |digits| ==> -(nbBuckets as int) <= digits[i] <= nbBuckets
  }

  /** What one point with digit d adds to bucket k: itself for d = k+1, its negation for d = -(k+1). */
  function Contribution(d: int, point: int, k: nat): int {
    if d == k + 1 then point else if d == -(k + 1) then -point else 0
  }

  /** Bucket k after all the points have been placed. */
  function BucketSum(points: seq<int>, digits: seq<int>, k: nat): int
    requires |points| == |digits|
  {
    if |points| == 0 then 0
    else BucketSum(points[..|points| - 1], digits[..|digits| - 1], k) + Contribution(digits[|digits| - 1], points[|points| - 1], k)
  }

  /** bucket[K] + bucket[K+1] + ... */
  function SumFrom(b: seq<int>, K: nat): int
    decreases |b| - K
  {
    if K >= |b| then 0 else b[K] + SumFrom(b, K + 1)
  }

  /** (K+1)·bucket[K] + (K+2)·bucket[K+1] + ...: the buckets weighted by their digit. */
  function TailWeighted(b: seq<int>, K: nat): int
    decreases |b| - K
  {
    if K >= |b| then 0 else (K + 1) * b[K] + TailWeighted(b, K + 1)
  }

  // ---------------------------------------------------------------------
  // Processing one chunk.

  /**
    Places every point into the bucket of its digit in window `chunk`
    (added for a positive digit, subtracted for a negative one), then sums
    the buckets weighted by their digit with a running sum from the top
    bucket down.
  */
  method ProcessChunk(chunk: nat, buckets: array<int>, c: nat, limbs: nat, points: seq<int>, scalars: seq<seq<nat>>)
    returns (total: int)
    requires ValidWidth(c) && chunk < NbChunks(c, limbs) && |points| == |scalars|
    requires forall i :: 0 <= i < |scalars| ==> IsWords(scalars[i]) && |scalars[i]| == limbs
    requires BucketsFit(ChunkDigits(scalars, chunk, c), buckets.Length)
    modifies buckets
    ensures total == Dot(points, ChunkDigits(scalars, chunk, c))
  {
    var msbWindow := Pow2(c - 1);
    ghost var digits := ChunkDigits(scalars, chunk, c);
    var i := 0;
    while i < buckets.Length
      invariant 0 <= i <= buckets.Length
      invariant forall k :: 0 <= k < i ==> buckets[k] == 0
    {
      buckets[i] := 0;
      i := i + 1;
    }
    var s := NewSelector(chunk, c, limbs);
    ChunkStart(c, limbs, chunk);
    assert buckets[..] == Buckets(points[..0], digits[..0], buckets.Length);
    i := 0;
    while i < |scalars|
      invariant 0 <= i <= |scalars|
      invariant buckets[..] == Buckets(points[..i], digits[..i], buckets.Length)
    {
      ExtractWindow(scalars[i], chunk, c, limbs);
      var bits := Extract(scalars[i], s);
      PlaceStep(points, digits, i, buckets.Length, bits, c, msbWindow);
      if bits == 0 {
        i := i + 1;
        continue;
      }
      PlacePoint(buckets, bits, c, msbWindow, points[i]);
      i := i + 1;
    }
    assert points[..i] == points && digits[..i] == digits;
    ghost var b := buckets[..];
    var runningSum, k := 0, buckets.Length;
    total := 0;
    while k > 0
      modifies {}
      invariant 0 <= k <= buckets.Length
      invariant runningSum == SumFrom(b, k) && total + k * runningSum == TailWeighted(b, k)
    {
      k := k - 1;
      ghost var before, totalBefore := runningSum, total;
      if buckets[k] != 0 {
        runningSum := runningSum + buckets[k];
      }
      total := total + runningSum;
      RunningStep(b, k, before, totalBefore, runningSum, total);
    }
    BucketsWeighted(points, digits, buckets.Length);
    assert b == Buckets(points, digits, buckets.Length);
  }

  /**
    Adds the point to bucket bits-1 when the top bit of the window is
    clear, and subtracts it from bucket bits &^ 2^(c-1) when it is set.
  */
  method PlacePoint(buckets: array<int>, bits: nat, c: nat, msbWindow: nat, point: int)
    requires c >= 1 && msbWindow == Pow2(c - 1) && 0 < bits < Pow2(c)
    requires bits < msbWindow ==> bits - 1 < buckets.Length
    requires bits >= msbWindow ==> bits - msbWindow < buckets.Length
    modifies buckets
    ensures buckets[..] == Placed(old(buckets[..]), bits, msbWindow, point)
  {
    TopBit(bits, c - 1);
    if And(bits, msbWindow) == 0 {
      buckets[bits - 1] := buckets[bits - 1] + point;
    } else {
      buckets[AndNot(bits, msbWindow)] := buckets[AndNot(bits, msbWindow)] - point;
    }
  }

  /**
    Placing point i with window bits `bits`: nothing for zero bits, added to
    bucket bits-1 when the top bit of the window is clear, subtracted from
    bucket bits-2^(c-1) when it is set.
  */
  lemma PlaceStep(points: seq<int>, digits: seq<int>, i: nat, nbBuckets: nat, bits: nat, c: nat, msbWindow: nat)
    requires |points| == |digits| && i < |points| && BucketsFit(digits, nbBuckets)
    requires c >= 1 && msbWindow == Pow2(c - 1) && bits < Pow2(c) && digits[i] == DigitOf(bits, c)
    ensures bits < msbWindow ==> bits - 1 < nbBuckets
    ensures bits >= msbWindow ==> bits - msbWindow < nbBuckets
    ensures Buckets(points[..i + 1], digits[..i + 1], nbBuckets) == Placed(Buckets(points[..i], digits[..i], nbBuckets), bits, msbWindow, points[i])
  {
    assert points[..i + 1][..i] == points[..i] && digits[..i + 1][..i] == digits[..i];
    var before, after := Buckets(points[..i], digits[..i], nbBuckets), Buckets(points[..i + 1], digits[..i + 1], nbBuckets);
    assert forall k :: 0 <= k < nbBuckets ==> after[k] == before[k] + Contribution(digits[i], points[i], k);
  }

  /** The buckets once a point with window bits `bits` has been placed. */
  function Placed(b: seq<int>, bits: nat, msbWindow: nat, point: int): seq<int> {
    if bits == 0 then b
    else if bits < msbWindow then (if bits - 1 < |b| then b[bits - 1 := b[bits - 1] + point] else b)
    else if bits - msbWindow < |b| then b[bits - msbWindow := b[bits - msbWindow] - point] else b
  }

  /** One step of the running sum, from bucket K+1 down to bucket K. */
  lemma RunningStep(b: seq<int>, K: nat, runningSum: int, total: int, runningSum': int, total': int)
    requires K < |b| && runningSum == SumFrom(b, K + 1) && total + (K + 1) * runningSum == TailWeighted(b, K + 1)
    requires runningSum' == runningSum + b[K] && total' == total + runningSum'
    ensures runningSum' == SumFrom(b, K) && total' + K * runningSum' == TailWeighted(b, K)
  {
    assert total' + K * runningSum' == total + (K + 1) * runningSum + (K + 1) * b[K];
  }

  // ---------------------------------------------------------------------
  // The weighted bucket sum is the chunk's combination.

  /** The buckets after every point has been placed. */
  function Buckets(points: seq<int>, digits: seq<int>, nbBuckets: nat): (b: seq<int>)
    requires |points| == |digits|
    ensures |b| == nbBuckets
  {
    seq(nbBuckets, k requires 0 <= k < nbBuckets => BucketSum(points, digits, k))
  }

  lemma {:induction false} TailWeightedZero(b: seq<int>, K: nat)
    requires forall k :: 0 <= k < |b| ==> b[k] == 0
    ensures TailWeighted(b, K) == 0
    decreases |b| - K
  {
    if K < |b| {
      TailWeightedZero(b, K + 1);
    }
  }

  /** Adding x to bucket k adds (k+1)·x to the weighted sum of the buckets from K on, when K <= k. */
  lemma {:induction false} TailWeightedUpdate(b: seq<int>, k: nat, x: int, K: nat)
    requires k < |b|
    ensures TailWeighted(b[k := b[k] + x], K) == TailWeighted(b, K) + (if K <= k then (k + 1) * x else 0)
    decreases |b| - K
  {
    if K < |b| {
      TailWeightedUpdate(b, k, x, K + 1);
      if K == k {
        assert (K + 1) * (b[K] + x) == (K + 1) * b[K] + (k + 1) * x;
      }
    }
  }

  /**
    The weighted sum of the buckets, bucket k counted k+1 times, is the
    combination of the points with their digits, as long as every digit has
    a bucket.
  */
  lemma {:induction false} BucketsWeighted(points: seq<int>, digits: seq<int>, nbBuckets: nat)
    requires |points| == |digits| && BucketsFit(digits, nbBuckets)
    ensures TailWeighted(Buckets(points, digits, nbBuckets), 0) == Dot(points, digits)
  {
    var bf := Buckets(points, digits, nbBuckets);
    var n := |points|;
    if n == 0 {
      TailWeightedZero(bf, 0);
    } else {
      var pre, dpre := points[..n - 1], digits[..n - 1];
      var bp := Buckets(pre, dpre, nbBuckets);
      var d, P := digits[n - 1], points[n - 1];
      assert BucketsFit(dpre, nbBuckets) by {
        assert forall i :: 0 <= i < n - 1 ==> dpre[i] == digits[i];
      }
      BucketsWeighted(pre, dpre, nbBuckets);
      assert forall k :: 0 <= k < nbBuckets ==> bf[k] == bp[k] + Contribution(d, P, k);
      AddPointWeighted(bp, bf, d, P);
    }
  }

  /** Placing one point with digit d adds d times the point to the weighted bucket sum. */
  lemma AddPointWeighted(bp: seq<int>, bf: seq<int>, d: int, P: int)
    requires |bf| == |bp| && -|bp| <= d <= |bp|
    requires forall k :: 0 <= k < |bp| ==> bf[k] == bp[k] + Contribution(d, P, k)
    ensures TailWeighted(bf, 0) == TailWeighted(bp, 0) + d * P
  {
    if d == 0 {
      assert bf == bp;
    } else if d > 0 {
      AddToBucket(bp, bf, d - 1, P);
    } else {
      AddToBucket(bp, bf, -d - 1, -P);
      assert (-d - 1 + 1) * -P == d * P;
    }
  }

  lemma AddToBucket(bp: seq<int>, bf: seq<int>, k: nat, x: int)
    requires |bf| == |bp| && k < |bp|
    requires forall i :: 0 <= i < |bp| ==> bf[i] == bp[i] + (if i == k then x else 0)
    ensures TailWeighted(bf, 0) == TailWeighted(bp, 0) + (k + 1) * x
  {
    assert bf == bp[k := bp[k] + x];
    TailWeightedUpdate(bp, k, x, 0);
  }

  // ---------------------------------------------------------------------
  // Combining the chunk totals.

  /**
    Combines the chunk totals, the last chunk first: before each lower chunk
    is added, the running point is doubled c times.
  */
  method ReduceChunks(c: nat, totals: seq<int>) returns (p: int)
    requires |totals| > 0
    ensures p == WeightedSum(totals, c)
  {
    var n := |totals|;
    p := totals[n - 1];
    WeightedSumSingle(totals[n - 1..], c);
    var j := n - 2;
    while j >= 0
      invariant -1 <= j <= n - 2
      invariant p == WeightedSum(totals[j + 1..], c)
    {
      ghost var p0 := p;
      var l := 0;
      while l < c
        invariant 0 <= l <= c
        invariant p == Pow2(l) * p0
      {
        DoubleStep(p0, l, p);
        p := p + p;
        l := l + 1;
      }
      ghost var doubled := p;
      p := p + totals[j];
      HornerAt(totals, c, j, p0, doubled, p);
      j := j - 1;
    }
    assert totals[0..] == totals;
  }

  lemma DoubleStep(p0: int, l: nat, p: int)
    requires p == Pow2(l) * p0
    ensures p + p == Pow2(l + 1) * p0
  {
  }

  /** One Horner step: c doublings of the higher chunks' value, then chunk j added. */
  lemma HornerAt(totals: seq<int>, c: nat, j: nat, high: int, doubled: int, p: int)
    requires j + 1 < |totals| && high == WeightedSum(totals[j + 1..], c)
    requires doubled == Pow2(c) * high && p == doubled + totals[j]
    ensures p == WeightedSum(totals[j..], c)
  {
    var t := totals[j..];
    assert t[1..] == totals[j + 1..];
    WeightedSumHorner(t, c);
  }

  lemma WeightedSumSingle(s: seq<int>, c: nat)
    requires |s| == 1
    ensures WeightedSum(s, c) == s[0]
  {
    assert s[..0] == [];
  }

  /** The combination over the points splits at any index into the two halves' combinations. */
  lemma {:induction false} DotSplit(points: seq<int>, digits: seq<int>, s: nat)
    requires |points| == |digits| && s <= |points|
    ensures Dot(points, digits) == Dot(points[..s], digits[..s]) + Dot(points[s..], digits[s..])
    decreases |points|
  {
    var n := |points|;
    if s == n {
      assert points[..s] == points && digits[..s] == digits;
      assert points[s..] == [] && digits[s..] == [];
    } else {
      var pre, dpre := points[..n - 1], digits[..n - 1];
      DotSplit(pre, dpre, s);
      assert pre[..s] == points[..s] && dpre[..s] == digits[..s];
      var tp, td := points[s..], digits[s..];
      assert tp[..|tp| - 1] == pre[s..] && td[..|td| - 1] == dpre[s..];
    }
  }

  /** The digits of a slice of the scalars are the slice of the digits. */
  lemma ChunkDigitsSlice(scalars: seq<seq<nat>>, j: nat, c: nat, lo: nat, hi: nat)
    requires c >= 1 && lo <= hi <= |scalars|
    ensures ChunkDigits(scalars[lo..hi], j, c) == ChunkDigits(scalars, j, c)[lo..hi]
  {
  }
}
