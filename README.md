# gnark-crypto core, modelled in Dafny

This project models three pieces of the gnark-crypto Go library and proves
what they compute.

- **Multi-scalar multiplication on BW6-756** (`ecc/bw6-756/multiexp.go`).
  This is the bucket method for Σ sᵢ·Pᵢ:
  - Scalars are recoded into signed c-bit digits. A digit of 2^(c-1) or
    more borrows 2^c from the next window.
  - Each digit is stored back into a scalar-shaped array of words through
    per-window selectors (`partitionScalars`).
  - For each window ("chunk"), points are added to or subtracted from
    2^(c-1) buckets. The buckets are combined by a running sum
    (`msmProcessChunkG1Affine`).
  - The chunk totals are combined by c doublings between chunks
    (`msmReduceChunkG1Affine`).
  - `MultiExp` chooses c among {4, 5, 8, 16} by an estimated cost. It
    splits the points into ranges until there are enough chunks for
    `nbTasks`, and adds the ranges' results.

  The group is modelled additively by the integers: a point is an `int`,
  point addition is `+`, negation is `-`. The main theorem is then
  `MultiExp.MultiExp`. It states that the result is exactly Σ sᵢ·Pᵢ over the
  integers, or the length-mismatch error.
- **The polynomial wrapper of the IOP package for BW6-761**
  (`ecc/bw6-761/fr/iop/polynomial.go`). A coefficient vector carries a
  *form*: a basis code (canonical 1, Lagrange 2, Lagrange coset 4) and a
  layout code (regular 8, bit-reversed 16). A `Polynomial` adds a shift, a
  dimension and a blinded size. The model covers:
  - the conversion tables between forms, with the FFT calls they make;
  - resizing, cloning and shifted coefficient access;
  - Horner evaluation in either layout;
  - blinding by Q(X)·(X^n − 1);
  - the five-word big-endian header written after the coefficients, and
    reading it back.

  The class structure of the source is kept. `PolynomialData` holds the
  fields that the source's inner `polynomial` updates in place.
  `Polynomial` wraps it.
- **The quadratic extension E2 = Fp[u]/(u² − β)** from the tower template
  `internal/templates/fq12over6over2/fq2.go`, for its three instances:
  - bn256 (β = −1, non-residue ξ = 9 + u);
  - bls381 (β = −1, ξ = 1 + u);
  - bls377 (β = 5, ξ = u).

  Every operation is a function on a value `E2(a0, a1)` of reduced
  naturals. The template's operations are proved against an independent
  schoolbook `Product` and `Norm`:
  - Karatsuba multiplication and squaring;
  - multiplication by ξ and by ξ⁻¹;
  - the inverse through the norm.

Field elements are naturals below a modulus given as a parameter
(`Fp.Add`, `Fp.Mul`, …, `Fp.Inverse` by the extended Euclidean algorithm).

Modules:

| module | file | content |
|---|---|---|
| `Wrappers` | wrappers.dfy | the `Result` type |
| `Bits` | bits.dfy | powers of two, 64-bit words, bitwise and/or/and-not on naturals, little-endian limbs |
| `Digits` | digits.dfy | c-bit windows, the signed-digit recoding, the digit encoding |
| `Selector` | selector.dfy | the selector of a window, extracting and or-ing window bits in a multi-word scalar |
| `Partition` | partition.dfy | `partitionScalars` |
| `Chunk` | chunk.dfy | bucket placement, the running sum, the reduction of chunk totals |
| `MultiExp` | multiexp.dfy | `bestC`, the range split, `msmC*`, `msmInner`, `MultiExp` |
| `Fp` | fp.dfy | the base field as integers modulo p |
| `Fq2` | fq2.dfy | E2 for the three curves |
| `BitRev` | bitrev.dfy | k-bit reversal, `bits.Reverse64`, `bits.TrailingZeros64` |
| `Poly` | poly.dfy | monomial sums, Horner's rule, linearity |
| `Iop` | iop.dfy | forms, conversions, `PolynomialData`, `Polynomial` |

## Model

| member | source | states |
|---|---|---|
| `Digits.NbChunks` | ecc/bw6-756/multiexp.go:52-55 | the number of c-bit windows covers all 64·limbs bits of a scalar, and one window fewer would not |
| `Digits.Width` | ecc/bw6-756/multiexp.go:451-455 | the number of bits window j has inside the scalar: c, except for a shorter top window that ends exactly at bit 64·limbs (the `lastC` window) |
| `Digits.FullWidth` | ecc/bw6-756/multiexp.go:405-408 | every window below the top one is a full c bits wide, so it gets 2^(c-1) buckets |
| `Digits.Window` | ecc/bw6-756/multiexp.go:118-123 | the raw value of window j is below 2^c |
| `Digits.RecodeStep` | ecc/bw6-756/multiexp.go:125-135 | one recoding step: the digit is in [-2^(c-1), 2^(c-1)), the carry is 0 or 1, and digit + 2^c·carry equals window + incoming carry |
| `Digits.CarryAt` | ecc/bw6-756/multiexp.go:112-114 | the carry entering each window is 0 or 1 |
| `Digits.DigitAt` | ecc/bw6-756/multiexp.go:110-135 | every signed digit lies in [-2^(c-1), 2^(c-1)) |
| `Digits.RecodeValue` | ecc/bw6-756/multiexp.go:110-149 | the first n signed digits, weighted by 2^(k·c), plus the outgoing carry at 2^(n·c), equal the scalar modulo 2^(n·c) |
| `Digits.RecodeExact` | ecc/bw6-756/multiexp.go:110-149 | with no final carry, the digits of a value below 2^(n·c) add up to exactly that value |
| `Digits.Encode` | ecc/bw6-756/multiexp.go:137-142 | a digit is stored as itself, or as (-d-1) with the window's top bit set, in c bits |
| `Digits.EncodeNegative` | ecc/bw6-756/multiexp.go:141 | or-ing the top window bit into -d-1 adds 2^(c-1), since -d-1 is below it |
| `Digits.DigitOf` | ecc/bw6-756/multiexp.go:362-368 | reading the stored bits back yields a digit in the signed range (top bit clear: add bits; set: subtract bits &^ msbWindow + 1) |
| `Digits.EncodeDecode` | ecc/bw6-756/multiexp.go:137-142 | encoding is a bijection between the digit range and the c-bit values: DigitOf undoes Encode and Encode undoes DigitOf |
| `Digits.StoredWindow` | ecc/bw6-756/multiexp.go:144-147 | what is stored for window j is below 2^c, namely the encoding cut to the bits the window has inside the scalar |
| `Digits.StoredWindows` | ecc/bw6-756/multiexp.go:110-149 | one stored value per window, each below 2^c |
| `Digits.ZeroDigits` | ecc/bw6-756/multiexp.go:101-103 | a zero scalar has only zero digits and no carries, so skipping it loses nothing |
| `Digits.TopWindowSmall` | ecc/bw6-756/multiexp.go:110-149 | for a scalar below 2^(64·limbs-2), the top window is below 2^(Width-2), so adding a carry cannot reach the top digit's sign bit |
| `Digits.SmallScalarFits` | ecc/bw6-756/multiexp.go:110-149 | for a reduced scalar the recoding ends with no carry and the top digit fits in the top window, so the stored digits lose nothing |
| `Digits.WindowOfWeightedSum` | ecc/bw6-756/multiexp.go:144-147 | window j of a sum of c-bit digits at weights 2^(k·c) is digit j |
| `Selector.NewSelector` | ecc/bw6-756/multiexp.go:63-77 | the word index and shift place window j at bit j·c; the mask is c one-bits at the shift cut to 64 bits; multiWordSelect holds exactly when c does not divide 64, the window crosses the word and a next word exists; maskHigh and shiftHigh then take the remaining bits |
| `Selector.Insert` | ecc/bw6-756/multiexp.go:144-147 | or-ing window bits keeps the number of words |
| `Selector.DividesNoStraddle` | ecc/bw6-756/multiexp.go:60 | when c divides 64 no window crosses a word boundary, so the `cDivides64` shortcut is sound |
| `Selector.SelectorFacts` | ecc/bw6-756/multiexp.go:63-77 | every selector of a window inside the scalar reads existing words; a window that crosses a word without multiWordSelect is in the last word |
| `Selector.ExtractWindow` | ecc/bw6-756/multiexp.go:118-123 | masking, shifting and adding the high word's masked bits reads exactly bits [j·c, j·c + c) of the scalar's value |
| `Selector.InsertOneWord` | ecc/bw6-756/multiexp.go:144 | or-ing into a window inside one word whose bits above the shift are clear adds the bits that fit in the word at weight 2^(j·c) |
| `Selector.InsertTwoWords` | ecc/bw6-756/multiexp.go:144-147 | or-ing into a window that continues into an empty next word adds all c bits at weight 2^(j·c) |
| `Selector.InsertWindow` | ecc/bw6-756/multiexp.go:144-147 | or-ing a c-bit value into window j of a value below 2^(j·c) adds it there, cut to the window's width inside the scalar |
| `Partition.ComputeSelectors` | ecc/bw6-756/multiexp.go:62-77 | the selector array has one entry per chunk, and entry j is the selector of window j |
| `Partition.DigitizeScalar` | ecc/bw6-756/multiexp.go:110-149 | the digit loop leaves a row of limbs words, each below 2^64, whose value is the weighted sum of the stored windows |
| `Partition.PartitionScalar` | ecc/bw6-756/multiexp.go:91-149 | handling scalar i digitises row i, keeps the rows before it, and reports whether the scalar counts as small |
| `Partition.PartitionScalars` | ecc/bw6-756/multiexp.go:48-163 | every returned row holds the stored digits of its scalar, and smallValues is the number of scalars the source's test counts as small |
| `Partition.ZeroRow` | ecc/bw6-756/multiexp.go:101-103 | skipping a zero scalar leaves the zeroed row, which is its digitised value |
| `Partition.SmallCountStep` | ecc/bw6-756/multiexp.go:104-107 | counting scalar i adds one exactly when it passes the small-scalar test |
| `Partition.RecodeAt` | ecc/bw6-756/multiexp.go:132-135 | the loop's test `digit >= max` with the subtraction of 2^c computes the recoding's digit and carry |
| `Partition.InsertStep` | ecc/bw6-756/multiexp.go:137-147 | or-ing the encoded digit through the selector extends the partial row by the stored window j |
| `Partition.DigitizedWindow` | ecc/bw6-756/multiexp.go:144-147 | window j of the digitised scalar is the stored window j |
| `Partition.DigitizedDigit` | ecc/bw6-756/multiexp.go:351-369 | decoding window j of a digitised reduced scalar gives the signed digit j, which is within ±2^(Width-1) |
| `Partition.TopDigit` | ecc/bw6-756/multiexp.go:451-455 | the top digit of a reduced scalar is non-negative and fits the narrower top window, whose stored bits decode to it |
| `Partition.DigitizedZero` | ecc/bw6-756/multiexp.go:101-103 | zero digitises to zero |
| `Partition.SmallIffBelow` | ecc/bw6-756/multiexp.go:98-107 | the test (fits on one word, non-zero, unchanged by the c-bit mask) holds exactly for scalars with 0 < s < 2^c |
| `Chunk.ProcessChunk` | ecc/bw6-756/multiexp.go:324-386 | the chunk's total is Σ dᵢ·Pᵢ over the digits of window `chunk` of the digitised scalars |
| `Chunk.PlacePoint` | ecc/bw6-756/multiexp.go:357-368 | a point with zero bits is skipped; otherwise it is added to bucket bits-1 or subtracted from bucket bits &^ msbWindow |
| `Chunk.PlaceStep` | ecc/bw6-756/multiexp.go:351-369 | placing point i keeps the buckets equal to the buckets of the first i+1 points, and its bucket index is in range |
| `Chunk.RunningStep` | ecc/bw6-756/multiexp.go:374-382 | one step of the running sum keeps runningSum = Σ_{k≥K} bucket[k] and total + K·runningSum = Σ_{k≥K} (k+1)·bucket[k] |
| `Chunk.Buckets` | ecc/bw6-756/multiexp.go:334-336 | there are exactly as many buckets as allocated |
| `Chunk.BucketsWeighted` | ecc/bw6-756/multiexp.go:371-382 | Σ (k+1)·bucket[k] after placing all the points equals Σ dᵢ·Pᵢ |
| `Chunk.AddPointWeighted` | ecc/bw6-756/multiexp.go:362-368 | placing one point with digit d adds d·P to the weighted bucket sum |
| `Chunk.ReduceChunks` | ecc/bw6-756/multiexp.go:309-322 | c doublings between chunks, top chunk first, give Σ totalⱼ·2^(j·c) |
| `Chunk.HornerAt` | ecc/bw6-756/multiexp.go:313-319 | one doubling-then-add round extends the weighted sum of the higher chunks by chunk j |
| `Chunk.DotSplit` | ecc/bw6-756/multiexp.go:418-420 | the combination over the points splits at any index into the two halves' combinations |
| `Chunk.ChunkDigitsSlice` | ecc/bw6-756/multiexp.go:419-420 | the digits of a slice of the scalars are the slice of the digits |
| `MultiExp.Values` | ecc/bw6-756/multiexp.go:176 | one integer per scalar |
| `MultiExp.ChunkTotals` | ecc/bw6-756/multiexp.go:400-403 | one total per chunk |
| `MultiExp.RowDigits` | ecc/bw6-756/multiexp.go:351-369 | one digit per chunk for each digitised scalar |
| `MultiExp.RowValues` | ecc/bw6-756/multiexp.go:351-369 | one value per digitised scalar |
| `MultiExp.DotLinear` | ecc/bw6-756/multiexp.go:309-322 | the combination is linear in the digits |
| `MultiExp.SwapSums` | ecc/bw6-756/multiexp.go:309-322 | Σⱼ 2^(j·c)·(Σᵢ dᵢⱼ·Pᵢ) = Σᵢ (Σⱼ dᵢⱼ·2^(j·c))·Pᵢ: combining the chunk totals is the combination with the digits' values |
| `MultiExp.RowValue` | ecc/bw6-756/multiexp.go:91-149 | the digits of a digitised reduced scalar stand for the scalar |
| `MultiExp.ChunkFits` | ecc/bw6-756/multiexp.go:450-459 | every digit of a chunk has its bucket among the 2^(Width-1) allocated, the top window's fewer buckets included |
| `MultiExp.RowsValue` | ecc/bw6-756/multiexp.go:260 | the digitised rows stand for the scalars' values |
| `MultiExp.SplitChunk` | ecc/bw6-756/multiexp.go:417-427 | splitting the points in two halves and adding the halves' totals gives the chunk's total |
| `MultiExp.RunChunk` | ecc/bw6-756/multiexp.go:405-412 | a chunk with its own buckets computes the combination with that chunk's digits |
| `MultiExp.MsmC` | ecc/bw6-756/multiexp.go:433-483 | the c-bit bucket method returns Σ sᵢ·Pᵢ whether the first chunk is split or not |
| `MultiExp.RunFirstChunk` | ecc/bw6-756/multiexp.go:414-428 | chunk 0 computed whole or as the sum of two halves gives the same total |
| `MultiExp.MsmInner` | ecc/bw6-756/multiexp.go:287-306 | an implemented width gives Σ sᵢ·Pᵢ; any other width fails ("not implemented") |
| `MultiExp.BestC` | ecc/bw6-756/multiexp.go:216-238 | the chosen width is implemented, of least estimated cost, and the first one of that cost |
| `MultiExp.MultiExp` | ecc/bw6-756/multiexp.go:176-285 | mismatched lengths fail with "len(points) != len(scalars)"; otherwise the result is Σ sᵢ·Pᵢ |
| `MultiExp.SumRanges` | ecc/bw6-756/multiexp.go:267-284 | the ranges' results, the last range taking the rest, add up to Σ sᵢ·Pᵢ |
| `MultiExp.RunRange` | ecc/bw6-756/multiexp.go:272-274 | the bucket method on points[start:end] gives the combination over that range |
| `MultiExp.SplitWork` | ecc/bw6-756/multiexp.go:240-254 | the loop ends with a power-of-two number of ranges, at most nbTasks, holding at least nbTasks chunks between them; points per range equal to the total divided by the number of ranges; and the width is an implemented one of least cost for that number of points, the smallest among equal costs |
| `MultiExp.RangesFit` | ecc/bw6-756/multiexp.go:267-279 | every range start, up to (nbSplits-1)·nbPoints, is inside the points |
| `MultiExp.PowersOfTwo` | ecc/bw6-756/multiexp.go:251 | doubling from one gives powers of two |
| `MultiExp.SplitStep` | ecc/bw6-756/multiexp.go:250-253 | a doubling happens only while the chunks are fewer than nbTasks, so the number of ranges stays below nbTasks |
| `MultiExp.HalvedDiv` | ecc/bw6-756/multiexp.go:252 | halving k times, rounding down each time, is dividing by 2^k |
| `Fp.Add` | internal/templates/fq12over6over2/fq2.go:94-98 | base-field sums are reduced |
| `Fp.AddMod` | internal/templates/fq12over6over2/fq2.go:94-98 | the sum is congruent to the sum of the integers the operands stand for |
| `Fp.SubMod` | internal/templates/fq12over6over2/fq2.go:108-112 | the difference is congruent to the integers' difference |
| `Fp.NegMod` | internal/templates/fq12over6over2/fq2.go:68-72 | the negation is congruent to the integer's negation |
| `Fp.DoubleMod` | internal/templates/fq12over6over2/fq2.go:122-126 | doubling is congruent to twice the integer |
| `Fp.MulMod` | internal/templates/fq12over6over2/fq2.go:135-141 | the product is congruent to the integers' product |
| `Fp.SquareMod` | internal/templates/fq12over6over2/fq2.go:182-192 | the square is congruent to the integer's square |
| `Fp.AddNegCancel` | internal/templates/fq12over6over2/fq2.go:68-72 | a + (-a) = 0 |
| `Fp.AddSubCancel` | internal/templates/fq12over6over2/fq2.go:108-112 | subtraction undoes addition |
| `Fp.NegNeg` | internal/templates/fq12over6over2/fq2.go:144-148 | negation is an involution on reduced values |
| `Fp.ExtGcdBezout` | internal/templates/fq12over6over2/fq2.go:226-237 | the extended Euclidean algorithm returns Bezout coefficients of its gcd |
| `Fp.InverseCorrect` | internal/templates/fq12over6over2/fq2.go:226-237 | for a prime p, a·a⁻¹ = 1 for every a not a multiple of p |
| `Fp.InverseUnique` | internal/templates/fq12over6over2/fq2.go:226-237 | any reduced b with a·b ≡ 1 is the computed inverse |
| `Fq2.Product` | internal/templates/fq12over6over2/fq2.go:169-179 | the schoolbook product (x0 + x1u)(y0 + y1u) with u² = β is reduced |
| `Fq2.Norm` | internal/templates/fq12over6over2/fq2.go:226-237 | the norm x0² − β·x1² is reduced |
| `Fq2.Equal` | internal/templates/fq12over6over2/fq2.go:15-17 | true exactly when both coordinates are equal |
| `Fq2.SetZero` | internal/templates/fq12over6over2/fq2.go:27-31 | the result is zero |
| `Fq2.IsZero` | internal/templates/fq12over6over2/fq2.go:63-65 | true exactly for (0, 0) |
| `Fq2.SetOne` | internal/templates/fq12over6over2/fq2.go:49-53 | one is non-zero and an element for every modulus above 1; `ProductOne` shows it is the product's neutral element |
| `Fq2.Neg` | internal/templates/fq12over6over2/fq2.go:68-72 | the negation is a reduced element; `AddNeg` shows x + Neg(x) = 0 |
| `Fq2.Add` | internal/templates/fq12over6over2/fq2.go:94-98 | the sum is a reduced element; `AddZero` and `AddSub` relate it to zero and to Sub |
| `Fq2.Sub` | internal/templates/fq12over6over2/fq2.go:108-112 | the difference is a reduced element; `AddSub` shows it undoes Add |
| `Fq2.AddAssign` | internal/templates/fq12over6over2/fq2.go:101-105 | z += x is Add(z, x) |
| `Fq2.SubAssign` | internal/templates/fq12over6over2/fq2.go:115-119 | z -= x is Sub(z, x) |
| `Fq2.Double` | internal/templates/fq12over6over2/fq2.go:122-126 | doubling is adding the element to itself |
| `Fq2.MulAssign` | internal/templates/fq12over6over2/fq2.go:129-132 | z *= x is the product of z and x |
| `Fq2.MulByElement` | internal/templates/fq12over6over2/fq2.go:135-141 | the result is a reduced element; `MulByElementIsProduct` shows it is the product with y + 0·u |
| `Fq2.Conjugate` | internal/templates/fq12over6over2/fq2.go:144-148 | keeps A0 and replaces A1 by its reduced negation (A1 plus it is 0); `ConjugateInvolution` shows conjugating twice restores a reduced element |
| `Fq2.Mul` | internal/templates/fq12over6over2/fq2.go:169-179 | the product is a reduced element (bn256; bls381 at 244-254, bls377 at 317-327); `MulIsProduct` shows it equals the schoolbook product |
| `Fq2.Square` | internal/templates/fq12over6over2/fq2.go:182-192 | the square is a reduced element (bn256; bls381 at 257-267, bls377 at 330-340); `SquareIsMul` shows it equals Mul(x, x) |
| `Fq2.MulByNonResidue` | internal/templates/fq12over6over2/fq2.go:195-202 | maps reduced elements to reduced elements (bls381 at 270-276, bls377 at 343-349); `MulByNonResidueIsProduct` shows it is the product with ξ |
| `Fq2.MulByNonResidueInv` | internal/templates/fq12over6over2/fq2.go:205-223 | maps reduced elements to reduced elements (bls381 at 279-296, bls377 at 352-366); `MulByNonResidueInvIsProduct` shows it is the product with ξ⁻¹ and `NonResidueRoundTrip` that it undoes MulByNonResidue |
| `Fq2.Inverse` | internal/templates/fq12over6over2/fq2.go:226-237 | the inverse is a reduced element (bls381 at 299-310, bls377 at 369-384); `InverseIsInverse` shows x·Inverse(x) = 1 for a non-zero norm |
| `Fq2.AddZero` | internal/templates/fq12over6over2/fq2.go:94-98 | zero is neutral for Add on reduced elements |
| `Fq2.AddNeg` | internal/templates/fq12over6over2/fq2.go:68-72 | x + Neg(x) is zero |
| `Fq2.AddSub` | internal/templates/fq12over6over2/fq2.go:108-112 | Sub undoes Add |
| `Fq2.ConjugateInvolution` | internal/templates/fq12over6over2/fq2.go:144-148 | conjugating twice gives back a reduced element |
| `Fq2.MulIsProduct` | internal/templates/fq12over6over2/fq2.go:169-179 | Karatsuba multiplication (also bls381 at lines 244-254 and bls377, with the 5-times formula, at 317-327) equals the schoolbook product |
| `Fq2.MulByElementIsProduct` | internal/templates/fq12over6over2/fq2.go:135-141 | multiplying by a base-field y is the product with y + 0·u |
| `Fq2.ProductOne` | internal/templates/fq12over6over2/fq2.go:49-53 | SetOne is neutral for the product on reduced elements |
| `Fq2.SquareIsMul` | internal/templates/fq12over6over2/fq2.go:182-192 | squaring (also bls381 at 257-267 and bls377 at 330-340) equals Mul(x, x) and the schoolbook x·x |
| `Fq2.MulByNonResidueIsProduct` | internal/templates/fq12over6over2/fq2.go:195-202 | multiplying by the non-residue (also bls381 at 270-276 and bls377 at 343-349) is the product with ξ |
| `Fq2.InverseNormIsNorm` | internal/templates/fq12over6over2/fq2.go:226-237 | the norm the inverse computes (for bls377, x0² − 5x1²) is x0² − β·x1² |
| `Fq2.InverseIsInverse` | internal/templates/fq12over6over2/fq2.go:226-237 | for a prime p and a non-zero norm, x times Inverse(x) is one, as the schoolbook product and as Mul |
| `Fq2.ProductAssociates` | internal/templates/fq12over6over2/fq2.go:169-179 | the product is associative |
| `Fq2.NonResidueNorm` | internal/templates/fq12over6over2/fq2.go:205-223 | ξ has a non-zero norm for every base-field modulus, so it is invertible |
| `Fq2.NonResidueInverse381` | internal/templates/fq12over6over2/fq2.go:279-296 | the bls381 inverse of 1 + u is (1/2, −1/2) |
| `Fq2.NonResidueInverse377` | internal/templates/fq12over6over2/fq2.go:352-366 | the bls377 inverse of u is (0, 1/5) |
| `Fq2.MulByNonResidueInvIsProduct` | internal/templates/fq12over6over2/fq2.go:205-223 | multiplying by ξ⁻¹ (the bn256 inverse, bls381's halving at 279-296, bls377's fifth at 352-366) is the product with the inverse of ξ |
| `Fq2.NonResidueRoundTrip` | internal/templates/fq12over6over2/fq2.go:195-223 | MulByNonResidueInv undoes MulByNonResidue on reduced elements |
| `BitRev.ToBits` | ecc/bw6-761/fr/iop/polynomial.go:256-260 | an index is read as k bits |
| `BitRev.Reverse` | ecc/bw6-761/fr/iop/polynomial.go:258 | position j of the reversal holds element (length − 1 − j) |
| `BitRev.FromToBits` | ecc/bw6-761/fr/iop/polynomial.go:256-260 | reading k bits of a value below 2^k back gives the value |
| `BitRev.ToFromBits` | ecc/bw6-761/fr/iop/polynomial.go:256-260 | the bits of the value of a bit sequence are that sequence |
| `BitRev.ReverseBitsBound` | ecc/bw6-761/fr/iop/polynomial.go:258 | the k-bit reversal stays below 2^k |
| `BitRev.ReverseBitsInvolution` | ecc/bw6-761/fr/iop/polynomial.go:258 | the k-bit reversal is its own inverse below 2^k, so it permutes the indices |
| `BitRev.ShiftedReverse` | ecc/bw6-761/fr/iop/polynomial.go:256-258 | `bits.Reverse64(i) >> (64 - k)` is the k-bit reversal of i |
| `BitRev.ReverseBitsMod` | ecc/bw6-761/fr/iop/polynomial.go:203-205 | the k-bit reversal depends only on the index modulo 2^k |
| `BitRev.TrailingZerosPow2` | ecc/bw6-761/fr/iop/polynomial.go:256 | 2^k has k trailing zeros |
| `BitRev.Pow2TrailingZeros` | ecc/bw6-761/fr/iop/polynomial.go:256 | a non-zero size is at least 2^(its trailing zeros) |
| `BitRev.Pow2DividesSize` | ecc/bw6-761/fr/iop/polynomial.go:202-203 | 2 to the trailing zeros of n divides n, so the low t bits of an index depend only on it modulo n |
| `BitRev.TrailingZerosBound` | ecc/bw6-761/fr/iop/polynomial.go:256 | a non-zero 64-bit size has fewer than 64 trailing zeros, so the shift stays below 64 |
| `BitRev.DomainSizePow2` | ecc/bw6-761/fr/iop/polynomial.go:256 | every 2^k with k < 64 is a domain size |
| `Poly.HornerIsPolySum` | ecc/bw6-761/fr/iop/polynomial.go:251-254 | Horner's rule computes the monomial sum Σ cₖ·x^k |
| `Poly.PolySumCombine` | ecc/bw6-761/fr/iop/polynomial.go:141-146 | the value of a − b + e is the same combination of the values |
| `Poly.PolySumZerosRight` | ecc/bw6-761/fr/iop/polynomial.go:345-350 | padding with zeros does not change the value |
| `Poly.PolySumZerosLeft` | ecc/bw6-761/fr/iop/polynomial.go:145 | d zeros below the constant term multiply the value by x^d |
| `Poly.PolySumCongruent` | ecc/bw6-761/fr/iop/polynomial.go:141-146 | coefficients congruent modulo m give values congruent modulo m |
| `Iop.RegularConversion` | ecc/bw6-761/fr/iop/polynomial.go:269-276 | the basis is kept, the layout becomes regular, and the calls take the old form to the new one |
| `Iop.BitReverseConversion` | ecc/bw6-761/fr/iop/polynomial.go:280-287 | the basis is kept, the layout becomes bit-reversed, and the calls chain |
| `Iop.LagrangeConversion` | ecc/bw6-761/fr/iop/polynomial.go:291-316 | succeeds exactly on the six known forms, with a Lagrange result reached by a valid chain of FFT calls; otherwise fails with "unknown ID" |
| `Iop.CanonicalConversion` | ecc/bw6-761/fr/iop/polynomial.go:320-343 | succeeds exactly on the known forms, with a canonical result reached by a valid chain of calls; otherwise "unknown ID" |
| `Iop.LagrangeCosetConversion` | ecc/bw6-761/fr/iop/polynomial.go:353-379 | succeeds exactly on the known forms, with a coset-Lagrange result reached by a valid chain of calls; otherwise "unknown ID" |
| `Iop.ChainLayout` | ecc/bw6-761/fr/iop/polynomial.go:291-379 | every call flips the layout: an odd chain flips it, an even chain keeps it |
| `Iop.AlreadyInTarget` | ecc/bw6-761/fr/iop/polynomial.go:291-379 | a form already in the target basis is kept with no call |
| `Iop.CanonicalRoundTrip` | ecc/bw6-761/fr/iop/polynomial.go:291-379 | canonical → (coset) Lagrange → canonical restores the form, layout included |
| `Iop.LayoutConversionsIdempotent` | ecc/bw6-761/fr/iop/polynomial.go:269-287 | changing the layout keeps the basis; doing it twice makes no further call |
| `Iop.Grown` | ecc/bw6-761/fr/iop/polynomial.go:345-350 | growing never shrinks, keeps the prefix, and pads with zeros up to newSize |
| `Iop.ReadingOrder` | ecc/bw6-761/fr/iop/polynomial.go:244-265 | the reading order has the vector's length |
| `Iop.Blinded` | ecc/bw6-761/fr/iop/polynomial.go:141-146 | blinding keeps the length |
| `Iop.BigEndian` | ecc/bw6-761/fr/iop/polynomial.go:389-404 | a 32-bit word is written as four bytes |
| `Iop.Encode` | ecc/bw6-761/fr/iop/polynomial.go:389-404 | four bytes per word |
| `Iop.Decode` | ecc/bw6-761/fr/iop/polynomial.go:425-432 | one word per four bytes |
| `Iop.FromToBigEndian` | ecc/bw6-761/fr/iop/polynomial.go:389-440 | reading back a big-endian word gives the word |
| `Iop.DecodeEncode` | ecc/bw6-761/fr/iop/polynomial.go:389-440 | decoding the written words gives the words back |
| `Iop.HeaderWords` | ecc/bw6-761/fr/iop/polynomial.go:389-396 | the header is five words |
| `Iop.HeaderRoundTrip` | ecc/bw6-761/fr/iop/polynomial.go:382-441 | reading back a written header restores basis, layout, shift, dimension and blinded size whenever they are below 2^32 |
| `Iop.HornerStep` | ecc/bw6-761/fr/iop/polynomial.go:252-253 | one `r = r·x + c` step modulo m extends Horner's value by one coefficient |
| `Iop.ReadIndex` | ecc/bw6-761/fr/iop/polynomial.go:256-260 | Go's index `Reverse64(i) >> nn` is the reversal of the low t bits of i and lies inside the vector |
| `Iop.BlindedStep` | ecc/bw6-761/fr/iop/polynomial.go:141-146 | one round of the loop (subtract qᵢ at i, add it at i + dimension) extends the closed form by qᵢ, also when dimension is 0 |
| `Iop.AddMultiple` | ecc/bw6-761/fr/iop/polynomial.go:111-118 | the coefficients of C + Q·(X^d − 1) keep the length |
| `Iop.BlindedCongruent` | ecc/bw6-761/fr/iop/polynomial.go:141-146 | coefficient by coefficient, blinding gives C + Q·(X^d − 1) modulo m |
| `Iop.CombinedValue` | ecc/bw6-761/fr/iop/polynomial.go:111-118 | the value of C − Q + X^d·Q is C(x) − Q(x) + x^d·Q(x) |
| `Iop.AddMultipleValue` | ecc/bw6-761/fr/iop/polynomial.go:111-118 | the value of AddMultiple at x is C(x) + Q(x)·(x^d − 1) |
| `Iop.BlindAddsMultiple` | ecc/bw6-761/fr/iop/polynomial.go:111-146 | the blinded polynomial agrees with P + Q·(X^d − 1) modulo m at every point |
| `Iop.TruncRemOffset` | ecc/bw6-761/fr/iop/polynomial.go:200 | Go's truncated remainder differs from the Euclidean remainder by a multiple of n |
| `Iop.CoeffIndex` | ecc/bw6-761/fr/iop/polynomial.go:198-205 | when 2^k divides n, Go's remainder by n, reinterpreted as uint64 and cut to k bits, equals the Euclidean remainder cut to k bits |
| `Iop.CoeffAt` | ecc/bw6-761/fr/iop/polynomial.go:195-207 | the entry Go's `GetCoeff` reads for index a is entry a mod n of the reading order, in either layout and for any length |
| `Iop.GoInt` | ecc/bw6-761/fr/iop/polynomial.go:200 | Go's int result lies in [−2^63, 2^63), is congruent to the exact value modulo 2^64, and equals it when it fits |
| `Iop.ShiftedIndex` | ecc/bw6-761/fr/iop/polynomial.go:200 | Go's `i+rho*p.shift` lies in the int range and is the exact sum whenever the product and the sum fit |
| `Iop.WrappedIndexNegative` | ecc/bw6-761/fr/iop/polynomial.go:198-200 | with n = dimension = 8 and shift = 2, the index 2^63 − 1 wraps to −2^63 + 1, whose Go remainder by 8 is −7, an index the source panics on |
| `Iop.TruncRemNonneg` | ecc/bw6-761/fr/iop/polynomial.go:198-200 | a non-negative Go remainder is the Euclidean one |
| `Iop.BitReversedCoeff` | ecc/bw6-761/fr/iop/polynomial.go:203-205 | for any length, the bit-reversed read is the reading order at a mod n |
| `Iop.ShiftedCoeff` | ecc/bw6-761/fr/iop/polynomial.go:198-205 | for any length, reversing the low bits of the uint64 of Go's remainder reads the same entry as reversing those of the Euclidean remainder |
| `Iop.PolynomialData.constructor` | ecc/bw6-761/fr/iop/polynomial.go:223-225 | the inner polynomial holds the given coefficients and form |
| `Iop.PolynomialData.Grow` | ecc/bw6-761/fr/iop/polynomial.go:345-350 | the coefficients become Grown(old, newSize); the form is kept |
| `Iop.PolynomialData.Clone` | ecc/bw6-761/fr/iop/polynomial.go:228-240 | a fresh copy with equal coefficients and form |
| `Iop.PolynomialData.Evaluate` | ecc/bw6-761/fr/iop/polynomial.go:244-265 | a non-canonical basis fails with "p must be in canonical basis"; otherwise the result is Σ cₖ·x^k mod m over the reading order |
| `Iop.Polynomial.constructor` | ecc/bw6-761/fr/iop/polynomial.go:84-90 | a fresh polynomial over the coefficients with shift 0 and dimension and blinded size equal to the length |
| `Iop.Polynomial.Shift` | ecc/bw6-761/fr/iop/polynomial.go:94-97 | sets the shift and nothing else |
| `Iop.Polynomial.Dimension` | ecc/bw6-761/fr/iop/polynomial.go:106-109 | returns the dimension, which the constructor sets to the length and `GetCoeff` divides n by |
| `Iop.Polynomial.BlindedSize` | ecc/bw6-761/fr/iop/polynomial.go:101-104 | returns the blinded size, which the constructor sets to the length and `Blind` to dimension + order + 1 |
| `Iop.Polynomial.ShallowClone` | ecc/bw6-761/fr/iop/polynomial.go:189-192 | a fresh wrapper sharing the coefficient vector, with equal fields |
| `Iop.Polynomial.Clone` | ecc/bw6-761/fr/iop/polynomial.go:181-185 | a fresh wrapper over a fresh copy of the coefficients, with equal fields |
| `Iop.Polynomial.GetCoeff` | ecc/bw6-761/fr/iop/polynomial.go:195-207 | coefficient i of the shifted polynomial is entry a mod n of the reading order, where a is i + (n/dimension)·shift computed in Go's 64-bit int (`ShiftedIndex`), so exactly i + (n/dimension)·shift when no step overflows |
| `Iop.Polynomial.Blind` | ecc/bw6-761/fr/iop/polynomial.go:121-151 | fails unless canonical-regular, or with a negative length for Q after the resize; otherwise grows to dimension + order + 1, blinds the coefficients with Q at distance dimension, sets the blinded size, and returns Q as a fresh canonical-regular polynomial |
| `Iop.Polynomial.ToRegular` | ecc/bw6-761/fr/iop/polynomial.go:269-276 | the new form and coefficients are those of the regular-layout conversion |
| `Iop.Polynomial.ToBitReverse` | ecc/bw6-761/fr/iop/polynomial.go:280-287 | the new form and coefficients are those of the bit-reversed conversion |
| `Iop.Polynomial.Convert` | ecc/bw6-761/fr/iop/polynomial.go:291-379 | grows to the domain's cardinality, then takes the conversion's form and applies its calls; an unknown form fails after the resize with the form kept |
| `Iop.Polynomial.ToLagrange` | ecc/bw6-761/fr/iop/polynomial.go:291-316 | grows, then converts to Lagrange form by the table's FFT calls, or fails with "unknown ID" |
| `Iop.Polynomial.ToCanonical` | ecc/bw6-761/fr/iop/polynomial.go:320-343 | grows, then converts to canonical form by the table's inverse FFT calls, or fails with "unknown ID" |
| `Iop.Polynomial.ToLagrangeCoset` | ecc/bw6-761/fr/iop/polynomial.go:353-379 | grows, then converts to coset-Lagrange form by the table's calls, or fails with "unknown ID" |
| `Iop.Polynomial.WriteHeader` | ecc/bw6-761/fr/iop/polynomial.go:389-404 | writes basis, layout, uint32(shift), uint32(dimension) and uint32(blindedSize) as big-endian words |
| `Iop.Polynomial.ReadHeader` | ecc/bw6-761/fr/iop/polynomial.go:422-440 | with 20 bytes or more, sets the five fields from the decoded words and consumes 20 bytes; with fewer, consumes them all, fails with "EOF" at a word boundary and "unexpected EOF" inside a word, and leaves the polynomial unchanged |

## Left out

- Concurrency. Goroutines, channels and `parallel.Execute` are left out.
  The chunks, the split first chunk and the ranges are computed one after
  another. `nbTasks` only shapes the range split.
- Curve arithmetic. Points are integers and the group law is `+`; the
  point at infinity is 0, so the running sum's `ZZ.IsZero` test on a bucket
  is `buckets[k] != 0`. The Jacobian, extended-Jacobian and affine formulas
  are not part of this model. The G2 copies (line 576 on) repeat the G1
  code on another group.
- Floating point. `bestC`'s cost `float64(cc)/float64(c)` is an exact
  rational (`Cost`, scaled by 80). The 10% test for splitting the first
  chunk is `10·smallValues >= len(scalars)`. An empty input does not split,
  as the NaN comparison makes the source do.
- `scalarsMont` and `FromMont` are left out. Scalars are given by their
  value in 64-bit little-endian limbs.
- MultiExp.MultiExp: requires every scalar below 2^(64·6 − 2). This holds
  for any reduced scalar of the BW6-756 scalar field (378 bits). It is the
  case in which the recoding loses no top carry.
- MultiExp.MultiExp: Go's 64-bit `int` is not modelled in the work split.
  For nbTasks above 3·2^61 the source's product `nbChunks *= nbSplits`
  (multiexp.go:249) overflows and wraps to a negative value, so the loop at
  multiexp.go:243-254 never ends; the model, on unbounded integers, ends and
  returns Σ sᵢ·Pᵢ. nbTasks defaults to the number of CPUs.
- MultiExp.SplitWork: on unbounded integers, as for `MultiExp`; the
  contract does not hold for the source when nbTasks exceeds 3·2^61, where
  the source does not terminate.
- Panics (`not implemented`, the form check in `Blind`, a negative `make`
  length, `evaluate` outside the canonical basis) are modelled as `Failure`
  results with the panic message.
- The FFT and `fft.BitReverse` belong to another package. They are a
  `Transformer` parameter, and only the calls made and the form they leave
  are specified.
- `Polynomial.Evaluate` (the shifted evaluation through the domain
  generator, lines 155-176) is not part of this model. Its `shift > 5`
  branch uses a generator variable that is never set.
- The `Coefficients` accessor and the capacity of cloned slices are left
  out. So are aliasing between a polynomial's vector and a slice its
  caller still holds, and aliasing between E2 receivers and operands. E2
  operations are functions on values.
- `WriteTo` and `ReadFrom`: only the five-word header is modelled. The
  coefficient vector's own encoding and I/O errors are not part of this
  model, nor is the nil-receiver handling of `ReadFrom` (lines 410-416).
- Randomness. `SetRandom` in `Blind` is the `randomness` parameter, of
  which the first blindingOrder + 1 values are drawn.
- The moduli of fr and fp are parameters, and field elements are naturals
  below them. Montgomery form, `String`, `SetString`, `SetRandom`,
  `ToMont` and `FromMont` of E2 are not part of this model. The
  precomputed constants of `MulByNonResidueInv` are computed: bls381's and
  bls377's are the base-field inverses of 2 and 5, and bn256's is the E2
  inverse of ξ = 9 + u, as `Inverse` computes it (`NonResidueInverse`).
- The `fp` and `fr` packages are not part of this model. Their element
  operations are integers modulo the modulus (`Fp`), used as E2's
  coordinates and as the polynomial coefficients.
- Go's `int` lengths are bounded by 2^64 (`Word`) where the bit-reversal
  formula needs a 64-bit index.
- Iop.Polynomial.GetCoeff: the precondition excludes three inputs on which the source panics: a dimension of 0 (integer
  division by zero in `n / p.dimension`, polynomial.go:198), an empty
  coefficient vector (`% n` with n = 0, polynomial.go:200 and 203), and a
  regular index that is still negative after the shift (out-of-range
  slice index).
- Iop.CoeffAt: excludes the same panicking inputs as `GetCoeff`.
- Iop.BlindAddsMultiple: states the relation modulo m to AddMultiple, whose
  value at every point is then given by `AddMultipleValue`.
