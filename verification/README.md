# Verified models of chainsqld's Ed25519 arithmetic and RLP codec

This project models two parts of chainsqld and proves what they compute:

* the 64-bit Ed25519 implementation under `src/ed25519-donna`: scalars modulo the group order m, digit recoding,
  field elements modulo p = 2^255 - 19, curve points, scalar multiplication, SHA-512, signing, verification,
  and the Bos-Coster multi-scalar multiplication behind batch verification;
* the RLP reader and streaming writer in `src/eth/tools/RLP.h` and `src/eth/tools/RLP.cpp`.

The two main chains of results are:

* From limbs to signatures. Every operation on 56-bit and 51-bit limbs is proved against integer arithmetic mod m or
  mod p, without wrap-around. On top of that, every point formula is proved against the group law, both scalar
  multiplications against multiples in the group, packing and unpacking of points against each other, and hashing in
  pieces against hashing at once, which is in turn proved to be SHA-512 as FIPS 180-4 writes it. The chain ends in `Ed25519.SignOpen`, which returns 0 exactly when the verification
  equation holds, in `Ed25519.SignThenOpen`: for every secret key and message, signing and then opening succeeds, and in
  `BatchVerify.SignOpenBatch`: a signature is found valid in a batch exactly if single verification accepts it or the batch
  comes out neutral. `BatchVerify.PassMeans` says what a neutral batch tells, and `BatchMeaning` what the sum behind it says
  about each signature.
* RLP. `RlpWriter.Stream` keeps, through every sequence of appends, that its bytes are what was appended with the
  prefixes of the open lists still missing; a whole tree comes out as its recursive encoding. `RlpRoundTrip` proves that
  reading and encoding are inverse to each other, in both directions and with the exact size limit. `RlpIndex` gives the
  answers of the cached index operator for every sequence of calls on every input, and `RlpIterator` those of the
  iterator.

| file | what it holds |
|---|---|
| `Basics`, `Words`, `Bits` | shared definitions; machine words, byte strings, powers; bitwise operations and masked moves |
| `Modm`, `ModmBatch` | scalars modulo m, and the variable-width operations of the batch code |
| `Recode`, `Sliding` | signed radix 16 digits and sliding windows |
| `Group`, `Edwards` | abelian groups and their multiples; the curve and its addition formulas |
| `Field`, `FieldChain`, `Roots` | field elements, the two addition chains, square roots |
| `Points`, `Codec` | points in limb form, and as 32 bytes |
| `ScalarMult`, `BaseMult` | [s1]P + [s2]B, and [s]B |
| `HeapOrder`, `BatchHeap`, `FinalStep`, `BosCoster` | the scalar heap, the last step and the run of the multi-scalar multiplication |
| `ShaWords`, `Sha512`, `Ed25519` | the word functions of SHA-512, hashing in pieces; keys and signatures |
| `Fips180`, `ShaTables`, `ShaStandard` | SHA-512 as the standard writes it, its constants as roots of primes, and that `Sha512` computes it |
| `BatchSum`, `BatchVerify`, `BatchMeaning` | the sum behind a batch of signatures, their verification, and what it says about each of them |
| `RlpSpec`, `RlpReader`, `RlpRoundTrip`, `RlpIndex`, `RlpIterator`, `RlpWriter` | RLP |

## What is assumed

Facts of mathematics and of constant tables appear as predicates that the theorems require:

* `Edwards.Fermat`: x^(p-1) = 1 for every nonzero x mod p. That products of nonzero elements are nonzero is derived.
* `Edwards.EdwardsCurve`: the points of -x^2 + y^2 = 1 + d x^2 y^2 form an abelian group under the complete addition
  formulas. `G` stands for the type of points, so the results hold for any such group.
* `Ed25519.Setting`: the base point has order m, and the two constant tables hold the multiples they are documented to
  hold (`BaseMult.BaseTable`, `ScalarMult.OddBaseMultiples`).
* `Points.StoredBase`, for batches: the base point has the coordinates of the stored constant. That these are on the curve is
  proved (`Points.BaseCoordinates`).
* `BosCoster.TorsionFree`, where a batch result is compared with its sum: among the multiples of the base point only zero
  has small multiples that vanish. `BatchVerify.PrimeOrder` derives it from the primality of m.
* `BatchMeaning.PrimeBase`, where the sum is taken apart into signatures: m is prime, and the base point is not zero.
* Random bytes are a parameter, and memory allocation is outside the model.

## Where the code differs from what it says

* `ge25519_multi_scalarmult_vartime_final` does not return s P for most remaining scalars s > 1. With v for the low four
  limbs of s, it returns (v + 2^k) P where 2^k is the least power of two above v, and it runs past limb 0 when v is zero
  (`None` in the model). `FinalOvershoots` has an input. `ExactForLargeOrder` has the scalars that come out right at a
  point of large order, and `ExactForOrder` those at a point of any finite order.
* `ge25519_multi_scalarmult_vartime` covers all entries only if it gets to extend its heap. `MultiScalarMult` states
  the exact condition on the input: two nonzero scalars among the initial ones, with no common divisor of 2^128 or more.
  `MissesEntries` has an input without it, and `FinalAnswers` says when the result is the whole sum.
* So a batch can come out neutral although its sum is not zero, and the other way round. `NeutralExactly` says when the two
  agree: if the heap is extended, and the scalars have no common divisor or the points have large order.
* Batch verification and single verification do not check the same thing. `AcceptedExactly` has the difference for one
  signature: single verification also wants the top three bits of the second half to be clear and the first half to be
  encoded canonically. In a batch the second half counts modulo m (`ResiduesDecide`, `UnreducedPart`).
* The comment of `curve25519_square_times` says in^(2 * count); the code computes in^(2^count).
* The index operator of RLP nodes is documented to return the null node for anything but a list; the code reads items from
  the payload of a byte string too (`IndexOfData`). The byte 1 is an input (`DataExample`).
* After an exception the index operator can refuse a good item: the one before the fault, until an earlier one is asked for.
  `AnsweredAfresh` has the calls for which this happens, and `SpoiledExample` an input.
* Going from `begin` to `end` of an RLP list never ends if the data does not end with the payload (`Walk`). The bytes c0 00 are
  an input (`WalkExample`).

## Model

| member | source | states |
|---|---|---|
| `Modm.LtModm` | src/ed25519-donna/modm-donna-64bit.h:37-40 | the sign bit of the wrapped difference is 1 exactly when a < b, for words below 2^63 |
| `Modm.Reduce` | src/ed25519-donna/modm-donna-64bit.h:42-63 | one conditional subtraction of m: a value below 2m becomes its residue, with normal limbs |
| `Modm.BarrettQuotient` | src/ed25519-donna/modm-donna-64bit.h:71-85 | the truncated columns of mu q1 give the quotient up to a small error, with no 128-bit overflow |
| `Modm.BarrettProduct` | src/ed25519-donna/modm-donna-64bit.h:87-96 | the low 264 bits of q3 m |
| `Modm.BarrettError` | src/ed25519-donna/modm-donna-64bit.h:65-107 | the estimated quotient is at most two below the true one, for every 512-bit x |
| `Modm.Barrett` | src/ed25519-donna/modm-donna-64bit.h:65-107 | q1 and r1 of x go to x mod m, fully reduced, also when the result overwrites r1 |
| `Modm.Add` | src/ed25519-donna/modm-donna-64bit.h:110-121 | (x + y) mod m, reduced, for sums below 2m |
| `Modm.MulColumns` | src/ed25519-donna/modm-donna-64bit.h:129-145 | the nine column sums have the product as value and fit 128 bits |
| `Modm.SplitProduct` | src/ed25519-donna/modm-donna-64bit.h:129-147 | cuts the columns into x mod 2^264 and x / 2^248 |
| `Modm.Mul` | src/ed25519-donna/modm-donna-64bit.h:123-150 | (x y) mod m, reduced, for all normal limbs and any overlap of result and factors |
| `Modm.Expand` | src/ed25519-donna/modm-donna-64bit.h:152-187 | the little-endian value of up to 64 bytes, mod m, in both the short and the Barrett case |
| `Modm.Contract` | src/ed25519-donna/modm-donna-64bit.h:205-211 | 32 bytes with the value of the limbs |
| `Modm.LimbsUnique` | src/ed25519-donna/modm-donna-64bit.h:205-211 | normal limbs are determined by their value |
| `Modm.ContractThenExpand` | src/ed25519-donna/modm-donna-64bit.h:152-211 | writing a reduced scalar as bytes and reading it back gives the same limbs |
| `Modm.GroupOrder` | src/ed25519-donna/modm-donna-64bit.h:21-27 | m = 2^252 + 27742317777372353535851937790883648493 |
| `Recode.Unpack` | src/ed25519-donna/modm-donna-64bit.h:219-226 | the digits taken limb by limb are in range and weigh exactly the scalar |
| `Recode.SignDigit` | src/ed25519-donna/modm-donna-64bit.h:230-236 | making one digit signed keeps the weighted sum with the carry |
| `Recode.Window4` | src/ed25519-donna/modm-donna-64bit.h:213-238 | 64 digits in [-8, 8] whose radix 16 value is the scalar |
| `Sliding.CarryUp` | src/ed25519-donna/modm-donna-64bit.h:268-274 | the carry that turns a run of ones into zeros and a one keeps the value |
| `Sliding.FoldBit` | src/ed25519-donna/modm-donna-64bit.h:262-278 | each of the three outcomes for one bit keeps the value and the digit bound |
| `Sliding.SlidingWindow` | src/ed25519-donna/modm-donna-64bit.h:240-280 | 256 digits, each zero or odd and below 2^(w-1), nonzero ones at least w apart, with the scalar as value |
| `ModmBatch.Sub` | src/ed25519-donna/modm-donna-64bit.h:287-299 | the exact difference when only the limbs up to `limbsize` are in use |
| `ModmBatch.Borrow` | src/ed25519-donna/modm-donna-64bit.h:303-315 | the borrow out of limbs 0 to `limbsize` of a - b is 1 exactly when a < b there |
| `ModmBatch.Lt` | src/ed25519-donna/modm-donna-64bit.h:303-315 | the borrow out of the used limbs is exactly a < b |
| `ModmBatch.Lte` | src/ed25519-donna/modm-donna-64bit.h:318-330 | the same for a <= b |
| `ModmBatch.IsZero` | src/ed25519-donna/modm-donna-64bit.h:333-340 | true exactly for value 0 |
| `ModmBatch.IsOne` | src/ed25519-donna/modm-donna-64bit.h:343-350 | true exactly for value 1 |
| `ModmBatch.AtMost128` | src/ed25519-donna/modm-donna-64bit.h:353-361 | true exactly for values below 2^128 |
| `BatchHeap.BatchHeap.HeapSwap` | src/ed25519-donna/ed25519-donna-batchverify.h:22-28 | swaps two entries, keeps the heap a permutation of the indices, and leaves the others where they are |
| `BatchHeap.BatchHeap.InsertNext` | src/ed25519-donna/ed25519-donna-batchverify.h:31-48 | the next index joins and the heap order holds again; the scalars do not change |
| `BatchHeap.BatchHeap.SiftDown` | src/ed25519-donna/ed25519-donna-batchverify.h:57-68 | the hole reaches a leaf with the order intact everywhere else; with an even number of entries the last leaf is not looked at and not moved |
| `BatchHeap.BatchHeap.UpdatedRoot` | src/ed25519-donna/ed25519-donna-batchverify.h:51-77 | after any change of the root's key, the heap order holds for the same entries; with an even number of them, for all but the last leaf, which stays where it is |
| `HeapOrder.FrontHeap` | src/ed25519-donna/ed25519-donna-batchverify.h:57-77 | order in front of the last leaf is order everywhere if and only if the number of entries is odd or the last leaf is not above its parent |
| `BatchHeap.BatchHeap.Build` | src/ed25519-donna/ed25519-donna-batchverify.h:80-86 | a heap over the first `count` scalars |
| `BatchHeap.BatchHeap.Extend` | src/ed25519-donna/ed25519-donna-batchverify.h:89-93 | the remaining indices join and the order holds |
| `BatchHeap.BatchHeap.GetTop2` | src/ed25519-donna/ed25519-donna-batchverify.h:96-103 | two different indices, with the largest scalar and the largest of the others |
| `HeapOrder.RootIsMax` | src/ed25519-donna/ed25519-donna-batchverify.h:96-103 | heap order puts the largest key at the root |
| `HeapOrder.SecondIsMax` | src/ed25519-donna/ed25519-donna-batchverify.h:96-103 | the larger child of the root is the largest of the rest |
| `BosCoster.CombineKeepsSum` | src/ed25519-donna/ed25519-donna-batchverify.h:182-183 | (a - b) P + b (Q + P) = a P + b Q inside the sum over all entries |
| `BosCoster.CombineKeepsDivisors` | src/ed25519-donna/ed25519-donna-batchverify.h:182-183 | a step keeps the common divisors of the scalars |
| `BosCoster.SubtractScalars` | src/ed25519-donna/ed25519-donna-batchverify.h:182 | the largest scalar becomes its difference with the second largest; only the root can be out of order after it |
| `BosCoster.Combine` | src/ed25519-donna/ed25519-donna-batchverify.h:182-184 | one subtract-and-add step on limbs, with the heap order and the limb window restored |
| `BosCoster.LimbExhausted` | src/ed25519-donna/ed25519-donna-batchverify.h:171-173 | when the top limb of the largest scalar is zero it is zero in every scalar, so dropping it loses nothing |
| `BosCoster.MaybeExtend` | src/ed25519-donna/ed25519-donna-batchverify.h:175-180 | the heap grows exactly when the largest scalar is below 2^128 |
| `BosCoster.Iterate` | src/ed25519-donna/ed25519-donna-batchverify.h:164-185 | one iteration keeps the sum, the divisors, the order and the window, and makes progress |
| `BosCoster.Reduce` | src/ed25519-donna/ed25519-donna-batchverify.h:151-185 | the loop ends, with one nonzero scalar at most, and the heap was extended exactly when `Extends` holds of the input |
| `BosCoster.InitialOf` | src/ed25519-donna/ed25519-donna-batchverify.h:160-163 | a batch of n signatures starts with the base point, all the keys, and one R half if n is odd |
| `FinalStep.DoubleAdd` | src/ed25519-donna/ed25519-donna-batchverify.h:135-147 | the double-and-add loop over the limbs computes limbs of the multiple its bits stand for |
| `FinalStep.Final` | src/ed25519-donna/ed25519-donna-batchverify.h:106-148 | the special cases 0 and 1, and otherwise the low four limbs plus the next power of two, times the point, in limb form |
| `FinalStep.ExactResult` | src/ed25519-donna/ed25519-donna-batchverify.h:106-148 | the step behind the next two rows: the power of two that is added must give the same multiple as the limb that is dropped |
| `FinalStep.ExactForLargeOrder` | src/ed25519-donna/ed25519-donna-batchverify.h:106-148 | for a point without vanishing multiples below a bound above 2^224 and s: the result is s P if and only if s <= 1 or 3 * 2^223 <= s < 2^225 |
| `FinalStep.ExactForOrder` | src/ed25519-donna/ed25519-donna-batchverify.h:106-148 | for a point of any finite order o: the result is s P if and only if s <= 1, or the low four limbs are not zero and o divides the excess of the scalar used over s |
| `FinalStep.FinalOvershoots` | src/ed25519-donna/ed25519-donna-batchverify.h:106-148 | an input for which it does not: twice a generator comes out as six times it |
| `BosCoster.MultiScalarMult` | src/ed25519-donna/ed25519-donna-batchverify.h:151-188 | the sum over the heap's entries is s P for their greatest common divisor s; the input decides whether these are all entries; the limbs that come out stand for `FinalResult` of s and P; `Answers` compares it with the sum over all `count` entries |
| `BosCoster.FinalAnswers` | src/ed25519-donna/ed25519-donna-batchverify.h:151-188 | if the heap is extended: the result exists; it is the sum over all entries if and only if s = 1 or the excess of the scalar used over s gives zero; at points of large order it is zero if and only if the sum is. If not: for s <= 1 it is that sum if and only if the entries left out add up to zero, and for larger s if and only if the low four limbs of s are not zero and they add up to the excess times the point |
| `BosCoster.CoprimeResult` | src/ed25519-donna/ed25519-donna-batchverify.h:151-188 | at any points: if the heap is extended and the scalars have no common divisor, the result is the sum over all entries |
| `BosCoster.ZeroExactly` | src/ed25519-donna/ed25519-donna-batchverify.h:151-188 | then, and for points of large order, the result is zero if and only if the sum is |
| `BosCoster.ZeroResult` | src/ed25519-donna/ed25519-donna-batchverify.h:151-188 | a zero result means that the last step gives zero for what the heap is reduced to, and for s <= 1 that the sum over the heap's entries is zero |
| `BosCoster.GcdUnique` | src/ed25519-donna/ed25519-donna-batchverify.h:164-185 | the divisor s is determined by the input |
| `BosCoster.ZerosFirst` | src/ed25519-donna/ed25519-donna-batchverify.h:162-169 | if the initial scalars are all zero, the result is zero, and is the sum over all entries if and only if that sum is zero |
| `BosCoster.MissesEntries` | src/ed25519-donna/ed25519-donna-batchverify.h:162-169 | such an input: scalars 0, 0, 0, 1, 1 with the same point give twice the point as sum, and zero as result |
| `Field.Add` | src/ed25519-donna/curve25519-donna-64bit.h:26-43 | the field sum, with limb bounds added and no wrap |
| `Field.Sub` | src/ed25519-donna/curve25519-donna-64bit.h:63-70 | the field difference without underflow, for a tight subtrahend |
| `Field.SubAfterBasic` | src/ed25519-donna/curve25519-donna-64bit.h:73-80 | the same for a subtrahend that is the result of a basic operation |
| `Field.AddReduce` | src/ed25519-donna/curve25519-donna-64bit.h:45-54 | the sum with tight limbs |
| `Field.SubReduce` | src/ed25519-donna/curve25519-donna-64bit.h:82-91 | the difference with tight limbs |
| `Field.Neg` | src/ed25519-donna/curve25519-donna-64bit.h:94-103 | the negative with tight limbs |
| `Field.Mul` | src/ed25519-donna/curve25519-donna-64bit.h:106-171 | the field product for limbs below 2^54, with tight limbs again, so that products can be chained |
| `Field.Square` | src/ed25519-donna/curve25519-donna-64bit.h:236-284 | the doubled-term form equals the product with itself |
| `Field.SquareTimes` | src/ed25519-donna/curve25519-donna-64bit.h:179-234 | x^(2^count) |
| `Field.Expand` | src/ed25519-donna/curve25519-donna-64bit.h:287-319 | the low 255 bits of 32 bytes, in normal limbs |
| `Field.Contract` | src/ed25519-donna/curve25519-donna-64bit.h:324-373 | the bytes of the one representative in [0, p), for all limbs below 2^63 |
| `FieldChain.Extend` | src/ed25519-donna/curve25519-donna-helpers.h:12-31 | from z^(2^m - 1) and z^(2^n - 1) to z^(2^(m+n) - 1) |
| `FieldChain.PowTwo250` | src/ed25519-donna/curve25519-donna-helpers.h:12-31 | from z^(2^5 - 1) to z^(2^250 - 1) |
| `FieldChain.Recip` | src/ed25519-donna/curve25519-donna-helpers.h:36-49 | z^(p - 2) |
| `FieldChain.PowTwo252m3` | src/ed25519-donna/curve25519-donna-helpers.h:54-67 | z^((p - 5) / 8) |
| `Edwards.UnifiedAdd` | src/ed25519-donna/ed25519-donna-impl-base.h:32-50 | the addition formulas give the completed coordinates of the sum, for all pairs of points |
| `Edwards.UnifiedDouble` | src/ed25519-donna/ed25519-donna-impl-base.h:53-67 | the doubling formulas give the completed coordinates of the double, without T |
| `Edwards.NielsNeg` | src/ed25519-donna/ed25519-donna-impl-base.h:69-106 | exchanging two coordinates and a sign gives the Niels form of the negative |
| `Edwards.FromCompleted` | src/ed25519-donna/ed25519-donna-impl-base.h:5-18 | from completed to projective coordinates, with X Y = Z T |
| `Points.CurveConstants` | src/ed25519-donna/ed25519-donna-64bit-tables.h:8-14 | the stored limbs are d and 2d |
| `Edwards.CurveParameters` | src/ed25519-donna/ed25519-donna-64bit-tables.h:8-10 | p = 2^255 - 19 and 121666 d = -121665 mod p |
| `Edwards.OnCurveIs` | src/ed25519-donna/ed25519-donna-impl-base.h:191-239 | the curve equation, with integers mod p |
| `Points.BaseCoordinates` | src/ed25519-donna/ed25519-donna-64bit-tables.h:1-6 | the stored base point is on the curve, has y = 4/5, and T = X Y with Z = 1 |
| `Points.P1p1ToPartial` | src/ed25519-donna/ed25519-donna-impl-base.h:5-10 | the same point in projective coordinates; T is left as it was |
| `Points.P1p1ToFull` | src/ed25519-donna/ed25519-donna-impl-base.h:12-18 | the same point with T Z = X Y |
| `Points.FullToPNiels` | src/ed25519-donna/ed25519-donna-impl-base.h:20-26 | the same point in projective Niels form |
| `Points.AddP1p1` | src/ed25519-donna/ed25519-donna-impl-base.h:32-50 | the sum of the two points, limbs ready for multiplication |
| `Points.DoubleP1p1` | src/ed25519-donna/ed25519-donna-impl-base.h:53-67 | the double, from a point whose T may be stale |
| `Points.NielsAdd2P1p1` | src/ed25519-donna/ed25519-donna-impl-base.h:69-86 | the sum with, or difference from, a table point, by the sign bit |
| `Points.PNielsAddP1p1` | src/ed25519-donna/ed25519-donna-impl-base.h:88-106 | the same for a projective Niels point |
| `Points.DoublePartial` | src/ed25519-donna/ed25519-donna-impl-base.h:108-113 | the double without T |
| `Points.Double` | src/ed25519-donna/ed25519-donna-impl-base.h:115-120 | the double with T Z = X Y |
| `Points.AddPoints` | src/ed25519-donna/ed25519-donna-impl-base.h:122-127 | the sum with T Z = X Y |
| `Points.NielsAdd2` | src/ed25519-donna/ed25519-donna-impl-base.h:129-147 | the sum with a table point |
| `Points.PNielsAdd` | src/ed25519-donna/ed25519-donna-impl-base.h:149-172 | the sum in projective Niels form |
| `Roots.Candidate` | src/ed25519-donna/ed25519-donna-impl-base.h:206-217 | x^2 v = u (u v^7)^((p - 1) / 4) for the computed candidate |
| `Roots.SquareClass` | src/ed25519-donna/ed25519-donna-impl-base.h:206-217 | that factor is 1 or -1 whenever u / v is a square |
| `Roots.RootsDiffer` | src/ed25519-donna/ed25519-donna-impl-base.h:219-237 | two square roots of u / v are equal or opposite |
| `Codec.Verify` | src/ed25519-donna/ed25519-donna.h:66-72 | the comparison without early exit is 1 exactly for equal strings |
| `Codec.Canonicalize` | src/ed25519-donna/curve25519-donna-64bit.h:287-373 | expanding and contracting 32 bytes reduces their low 255 bits mod p |
| `Codec.CanonicalBytes` | src/ed25519-donna/curve25519-donna-64bit.h:324-373 | contracted bytes are equal exactly for congruent limb vectors |
| `Codec.Pack` | src/ed25519-donna/ed25519-donna-impl-base.h:179-189 | the bytes have the value y + 2^255 (x mod 2) of the point's affine coordinates |
| `Codec.Equation` | src/ed25519-donna/ed25519-donna-impl-base.h:199-204 | u = y^2 - 1 and v = d y^2 + 1 |
| `Codec.RootCandidate` | src/ed25519-donna/ed25519-donna-impl-base.h:206-217 | u v^3 (u v^7)^((p - 5) / 8) |
| `Codec.FixRoot` | src/ed25519-donna/ed25519-donna-impl-base.h:219-230 | a square root of u / v, or proof that the candidate is none up to sqrt(-1) |
| `Codec.ImaginaryUnit` | src/ed25519-donna/ed25519-donna-64bit-tables.h:16-18 | the stored constant squares to -1 |
| `Codec.OppositeParity` | src/ed25519-donna/ed25519-donna-impl-base.h:232-236 | of x and -x, the one whose parity is not the encoded one |
| `Codec.UnpackNegative` | src/ed25519-donna/ed25519-donna-impl-base.h:191-239 | succeeds if and only if some point has the encoded y; the result is on the curve with the other parity and T Z = X Y |
| `Codec.EncodingInjective` | src/ed25519-donna/ed25519-donna-impl-base.h:179-189 | different points have different encodings |
| `Codec.UnpackOfPack` | src/ed25519-donna/ed25519-donna-impl-base.h:179-239 | every packed point unpacks, to its negative |
| `ScalarMult.BuildTable` | src/ed25519-donna/ed25519-donna-impl-base.h:263-266 | entry k of the table is (2k + 1) P |
| `ScalarMult.SkipZeros` | src/ed25519-donna/ed25519-donna-impl-base.h:273-275 | the digits above the starting position are all zero |
| `ScalarMult.Step` | src/ed25519-donna/ed25519-donna-impl-base.h:277-291 | r becomes 2r + d1 P + d2 B; no addition reads a stale T |
| `ScalarMult.HornerWeighted` | src/ed25519-donna/ed25519-donna-impl-base.h:277-291 | Horner's rule over the digits is their weighted sum |
| `ScalarMult.DoubleScalarMult` | src/ed25519-donna/ed25519-donna-impl-base.h:251-292 | [s1]P + [s2]B |
| `Bits.MoveConditional` | src/ed25519-donna/curve25519-donna-64bit.h:378-395 | the masked move of a 64-bit word is a conditional move |
| `Bits.MoveConditionalBytes` | src/ed25519-donna/curve25519-donna-64bit.h:378-395 | the 96 bytes become the input, or stay as they are |
| `Bits.SwapConditional` | src/ed25519-donna/curve25519-donna-64bit.h:398-408 | the masked exchange of two words swaps them, or leaves them |
| `BaseMult.SwapLimbs` | src/ed25519-donna/curve25519-donna-64bit.h:398-408 | the same for all limbs of two field elements |
| `BaseMult.WindowEqualIs` | src/ed25519-donna/ed25519-donna-impl-base.h:298-301 | 1 exactly for equal arguments |
| `BaseMult.MagnitudeIs` | src/ed25519-donna/ed25519-donna-impl-base.h:306-308 | the masked form is the absolute value of the digit |
| `BaseMult.Select` | src/ed25519-donna/ed25519-donna-impl-base.h:311-317 | eight masked moves select row abs(b) - 1, or the identity for 0 |
| `BaseMult.ChooseNiels` | src/ed25519-donna/ed25519-donna-impl-base.h:303-328 | the Niels form of b 256^pos B, up to the factor d that block 0 lacks |
| `BaseMult.Interleaved` | src/ed25519-donna/ed25519-donna-impl-base.h:334-363 | the even digits plus 16 times the odd ones are the whole number |
| `BaseMult.FromRow` | src/ed25519-donna/ed25519-donna-impl-base.h:342-347 | the first row as a point with Z = 2 and T Z = X Y |
| `BaseMult.AddFirstRow` | src/ed25519-donna/ed25519-donna-impl-base.h:356-358 | adds the lowest digit after supplying the factor d |
| `BaseMult.Rows` | src/ed25519-donna/ed25519-donna-impl-base.h:348-362 | adds the rows of all digits of one parity |
| `BaseMult.TimesSixteen` | src/ed25519-donna/ed25519-donna-impl-base.h:352-355 | four doublings, the last with T |
| `BaseMult.ScalarMultBase` | src/ed25519-donna/ed25519-donna-impl-base.h:333-363 | [s]B |
| `ShaStandard.ChBit` | src/ed25519-donna/ed25519-hash.h:70 | each bit of x chooses between the bits of y and z, in the shortened form and in the one of FIPS 180-4 |
| `ShaStandard.RotrStandard` | src/ed25519-donna/ed25519-hash.h:40-43 | the two shifts put the low k bits on top of the others |
| `ShaStandard.S0Standard` | src/ed25519-donna/ed25519-hash.h:72 | rotations by 28, 34 and 39 |
| `ShaStandard.S1Standard` | src/ed25519-donna/ed25519-hash.h:73 | rotations by 14, 18 and 41 |
| `ShaStandard.G0Standard` | src/ed25519-donna/ed25519-hash.h:74 | rotations by 1 and 8, and a shift by 7 |
| `ShaStandard.G1Standard` | src/ed25519-donna/ed25519-hash.h:75 | rotations by 19 and 61, and a shift by 6 |
| `ShaStandard.LoadStandard` | src/ed25519-donna/ed25519-hash.h:45-56 | eight bytes are loaded as the number they are in big-endian order |
| `ShaStandard.StoredValue` | src/ed25519-donna/ed25519-hash.h:58-68 | the bytes that are stored have the word as big-endian value |
| `ShaStandard.StoreThenLoad` | src/ed25519-donna/ed25519-hash.h:45-68 | storing and loading a word gives it back |
| `ShaTables.KIsCubeRoots` | src/ed25519-donna/ed25519-hash.h:17-38 | the round constants are the first 64 fractional bits of the cube roots of the first eighty primes |
| `ShaTables.IvIsSquareRoots` | src/ed25519-donna/ed25519-hash.h:108-121 | the initial value: the same for the square roots of the first eight |
| `ShaTables.TablesUnique` | src/ed25519-donna/ed25519-hash.h:17-38 | no other tables have these two properties |
| `ShaStandard.MajBit` | src/ed25519-donna/ed25519-hash.h:71 | each bit is the one that the majority of the three words has, in the shortened form and in the one of FIPS 180-4 |
| `Sha512.ExpandBlock` | src/ed25519-donna/ed25519-hash.h:98-99 | the message schedule |
| `Sha512.Step` | src/ed25519-donna/ed25519-hash.h:78-88 | one round on the eight registers in place |
| `Sha512.RoundsInPlace` | src/ed25519-donna/ed25519-hash.h:97-100 | the eighty rounds of a block |
| `Sha512.CountBlock` | src/ed25519-donna/ed25519-hash.h:102-103 | the two-word bit counter carries exactly when its low word comes back to zero |
| `Sha512.CountRest` | src/ed25519-donna/ed25519-hash.h:154-155 | adding the bits of the last partial block gives the message length, without a carry |
| `Sha512.Hasher.constructor` | src/ed25519-donna/ed25519-hash.h:108-121 | the state of the empty message |
| `Sha512.Hasher.Blocks` | src/ed25519-donna/ed25519-hash.h:90-106 | absorbs and counts whole blocks |
| `Sha512.Hasher.Update` | src/ed25519-donna/ed25519-hash.h:123-151 | the message so far grows by the piece, whatever its length and whatever is buffered |
| `Sha512.Hasher.Final` | src/ed25519-donna/ed25519-hash.h:153-178 | the hash of everything fed in, in the one-block and the two-block case of padding |
| `Sha512.HashPieces` | src/ed25519-donna/ed25519-hash.h:180-186 | however the message is cut, the result is the hash of the whole |
| `ShaStandard.LengthStandard` | src/ed25519-donna/ed25519-hash.h:153-168 | the length field is the length in bits as a big-endian number of 128 bits |
| `ShaStandard.PadStandard` | src/ed25519-donna/ed25519-hash.h:153-168 | the padding is that of section 5.1.2 of FIPS 180-4 |
| `ShaStandard.BlockStandard` | src/ed25519-donna/ed25519-hash.h:90-106 | one block gives the next hash value of section 6.4.2 |
| `ShaStandard.HashStandard` | src/ed25519-donna/ed25519-hash.h:17-186 | the hash of every message is that of FIPS 180-4 |
| `Ed25519.Sha512Hashes` | src/ed25519-donna/ed25519-hash.h:15-38 | the SHA-512 constants and functions meet what the signature scheme needs |
| `Ed25519.ClampRange` | src/ed25519-donna/ed25519.c:26-32 | the clamped scalar is a multiple of 8 in [2^254, 2^255) |
| `Ed25519.ClampBits` | src/ed25519-donna/ed25519.c:26-32 | no other bits change |
| `Ed25519.ClampValue` | src/ed25519-donna/ed25519.c:26-32 | the scalar is 2^254 + b mod 2^254 - b mod 8 for the number b that the first half of the hash is |
| `Ed25519.SecretIs` | src/ed25519-donna/ed25519.c:26-32 | the secret scalar from the hash of the secret key; the second half of the hash stays as it is |
| `Ed25519.ExtSk` | src/ed25519-donna/ed25519.c:26-32 | the clamped hash of the secret key |
| `Ed25519.PublicKey` | src/ed25519-donna/ed25519.c:44-55 | the encoding of a B for the secret scalar a, which is the clamped first half of the hash of the secret key |
| `Ed25519.HramScalar` | src/ed25519-donna/ed25519.c:34-42 | the hash of R, A and the message, mod m |
| `Ed25519.NonceScalar` | src/ed25519-donna/ed25519.c:67-72 | the hash of the second half of the expanded key and the message, mod m |
| `Ed25519.Sign` | src/ed25519-donna/ed25519.c:58-91 | R encodes r B for the hash r of the second half of the key's hash and the message, and S = r + H(R, A, m) a mod m |
| `Ed25519.SignatureIs` | src/ed25519-donna/ed25519.c:58-91 | both halves of a signature written out, down to the bytes that are hashed and the coordinates that are packed |
| `Ed25519.SignOpen` | src/ed25519-donna/ed25519.c:93-116 | 0 exactly when the top three bits of S are clear, the key decodes, and R encodes S B - H(R, A, m) A; otherwise -1 |
| `Ed25519.AcceptsIs` | src/ed25519-donna/ed25519.c:93-116 | the same written out, down to the bytes that are hashed and the coordinates that are compared |
| `Ed25519.SignatureAccepted` | src/ed25519-donna/ed25519.c:58-116 | every signature made with the secret key of A satisfies what verification checks |
| `Ed25519.SignThenOpen` | src/ed25519-donna/ed25519.c:44-116 | for every secret key and message, opening the signature returns 0 |
| `BatchVerify.SumOfParts` | src/ed25519-donna/ed25519-donna-batchverify.h:225-231 | the sum of the weighted second halves, mod m |
| `BatchVerify.AllScalarsOf` | src/ed25519-donna/ed25519-donna-batchverify.h:219-238 | the scalars of the base point, the keys and the R halves have the values `Scalars` of the batch |
| `BatchVerify.MultiplyBatch` | src/ed25519-donna/ed25519-donna-batchverify.h:219-249 | fails exactly when a key or an R half does not decode; otherwise the limbs that come out stand for the result of the last step on what the base point, the negated keys and the negated R halves reduce to, with their greatest common divisor |
| `BatchVerify.IsNeutral` | src/ed25519-donna/ed25519-donna-batchverify.h:193-202 | for the limbs of a point: the bytes of X are zero and those of Y and Z the same if and only if it is the neutral point |
| `BatchSum.BalancedSum` | src/ed25519-donna/ed25519-donna-batchverify.h:219-249 | keys a_i B and R halves n_i B with s_i = n_i + h_i a_i mod m make the sum neutral, for all weights |
| `BatchSum.HonestSum` | src/ed25519-donna/ed25519-donna-batchverify.h:219-249 | whatever the random weights are, the sum over signatures made with their keys is neutral |
| `BatchVerify.HonestNeutral` | src/ed25519-donna/ed25519-donna-batchverify.h:219-250 | for such signatures the result itself is neutral if the heap is extended |
| `BatchVerify.NeutralExactly` | src/ed25519-donna/ed25519-donna-batchverify.h:249-250 | if the heap is extended, and the scalars have no common divisor or the points have large order, the result is neutral if and only if the sum is zero |
| `BatchVerify.DecisiveResult` | src/ed25519-donna/ed25519-donna-batchverify.h:219-250 | the same with the sum of the batch, whose points are determined by its bytes |
| `BatchVerify.PassMeans` | src/ed25519-donna/ed25519-donna-batchverify.h:219-250 | a batch that passes decodes, and the last step gives zero for the greatest common divisor s and the point it reduces to; for s <= 1 the sum over the heap's entries is zero; if the batch is decisive the whole sum is zero |
| `BatchVerify.PrimeOrder` | src/ed25519-donna/ed25519-donna-batchverify.h:249-250 | if m is prime, the multiples of the base point have no small torsion |
| `BatchVerify.OpenBatch` | src/ed25519-donna/ed25519-donna-batchverify.h:217-258 | all valid if the result is neutral, otherwise the verdicts of single verification; a neutral batch passes, and a decisive batch is neutral if and only if its sum is zero; there is no result only if the heap is not extended; 2 is returned exactly for batches that decode and are not neutral |
| `BatchVerify.BatchesOf64` | src/ed25519-donna/ed25519-donna-batchverify.h:216-217 | batches start at the multiples of 64 and have at most 64 signatures |
| `BatchVerify.SignOpenBatch` | src/ed25519-donna/ed25519-donna-batchverify.h:204-274 | for any number of signatures: one is found valid if and only if its batch came out neutral or single verification accepts it; bit 0 of the result tells exactly whether some signature is invalid, bit 1 exactly whether some batch that decodes did not come out neutral |
| `BatchVerify.HonestValid` | src/ed25519-donna/ed25519-donna-batchverify.h:204-274 | signatures made with their keys are all found valid, whatever the weights and the batch results |
| `BatchVerify.SignThenOpenBatch` | src/ed25519-donna/ed25519-donna-batchverify.h:204-274 | signing any list of messages and opening the signatures together finds all of them valid, and returns 0 if every batch extends its heap |
| `BatchMeaning.ZeroSumExactly` | src/ed25519-donna/ed25519-donna-batchverify.h:219-249 | with keys a_i B and R halves n_i B, the sum is zero if and only if m divides the sum of w_i (s_i - n_i - h_i a_i) |
| `BatchMeaning.OneDecides` | src/ed25519-donna/ed25519-donna-batchverify.h:219-249 | if the equation holds for all entries but one, whose weight is not zero, the sum is zero if and only if it holds for that one too |
| `BatchMeaning.CanonicalExactly` | src/ed25519-donna/ed25519-donna-impl-base.h:179-239 | 32 bytes that decode are what packing gives for the point if and only if y is reduced and the sign of x = 0 is not set |
| `BatchMeaning.AcceptedExactly` | src/ed25519-donna/ed25519.c:93-116 | single verification accepts if and only if the top three bits are clear, R is encoded canonically, and S B - h A - R is zero |
| `BatchMeaning.AllAccepted` | src/ed25519-donna/ed25519-donna-batchverify.h:219-250 | if single verification accepts all entries of a batch, whose points are multiples of the base point, the sum is zero for all weights |
| `BatchMeaning.OneRejected` | src/ed25519-donna/ed25519-donna-batchverify.h:219-250 | if it rejects exactly one of them, with clear top bits and canonical R, and that one's weight is not zero, the sum is not zero |
| `BatchMeaning.RejectedInBatch` | src/ed25519-donna/ed25519-donna-batchverify.h:219-258 | so a decisive batch of this kind does not come out neutral |
| `BatchMeaning.ResiduesDecide` | src/ed25519-donna/ed25519-donna-batchverify.h:225-231 | a batch is treated the same if multiples of m are added to the second halves |
| `BatchMeaning.UnreducedPart` | src/ed25519-donna/ed25519-donna-batchverify.h:225-231 | with accepted signatures this keeps the sum zero, while single verification rejects an entry for which it sets one of the top three bits |
| `RlpSpec.BEOfValue` | src/eth/tools/RLP.h:433-440 | bytes without a leading zero are the ones their value is written with |
| `RlpSpec.DataEncoding` | src/eth/tools/RLP.cpp:280-299 | the encoding of a byte string, case by case |
| `RlpSpec.ListEncoding` | src/eth/tools/RLP.cpp:260-278 | the encoding of a list from those of its items in order |
| `RlpReader.ReadLength` | src/eth/tools/RLP.cpp:154-198 | the length loop, with its checks in order, against the value of the length bytes |
| `RlpRoundTrip.HeaderRead` | src/eth/tools/RLP.cpp:143-199 | a prefix announces the length it was written for, whatever follows it |
| `RlpRoundTrip.HeaderWrite` | src/eth/tools/RLP.cpp:143-199 | an accepted prefix is the one that would be written for its length |
| `RlpRoundTrip.EncodedSize` | src/eth/tools/RLP.cpp:92-101 | the announced size of an encoded item is its size |
| `RlpRoundTrip.IntOfEncode` | src/eth/tools/RLP.cpp:116-141 | an encoded byte string is a number exactly when it has no leading zero |
| `RlpRoundTrip.IntRoundTrip` | src/eth/tools/RLP.h:253-274 | a number that was written is read back |
| `RlpRoundTrip.IntOfItem` | src/eth/tools/RLP.h:253-274 | a byte string without a leading zero gives its value; a list, a leading zero or too many digits are refused |
| `RlpRoundTrip.IntExactly` | src/eth/tools/RLP.h:253-274 | n is read from the encoding of an item if and only if the item is the bytes of n |
| `RlpRoundTrip.DecodeOfEncode` | src/eth/tools/RLP.cpp:22-39 | decoding an encoded tree under the strict flags gives the tree |
| `RlpRoundTrip.EncodeOfDecode` | src/eth/tools/RLP.cpp:22-39 | what is accepted recursively re-encodes to itself |
| `RlpRoundTrip.RoundTrip` | src/eth/tools/RLP.cpp:194-198 | decoding undoes encoding if and only if the payload is shorter than the reader's limit |
| `RlpRoundTrip.UniqueEncoding` | src/eth/tools/RLP.cpp:22-39 | every value has at most one accepted encoding |
| `RlpRoundTrip.SizeExactly` | src/eth/tools/RLP.cpp:143-199 | any data announces the size n of its first item if and only if its first n bytes are a single byte below 128, or the prefix that would be written for a payload and that payload |
| `RlpRoundTrip.NoPrefix` | src/eth/tools/RLP.cpp:143-199 | no proper part at the front of an encoding is taken for an item |
| `RlpIndex.CountItems` | src/eth/tools/RLP.cpp:201-212 | the number of items, or the error at the first place of the payload that has none |
| `RlpIndex.ItemsOfEncoded` | src/eth/tools/RLP.cpp:201-212 | an encoded list has the encodings of its items, in order: that many are counted, and each index gives one |
| `RlpIndex.LeadFrom` | src/eth/tools/RLP.cpp:201-212 | from the start of an item on, a payload has the remaining items and the same first fault |
| `RlpIndex.AfterLast` | src/eth/tools/RLP.cpp:201-212 | behind the last item there is the end of the payload, or the fault with its error |
| `RlpIndex.Node.constructor` | src/eth/tools/RLP.h:338-344 | an unused cache |
| `RlpIndex.Node.First` | src/eth/tools/RLP.cpp:71-78 | item 0 and its end in the cache; an exception leaves the cache as it was |
| `RlpIndex.Node.Advance` | src/eth/tools/RLP.cpp:79-88 | the cache moves to the next item or past the end; at a fault it is left with the bytes there, under the old index |
| `RlpIndex.Node.Index` | src/eth/tools/RLP.cpp:69-90 | for any data and any state of the cache: the answer and the next state, with exceptions |
| `RlpIndex.IndexCalls` | src/eth/tools/RLP.cpp:69-90 | the answers to any sequence of calls on any data, as a function of the calls before |
| `RlpIndex.FreshExactly` | src/eth/tools/RLP.cpp:69-90 | a call is answered like fresh reading if and only if it does not ask a stuck cache for the last good item, and does not ask an unused one for the index that means none where reading fails |
| `RlpIndex.StuckExactly` | src/eth/tools/RLP.cpp:69-90 | after any sequence of calls, the cache is stuck at the last good item if and only if some call was for an item behind it and no later one for an item before it |
| `RlpIndex.UnusedExactly` | src/eth/tools/RLP.cpp:69-90 | the cache is unused if and only if there is no first item, or all calls were for the index that means none |
| `RlpIndex.AnsweredAfresh` | src/eth/tools/RLP.cpp:69-90 | call k of any sequence is answered like fresh reading if and only if the calls before it do not leave the cache stuck at its index, and do not leave it unused for the index that means none where reading fails |
| `RlpIndex.FaultlessCalls` | src/eth/tools/RLP.cpp:69-90 | if the payload consists of encodings, every call of every sequence gives the item itself, or null past the end |
| `RlpIndex.SpoiledAnswer` | src/eth/tools/RLP.cpp:79-89 | with a fault, asking at or behind it turns the next answer for the item before it into an error, until an earlier item is asked for |
| `RlpIndex.SpoiledExample` | src/eth/tools/RLP.cpp:79-89 | an input of three bytes for which this happens |
| `RlpIndex.IndexOfData` | src/eth/tools/RLP.h:118-121 | on a node that is no list, any index gives null if and only if the payload reads as that many items or fewer without a fault, or it is the index that means none on an unused cache |
| `RlpIndex.IndicesOfData` | src/eth/tools/RLP.h:118-121 | every index gives null, as promised for nodes that are no list, if and only if the payload is empty |
| `RlpIndex.DataExample` | src/eth/tools/RLP.h:118-121 | an input: the byte 1 has itself as item 0 |
| `RlpIterator.Begin` | src/eth/tools/RLP.cpp:54-66 | item 0 of a list, the end for anything else, or the error met first |
| `RlpIterator.End` | src/eth/tools/RLP.cpp:62-66 | the empty view at the end of the data |
| `RlpIterator.Iterator.Step` | src/eth/tools/RLP.cpp:41-52 | from item k to item k + 1, to the end of the payload, or to the fault's error with a view of the bytes there; behind the last item a step changes nothing |
| `RlpIterator.AtEnd` | src/eth/tools/RLP.cpp:41-66 | only behind the last item is the view empty, and then it is at the end of the payload |
| `RlpIterator.Dereference` | src/eth/tools/RLP.h:136 | the item the iterator stands on, accepted under the strict flags |
| `RlpIterator.Walk` | src/eth/tools/RLP.h:148-152 | from begin to end every item is visited once, in order; an error ends the walk; it never ends if and only if the payload does not end with the data |
| `RlpIterator.WalkEncoded` | src/eth/tools/RLP.h:148-152 | the walk over an encoded list visits the encodings of its items, in order |
| `RlpIterator.WalkExample` | src/eth/tools/RLP.h:148-152 | an input for which it never ends: the empty list and a byte after it |
| `RlpWriter.BytesRequired` | src/eth/tools/CommonData.h:194-202 | the number of big-endian digits |
| `RlpWriter.WriteDigits` | src/eth/tools/RLP.h:433-440 | the digits written backwards are the number's big-endian bytes, and nothing else changes |
| `RlpWriter.InsertHeader` | src/eth/tools/RLP.cpp:235-254 | the gap, the move and the prefix turn a payload at the end into a list, exactly when its length fits eight bytes |
| `RlpWriter.Stream.constructor` | src/eth/tools/RLP.h:371-372 | nothing written, nothing open |
| `RlpWriter.Stream.NoteAppended` | src/eth/tools/RLP.cpp:221-258 | bytes that count as n items go to the innermost list; full lists are closed from the inside out; fails exactly when a list gets too many items or becomes too long |
| `RlpWriter.NoteOfItems` | src/eth/tools/RLP.cpp:221-258 | appending encoded items keeps the bytes those of a stream of items with the prefixes of the open lists missing |
| `RlpWriter.Stream.PushCount` | src/eth/tools/RLP.cpp:326-333 | the prefix byte and the length bytes |
| `RlpWriter.Stream.Append` | src/eth/tools/RLP.cpp:280-299 | appends the byte string as one item, without its leading zeros if compact |
| `RlpWriter.Stream.AppendInt` | src/eth/tools/RLP.cpp:301-324 | appends the number's big-endian bytes as one item |
| `RlpWriter.Stream.AppendList` | src/eth/tools/RLP.cpp:260-268 | opens a list; an empty one is an item at once |
| `RlpWriter.Stream.AppendListOf` | src/eth/tools/RLP.cpp:270-278 | appends a list with the given payload, whatever its bytes are |
| `RlpWriter.Stream.AppendRaw` | src/eth/tools/RLP.cpp:214-219 | appends any bytes, counted as the given number of items |
| `RlpWriter.Stream.Out` | src/eth/tools/RLP.h:417-418 | the bytes at the top level, exactly when no list is open |
| `RlpWriter.Stream.AppendTree` | src/eth/tools/RLP.cpp:214-333 | appending a whole tree is appending one item, for every tree whose lengths fit |
| `RlpWriter.WriteTree` | src/eth/tools/RLP.h:451-461 | a fresh stream ends with the recursive encoding of the tree |
| `RlpWriter.SizeFits` | src/eth/tools/RLP.cpp:326-333 | every tree shorter than 2^64 bytes fits |

## Left out

- The 32-bit, SSE2 and x86 assembly variants of the Ed25519 code; the model follows the portable 64-bit files.
- `curved25519_scalarmult_basepoint`, `expand_raw256_modm`, and the wrappers in `ed25519-hash.h` around other hash libraries.
- The contents of the constant tables of base point multiples; `BaseTable` and `OddBaseMultiples` say what they hold.
- Constant-time behaviour.
- The field and point operations take and return limb vectors and points as values, so they do not capture update in place or an output that overlaps an input. The scalar operations of `Modm` do write arrays and allow overlap; the recodings, the heap and the hash state are updated in place as well.
- Each scalar of the heap is a sequence that is replaced as a whole; `ModmBatch` works on such sequences.
- RlpWriter.Stream.AppendInt: does not model negative numbers, whose conversion to a byte belongs to another library, nor the 32-bit type of the digit count.
- Conversions of RLP nodes to strings, hashes, vectors and fixed-width integers, and stream printing.
- The SHA-256 and RIPEMD-160 code under `src/eth/tools`, which has the same shape as SHA-512, and the EVM host code, which mostly forwards calls.
- The rest of the node (ledger, consensus, peer protocol, SQL tables, contracts) and its vendored libraries.
