# Model of libsecp256k1 in Dafny

This project models the vendored libsecp256k1 of the wallet, in the configuration its build selects (10x26 field
limbs, 8x32 scalar limbs, built-in inversion, no endomorphism), and proves what its fast routines mean. The layers:

1. **Limbs.** `Words`, `Bits`, `Scalar`, `ScalarBits`, `ScalarMul`, `ScalarOctets`, `Scalars`, `SplitLambda`: scalars
   modulo the group order in eight 32-bit limbs. `FieldLimbs`, `Magnitudes`, `FieldMul`, `FieldNormalize`, `FieldOctets`,
   `FieldElement`: field elements in ten 26-bit limbs with lazy carries. Words are bounded integer types, so a wrap
   anywhere would be a failed proof; where the code can wrap, the wrap is written out. `BigEndian`: numbers as octets.
2. **Exponentiation chains and batch inversion.** `Modular`, `Fermat`, `PowerChains`, `Inversion`.
3. **Points.** `Curve` is the affine chord-and-tangent law on y^2 = x^3 + k, and `ChordLaw` says without division what
   it computes. `Formulas`, `Unified` and `Jacobian` are the in-place Jacobian operations, on coordinates of ten limbs
   with magnitudes up to 8, proved against it. An element denotes a point *over a hidden denominator* w: this one
   parameter expresses the isomorphic curves on which the shared-Z tables and the final z-correction work. `Tables` and
   `Lift` hold the conversions and the odd-multiple tables.
4. **Scalar multiplication.** `Group` (multiples of points), `Wnaf`, `Ecmult`, `WnafConst`, `EcmultConst`, `GenTable`,
   `EcmultGen`.
5. **Signatures, encoding, hashing.** `Ecdsa`, `Der`, `DerCodec`, `Fips180`, `Hash`, `Streaming`, `Memory`.
   `Sha256Laws` says bit by bit what the functions of the hash compute, `WordVectors` evaluates them on bit vectors, and
   `KnownAnswer` carries out the 64 rounds for one message.

Ghost parameters (`w`, `p`, `q`, `k`, ...) only name the points that elements denote; the program has no counterpart
for them.

## Hypotheses

`Group.Secp256k1()` collects what is taken from number theory: P and N are prime, the affine addition law is
associative on the curve, and N times any curve point is infinity. Closure, commutativity, inverses, the absence of
points of order two and Fermat's little theorem are proved. `GenTable.NoInfinityInTable()` says that none of the 1024
entries of the generator table is infinity, which the code asserts in debug builds; it depends on a scalar nobody knows.

## Where the code and its comments disagree

- The comment above `wnaf_const` (ecmult_const_impl.h:49) says that the number of digits is returned. The code returns
  the skew, and fills one digit more than that number. The model follows the code.
- The comment on the final correction (ecmult_const_impl.h:219) reads as if odd scalars alone used the doubled point;
  negation flips that parity for high scalars. The model follows the code.
- The debug check of field magnitudes admits magnitude 32, but the first carry pass can wrap there
  (`FieldNormalize.WrongAtMagnitude32`). `FieldNormalize.Normalize` and its variants state the result for magnitude 32
  with the exact condition; `FieldNormalize.NoWrapBelow32` shows that it always holds up to 31.
- The comparison `ret + lenleft > sigend - *sigp` in `der_read_len` wraps for a length that fills a size_t with ones,
  and then lets it pass; the conversion to int makes it -1, which is the failure it should have been.
- For w = 31 the expression `carry << w` in `ecmult_wnaf` shifts a signed int into its sign bit. The model uses the
  intended value; the windows in use are 5 and 16.

## Model

| member | source | states |
|---|---|---|
| `ScalarMul.Mul512` | app/src/main/cpp/secp256k1/scalar_8x32_impl.h:491-577 | the sixteen limbs are the exact 512-bit product; every accumulator stays inside its words, with no carry out of the third |
| `ScalarMul.Sqr512` | app/src/main/cpp/secp256k1/scalar_8x32_impl.h:579-638 | the squaring with doubled cross products is the same exact product of a number with itself |
| `ScalarMul.MulAdd` | app/src/main/cpp/secp256k1/scalar_8x32_impl.h:265-279 | the three-word accumulator gains exactly one product, for every accumulator with room for it |
| `ScalarMul.MulAdd2` | app/src/main/cpp/secp256k1/scalar_8x32_impl.h:294-315 | the accumulator gains exactly twice a product, although the doubling itself may wrap twice |
| `ScalarMul.FoldLow` | app/src/main/cpp/secp256k1/scalar_8x32_impl.h:358-405 | the lower half of the first fold, with its carry |
| `ScalarMul.FoldHigh` | app/src/main/cpp/secp256k1/scalar_8x32_impl.h:406-421 | the upper half of the first fold fits thirteen words, the last of them at most 1 |
| `ScalarMul.FoldAgain` | app/src/main/cpp/secp256k1/scalar_8x32_impl.h:423-466 | the second fold leaves at most 2 above 256 bits |
| `ScalarMul.Reduce512` | app/src/main/cpp/secp256k1/scalar_8x32_impl.h:349-489 | three folds and one conditional subtraction leave exactly the remainder modulo the order |
| `ScalarMul.ScalarMul` | app/src/main/cpp/secp256k1/scalar_8x32_impl.h:647-651 | multiplication modulo the order, where the result may be either factor |
| `ScalarMul.ScalarSqr` | app/src/main/cpp/secp256k1/scalar_8x32_impl.h:669-673 | squaring modulo the order |
| `Scalar.CheckOverflow` | app/src/main/cpp/secp256k1/scalar_8x32_impl.h:75-91 | the branch-free limb comparison decides whether the value reaches the order |
| `Scalar.Reduce` | app/src/main/cpp/secp256k1/scalar_8x32_impl.h:93-113 | adds the complement of the order as often as asked, with the carry that leaves 256 bits |
| `Scalar.Add` | app/src/main/cpp/secp256k1/scalar_8x32_impl.h:115-137 | addition modulo the order; the overflow flag is set exactly when the sum reaches it |
| `Scalar.Negate` | app/src/main/cpp/secp256k1/scalar_8x32_impl.h:196-214 | the value that adds up to zero, zero included |
| `Scalar.CondNegate` | app/src/main/cpp/secp256k1/scalar_8x32_impl.h:238-260 | negation or identity without a branch, and the sign that says which |
| `Scalar.IsHigh` | app/src/main/cpp/secp256k1/scalar_8x32_impl.h:220-236 | decides whether the value lies above half the order |
| `ScalarBits.GetBits` | app/src/main/cpp/secp256k1/scalar_8x32_impl.h:59-62 | a field inside one limb is that field of the whole value |
| `ScalarBits.GetBitsVar` | app/src/main/cpp/secp256k1/scalar_8x32_impl.h:64-73 | a field that may straddle two limbs is that field of the whole value |
| `ScalarBits.ShrInt` | app/src/main/cpp/secp256k1/scalar_8x32_impl.h:653-667 | old value = new value * 2^n + returned bits |
| `ScalarBits.CaddBit` | app/src/main/cpp/secp256k1/scalar_8x32_impl.h:139-163 | adds a power of two, or nothing, with the carry through all limbs |
| `SplitLambda.MulShiftVar` | app/src/main/cpp/secp256k1/scalar_8x32_impl.h:700-719 | for every shift from 256 to 512, the product divided by 2^shift and rounded to nearest |
| `SplitLambda.SplitLambda` | app/src/main/cpp/secp256k1/scalar_impl.h:297-325 | r1 + lambda * r2 is the scalar modulo the order, and both, read as signed residues, stay below 2^128 |
| `SplitLambda.ShortRemainders` | app/src/main/cpp/secp256k1/scalar_impl.h:259-294 | the rounding error of the two precomputed quotients keeps both lattice remainders below 2^128 |
| `SplitLambda.LambdaRoot` | app/src/main/cpp/secp256k1/scalar_impl.h:259-262 | lambda is a primitive cube root of one modulo the order |
| `SplitLambda.LatticeVectors` | app/src/main/cpp/secp256k1/scalar_impl.h:268-288 | the constants are two vectors of the lattice of (x, y) with x + y * lambda = 0 |
| `FieldMul.MulInner` | app/src/main/cpp/secp256k1/field_10x26_impl.h:461-788 | for operands with limbs below 2^30 (the last below 2^26): no 64-bit accumulator wraps, the value is the product modulo P, and the result meets its limb bounds |
| `FieldMul.SqrInner` | app/src/main/cpp/secp256k1/field_10x26_impl.h:790-1062 | the squaring has the value and the bounds of the multiplication of an element with itself |
| `FieldMul.ReduceColumns` | app/src/main/cpp/secp256k1/field_10x26_impl.h:503-787 | the interleaved folding of nineteen columns changes the value by a multiple of P only |
| `FieldMul.RowsAreColumns` | app/src/main/cpp/secp256k1/field_10x26_impl.h:461-787 | the hundred partial products, added up column by column, make the schoolbook product |
| `FieldNormalize.Normalize` | app/src/main/cpp/secp256k1/field_10x26_impl.h:43-96 | at any magnitude the debug check admits, up to 32: the unique representative below P, of the right residue exactly when neither of the two lowest sums leaves 32 bits, and always of the residue less what the wraps take away |
| `FieldNormalize.NormalizeVar` | app/src/main/cpp/secp256k1/field_10x26_impl.h:129-183 | the variable-time variant returns the same representative, right under the same exact condition |
| `FieldNormalize.NormalizeWeak` | app/src/main/cpp/secp256k1/field_10x26_impl.h:98-127 | magnitude 1, the exact value that is left, and the same residue exactly when neither sum wraps |
| `FieldNormalize.NormalizesToZero` | app/src/main/cpp/secp256k1/field_10x26_impl.h:185-212 | true exactly for multiples of P, once what wraps is taken away; without a wrap, exactly for multiples of P |
| `FieldNormalize.NormalizesToZeroVar` | app/src/main/cpp/secp256k1/field_10x26_impl.h:214-264 | the early exit on the lowest limb gives the same answer |
| `FieldNormalize.NoWrapBelow32` | app/src/main/cpp/secp256k1/field_10x26_impl.h:43-54 | limbs of magnitude up to 31 never wrap in the first pass |
| `FieldNormalize.LostWhenWraps` | app/src/main/cpp/secp256k1/field_10x26_impl.h:43-54 | at magnitude 32, what is lost is below P, and nothing is lost exactly when neither sum wraps, so a wrap always falsifies the residue |
| `FieldNormalize.WrongAtMagnitude32` | app/src/main/cpp/secp256k1/field_10x26_impl.h:43-54 | limbs of magnitude 32 whose first sum wraps, and the wrong representative they come out with |
| `FieldNormalize.NegateElement` | app/src/main/cpp/secp256k1/field_10x26_impl.h:386-406 | the negation modulo P, one magnitude higher, with no limb below zero |
| `FieldOctets.SetB32` | app/src/main/cpp/secp256k1/field_10x26_impl.h:323-345 | 32 octets as limbs of the same number, and success exactly below P |
| `FieldOctets.GetB32` | app/src/main/cpp/secp256k1/field_10x26_impl.h:347-384 | the octets of a normalized element denote the same number |
| `FieldOctets.OctetRoundTrip` | app/src/main/cpp/secp256k1/field_10x26_impl.h:323-384 | reading and writing octets are inverse, limb for limb and octet for octet |
| `FieldOctets.ToStorage` | app/src/main/cpp/secp256k1/field_10x26_impl.h:1130-1142 | ten 26-bit limbs packed into eight words, with shifts that leave 32 bits, denote the same number |
| `FieldOctets.FromStorage` | app/src/main/cpp/secp256k1/field_10x26_impl.h:1144-1155 | eight words unpacked into normalized limbs denote the same number |
| `FieldOctets.StorageRoundTrip` | app/src/main/cpp/secp256k1/field_10x26_impl.h:1130-1155 | packing and unpacking are inverse in both directions |
| `ScalarOctets.SetB32` | app/src/main/cpp/secp256k1/scalar_8x32_impl.h:165-179 | 32 octets as a scalar modulo the order, and the flag exactly when they reach it |
| `ScalarOctets.GetB32` | app/src/main/cpp/secp256k1/scalar_8x32_impl.h:181-190 | the octets of a scalar denote the same number |
| `ScalarOctets.OctetRoundTrip` | app/src/main/cpp/secp256k1/scalar_8x32_impl.h:165-190 | the packing of limbs is inverse to their printing, in both directions |
| `Fermat.LittleTheorem` | app/src/main/cpp/secp256k1/field_impl.h:136-224 | every unit modulo a prime p has a^(p-1) = 1, which is what makes the powers inverses |
| `PowerChains.CommonChain` | app/src/main/cpp/secp256k1/field_impl.h:38-111 | the shared part of both chains reaches the exponent floor(P / 2^10) |
| `PowerChains.Inv` | app/src/main/cpp/secp256k1/field_impl.h:136-224 | the addition chain computes a^(P-2) |
| `PowerChains.Sqrt` | app/src/main/cpp/secp256k1/field_impl.h:38-134 | reports success exactly when a square root exists; the result is always itself a square, and squares to a on success and to -a on failure |
| `PowerChains.SquareRootUnique` | app/src/main/cpp/secp256k1/field.h:98-102 | of the roots of a number, at most one modulo P is itself a square, so the contract of Sqrt leaves one result: -1 is no square modulo P |
| `PowerChains.RootUpToSign` | app/src/main/cpp/secp256k1/field_impl.h:38-134 | for every a, the power (P+1)/4 squares to a or to -a |
| `PowerChains.ScalarInverse` | app/src/main/cpp/secp256k1/scalar_impl.h:55-218 | on limbs, the addition chain computes x^(N-2) |
| `PowerChains.PowerIsInverse` | app/src/main/cpp/secp256k1/scalar_impl.h:55-218 | the power m-2 of a unit modulo a prime m is its inverse |
| `PowerChains.RootOfSquare` | app/src/main/cpp/secp256k1/field_impl.h:38-134 | for a square a, the power (P+1)/4 squares back to a |
| `Inversion.InvAllVar` | app/src/main/cpp/secp256k1/field_impl.h:263-288 | for any length: every output is the inverse of its input when all inputs are units, and every output is zero when some input is |
| `Curve.AddOnCurve` | app/src/main/cpp/secp256k1/group_impl.h:414-461 | the chord-and-tangent sum of two curve points is a curve point |
| `Curve.AddCommutes` | app/src/main/cpp/secp256k1/group_impl.h:414-461 | the chord-and-tangent sum is commutative, the tangent case included |
| `ChordLaw.ChordThird` | app/src/main/cpp/secp256k1/group_impl.h:414-461 | two points with different x and their negated sum lie on one line, and the three x-coordinates are all the roots that line leaves: both laws without division |
| `ChordLaw.TangentThird` | app/src/main/cpp/secp256k1/group_impl.h:301-354 | the negated double lies on the tangent, which meets the curve nowhere else |
| `ChordLaw.SumInfinite` | app/src/main/cpp/secp256k1/group_impl.h:438-447 | a sum is infinity exactly for a point and its negation |
| `Curve.SlopeIsSlope` | app/src/main/cpp/secp256k1/group_impl.h:525-578 | the slope also satisfies the unified relation m * (y1 + y2) = x1^2 + x1 x2 + x2^2 |
| `Jacobian.Gej.DoubleVar` | app/src/main/cpp/secp256k1/group_impl.h:301-354 | on limbs of magnitude up to 8, with every field operation inside its bounds: the doubled point, in place, over any hidden denominator, exactly when the point does not have order two; the z-ratio is the new z over the old; the result has magnitudes 6, 4 and 2 |
| `Jacobian.Gej.AddVar` | app/src/main/cpp/secp256k1/group_impl.h:361-412 | the group sum of two Jacobian elements in every special case but one, which is named exactly: doubling a point of order two; magnitudes as for doubling |
| `Jacobian.Gej.AddGeVar` | app/src/main/cpp/secp256k1/group_impl.h:414-461 | the group sum with an affine element, both over one hidden denominator, under the same exact condition, the z-ratio, and the same magnitudes |
| `Jacobian.Gej.AddZinvVar` | app/src/main/cpp/secp256k1/group_impl.h:463-517 | the group sum with an affine element whose denominator differs by the known factor bzinv, with the same magnitudes |
| `Jacobian.Gej.AddGe` | app/src/main/cpp/secp256k1/group_impl.h:520-640 | complete: without branches, the group sum for every a (infinity, b, -b, and opposite y with different x) and every finite affine b, on limbs of magnitude up to 8 |
| `Jacobian.SettledFraction` | app/src/main/cpp/secp256k1/group_impl.h:579-614 | whichever fraction the conditional moves select is the slope, and its denominator is zero exactly for opposite points |
| `Unified.OppositeY` | app/src/main/cpp/secp256k1/group_impl.h:560-575 | points with opposite y-coordinates agree in x or make the unified numerator vanish |
| `Unified.UnifiedStep` | app/src/main/cpp/secp256k1/group_impl.h:521-578 | the unified formula yields the group sum from numerator and denominator of the slope |
| `Jacobian.Gej.Neg` | app/src/main/cpp/secp256k1/group_impl.h:254-261 | the negated point |
| `Jacobian.Gej.Rescale` | app/src/main/cpp/secp256k1/group_impl.h:642-651 | z is multiplied by s and the denoted point does not change |
| `FieldElement.FeEqual` | app/src/main/cpp/secp256k1/field_impl.h:24-29 | decides equality modulo P for a first operand of magnitude 1 and a second of magnitude up to 8 |
| `FieldElement.FeCmpVar` | app/src/main/cpp/secp256k1/field_10x26_impl.h:304-321 | the comparison from the top limb down is that of the numbers |
| `Tables.GeNeg` | app/src/main/cpp/secp256k1/group_impl.h:94-98 | the negated affine element, over any denominator |
| `Tables.SetGejZinv` | app/src/main/cpp/secp256k1/group_impl.h:74-82 | division by a z-coordinate whose inverse is known |
| `Tables.SetGej` | app/src/main/cpp/secp256k1/group_impl.h:100-111 | conversion to affine; the Jacobian element is left in affine form and denotes the same point |
| `Tables.SetGejVar` | app/src/main/cpp/secp256k1/group_impl.h:113-127 | conversion to affine that leaves infinity alone; a finite element is left with z = 1 |
| `Tables.SetAllGejVar` | app/src/main/cpp/secp256k1/group_impl.h:129-153 | batch conversion: every finite element to its affine point, infinities passed over |
| `Tables.SetTableGejVar` | app/src/main/cpp/secp256k1/group_impl.h:155-171 | affine conversion of a table from its z-ratios with one inversion |
| `Tables.GlobalzSetTableGej` | app/src/main/cpp/secp256k1/group_impl.h:173-194 | brings a table to the z-coordinate of its last entry, which it returns, without an inversion |
| `Lift.SetXquad` | app/src/main/cpp/secp256k1/group_impl.h:216-225 | succeeds exactly when the curve has a point over x, and returns such a point; its y-coordinate is a quadratic residue |
| `Lift.QuadUnique` | app/src/main/cpp/secp256k1/group.h:46-50 | there is one point over x whose y-coordinate is a quadratic residue |
| `Lift.SetXoVar` | app/src/main/cpp/secp256k1/group_impl.h:227-237 | the curve point with the given x and parity, exactly when there is one |
| `Lift.LiftUnique` | app/src/main/cpp/secp256k1/group_impl.h:227-237 | there is one point over each x-coordinate and parity |
| `Group.MulAdd` | app/src/main/cpp/secp256k1/ecmult_impl.h:286-404 | multiples of a point add up as their multipliers do, negative ones included |
| `Group.MulMod` | app/src/main/cpp/secp256k1/ecmult_impl.h:286-404 | only the residue of a multiplier modulo the order counts |
| `Group.MulInjective` | app/src/main/cpp/secp256k1/ecmult_impl.h:286-404 | multiples of a finite point are equal only for congruent multipliers |
| `Group.NoTwoTorsion` | app/src/main/cpp/secp256k1/group_impl.h:310-313 | no curve point has y = 0, so doubling needs no special case |
| `Tables.OddMultiplesTable` | app/src/main/cpp/secp256k1/ecmult_impl.h:52-84 | entry i holds (2i+1) * A over its own z-coordinate, and the recorded ratios connect them |
| `Ecmult.ToStorage` | app/src/main/cpp/secp256k1/group_impl.h:653-662 | the stored words are the exact reduced coordinates |
| `Ecmult.FromStorage` | app/src/main/cpp/secp256k1/group_impl.h:664-668 | an element of the stored point |
| `Ecmult.OddMultiplesGlobalz` | app/src/main/cpp/secp256k1/ecmult_impl.h:102-110 | all odd multiples over one common nonzero z-coordinate |
| `Ecmult.OddMultiplesStorage` | app/src/main/cpp/secp256k1/ecmult_impl.h:112-132 | all odd multiples as the exact reduced affine coordinates |
| `Ecmult.EcmultContext.Build` | app/src/main/cpp/secp256k1/ecmult_impl.h:164-194 | a built context holds the odd multiples of the generator; building again changes nothing |
| `Ecmult.TableGetGe` | app/src/main/cpp/secp256k1/ecmult_impl.h:136-145 | the looked-up entry, negated for negative digits, is that multiple |
| `Ecmult.TableGetGeStorage` | app/src/main/cpp/secp256k1/ecmult_impl.h:146-155 | the looked-up stored entry, negated for negative digits, is that multiple |
| `Wnaf.EcmultWnaf` | app/src/main/cpp/secp256k1/ecmult_impl.h:228-284 | the digits sum to the scalar (less the order from 2^255 on); they are zero or odd, below 2^(w-1), at least w apart, and reach at most one position past the bit length |
| `Wnaf.RecodedWhole` | app/src/main/cpp/secp256k1/ecmult_impl.h:276-282 | once the length leaves room for the sign, the final carry is zero |
| `Ecmult.AddGeneratorDigit` | app/src/main/cpp/secp256k1/ecmult_impl.h:395-398 | adding an affine table entry on the shared curve with the ratio Z |
| `Ecmult.StraussLoop` | app/src/main/cpp/secp256k1/ecmult_impl.h:365-399 | the shared chain of doublings computes the sum of both recoded multiples as if the common z-coordinate were one |
| `Ecmult.Ecmult` | app/src/main/cpp/secp256k1/ecmult_impl.h:286-404 | na * A + ng * G, for all scalars and every finite A, with true coordinates after the one final multiplication |
| `WnafConst.RecodeConst` | app/src/main/cpp/secp256k1/ecmult_const_impl.h:45-119 | all digits odd and below 2^w in absolute value; their sum is the scalar plus a skew of 1 or 2, less the order for high scalars, for -1 as well |
| `WnafConst.Prepared` | app/src/main/cpp/secp256k1/ecmult_const_impl.h:78-95 | skew and sign flips leave an odd positive scalar with the right sign, for every residue |
| `WnafConst.Settle` | app/src/main/cpp/secp256k1/ecmult_const_impl.h:98-113 | borrowing from the digit above makes both digits odd without changing the value |
| `EcmultConst.WeakenTable` | app/src/main/cpp/secp256k1/ecmult_const_impl.h:157-159 | afterwards every y-coordinate has magnitude 1, which the negation in the lookup relies on, and every entry is still the same multiple |
| `EcmultConst.ConstTableGetGe` | app/src/main/cpp/secp256k1/ecmult_const_impl.h:23-43 | the lookup by conditional moves returns the digit multiple, negated without a normalisation |
| `EcmultConst.NeverInfinity` | app/src/main/cpp/secp256k1/ecmult_const_impl.h:180-185 | no doubling in the windowed loop ever meets infinity |
| `EcmultConst.WindowLoop` | app/src/main/cpp/secp256k1/ecmult_const_impl.h:166-198 | the windowed loop computes the multiple that the digits stand for |
| `EcmultConst.Unskew` | app/src/main/cpp/secp256k1/ecmult_const_impl.h:201-236 | the selected correction subtracts exactly the skew |
| `EcmultConst.EcmultConst` | app/src/main/cpp/secp256k1/ecmult_const_impl.h:122-237 | scalar * A for every scalar and every finite A |
| `GenTable.FillRow` | app/src/main/cpp/secp256k1/ecmult_gen_impl.h:63-67 | row j holds i * 16^j * G plus the offset of the row |
| `GenTable.NextRow` | app/src/main/cpp/secp256k1/ecmult_gen_impl.h:68-79 | the bases move on to 16^(j+1) * G and the next offset |
| `GenTable.OffsetsCancel` | app/src/main/cpp/secp256k1/ecmult_gen_impl.h:61-79 | the offsets of all rows sum to zero |
| `GenTable.NumsElement` | app/src/main/cpp/secp256k1/ecmult_gen_impl.h:38-53 | the shifting point: the even curve point over the fixed x-coordinate, plus G |
| `GenTable.NumsText` | app/src/main/cpp/secp256k1/ecmult_gen_impl.h:40-46 | the fixed x-coordinate is the number of the octets of the text "The scalar for this x is unknown" |
| `GenTable.BuildTable` | app/src/main/cpp/secp256k1/ecmult_gen_impl.h:55-86 | every stored entry (j, i) is i * 16^j * G + U_j |
| `EcmultGen.AddRows` | app/src/main/cpp/secp256k1/ecmult_gen_impl.h:134-153 | the comb adds the multiple of the generator, the row offsets cancelling |
| `EcmultGen.BlindingInvariant` | app/src/main/cpp/secp256k1/ecmult_gen_impl.h:159-208 | after every sequence of renewals, initial = -blind * G |
| `EcmultGen.BlindedRun` | app/src/main/cpp/secp256k1/ecmult_gen_impl.h:124-208 | after every sequence of renewals, the blinded sum is the multiple of the generator |
| `EcmultGen.EcmultGenContext.EcmultGen` | app/src/main/cpp/secp256k1/ecmult_gen_impl.h:124-156 | a * G in every reachable state of the context |
| `EcmultGen.FirstField` | app/src/main/cpp/secp256k1/ecmult_gen_impl.h:184-190 | the first draw that denotes a nonzero field element, all earlier ones refused |
| `EcmultGen.FirstScalar` | app/src/main/cpp/secp256k1/ecmult_gen_impl.h:194-199 | the first draw that denotes a nonzero scalar, all earlier ones refused |
| `EcmultGen.EcmultGenContext.Randomize` | app/src/main/cpp/secp256k1/ecmult_gen_impl.h:191-193 | the z-coordinate of the starting point is multiplied by the drawn element |
| `EcmultGen.EcmultGenContext.Blind` | app/src/main/cpp/secp256k1/ecmult_gen_impl.h:159-208 | for the first acceptable scalar draw b: blind = N - b and initial denotes b * G, with or without starting from scratch, and the context stays valid |
| `EcmultGen.EcmultGenContext.Build` | app/src/main/cpp/secp256k1/ecmult_gen_impl.h:21-92 | builds the table once and sets up the blinding with the first acceptable draw; a second call changes nothing |
| `Ecdsa.GejEqXVar` | app/src/main/cpp/secp256k1/group_impl.h:246-252 | compares an x-coordinate with a Jacobian element without a division |
| `Ecdsa.TwoCandidates` | app/src/main/cpp/secp256k1/ecdsa_impl.h:235-268 | an x-coordinate reduces to r exactly when it is r, or r + N with r < P - N |
| `Ecdsa.Verify` | app/src/main/cpp/secp256k1/ecdsa_impl.h:203-271 | accepts exactly when r and s are nonzero and the recomputed point is finite with x = r modulo N |
| `Ecdsa.AcceptsIff` | app/src/main/cpp/secp256k1/ecdsa_impl.h:203-271 | the verification equation without a division: some curve point R with x = r modulo N satisfies s * R = r * Q + m * G |
| `Ecdsa.AnyInverse` | app/src/main/cpp/secp256k1/ecdsa_impl.h:215-218 | the verification equation is the same for any inverse of s |
| `Ecdsa.Sign` | app/src/main/cpp/secp256k1/ecdsa_impl.h:273-313 | r is the reduced x-coordinate of the nonce point, s is low and satisfies the signing equation, the recovery id describes the point; fails exactly when s would be zero, which includes the nonce zero |
| `Ecdsa.SignedRecid` | app/src/main/cpp/secp256k1/ecdsa_impl.h:286-311 | bit 0 of the recovery id is the parity of y, bit 1 says whether the order was subtracted from x, at the multiple e * k of the generator, e being -1 when s was negated |
| `Ecdsa.SignedVerifies` | app/src/main/cpp/secp256k1/ecdsa_impl.h:203-313 | every signature that signing returns with r nonzero is accepted for the key of the signer, and its s is low |
| `Ecdsa.Recover` | app/src/main/cpp/secp256k1/modules/recovery/main_impl.h:87-121 | the key for the nonce point that the recovery id selects; fails exactly when r or s is zero, no such point exists, or the key is infinity |
| `Ecdsa.RecoveredTimes` | app/src/main/cpp/secp256k1/modules/recovery/main_impl.h:113-118 | the recovered key without a division: r * Q = s * R - m * G |
| `Ecdsa.SelectedIff` | app/src/main/cpp/secp256k1/modules/recovery/main_impl.h:97-112 | the recovery id selects x = r, or r + N from 2 on, and the parity of y |
| `Ecdsa.SignedSelects` | app/src/main/cpp/secp256k1/modules/recovery/main_impl.h:97-112 | the recovery id of a signature selects its nonce point, negated when s was |
| `Ecdsa.SignedRecovers` | app/src/main/cpp/secp256k1/modules/recovery/main_impl.h:87-121 | recovery from any signature that signing returns yields the public key of the signer |
| `Ecdsa.RecoveredVerifies` | app/src/main/cpp/secp256k1/modules/recovery/main_impl.h:87-121 | any key recovered from any signature accepts that signature |
| `DerCodec.DerReadLen` | app/src/main/cpp/secp256k1/ecdsa_impl.h:49-99 | for every width of size_t that holds the array: reads exactly what the length grammar admits, never passes the end, and lets the one wrapped comparison through only as a failure |
| `DerCodec.ReadLongLength` | app/src/main/cpp/secp256k1/ecdsa_impl.h:82-97 | the accumulated length is exact; the comparison with what is left misses only the length whose octets are all ones |
| `Der.LengthReadIs` | app/src/main/cpp/secp256k1/ecdsa_impl.h:49-99 | the low seven bits of the first octet of a long form count the octets that follow, which denote the length |
| `Der.LengthPrintedIs` | app/src/main/cpp/secp256k1/ecdsa_impl.h:179-201 | lengths below 128 are one octet; from there on the first octet is 0x80 plus the number of the octets that follow, without a leading zero |
| `Der.LengthStrict` | app/src/main/cpp/secp256k1/ecdsa_impl.h:49-99 | whatever is read is the one shortest encoding of the length |
| `Der.LengthRead` | app/src/main/cpp/secp256k1/ecdsa_impl.h:49-99 | every shortest encoding of a length that fits is read back |
| `DerCodec.DerParseInteger` | app/src/main/cpp/secp256k1/ecdsa_impl.h:101-145 | reads exactly one integer; negative and too large ones become zero |
| `DerCodec.SigParse` | app/src/main/cpp/secp256k1/ecdsa_impl.h:147-177 | parses exactly the signatures of the grammar, with nothing before, between or after |
| `Der.ParseStrict` | app/src/main/cpp/secp256k1/ecdsa_impl.h:147-177 | whatever parses is the DER encoding of two integers, and it denotes their values |
| `Der.ParseEncoded` | app/src/main/cpp/secp256k1/ecdsa_impl.h:147-177 | the DER encoding of any two integers parses to their values |
| `Der.DerIntShortest` | app/src/main/cpp/secp256k1/ecdsa_impl.h:111-118 | contents are refused exactly when dropping the first octet keeps their two's-complement value |
| `Der.ScalarRead` | app/src/main/cpp/secp256k1/ecdsa_impl.h:119-141 | the value read is the two's-complement integer where it lies from zero to below the order, and zero otherwise |
| `Der.ContentUnique` | app/src/main/cpp/secp256k1/ecdsa_impl.h:111-118 | contents without superfluous octets are determined by the number |
| `DerCodec.SigSerialize` | app/src/main/cpp/secp256k1/ecdsa_impl.h:179-201 | writes the encoding if it fits, touches nothing else, and reports its length in both cases |
| `Der.RoundTrip` | app/src/main/cpp/secp256k1/ecdsa_impl.h:147-201 | parsing what is printed gives the signature back, for all scalars |
| `Der.ParseUnique` | app/src/main/cpp/secp256k1/ecdsa_impl.h:147-201 | what parses to nonzero r and s is, octet for octet, what is printed for them |
| `Hash.MacrosAgree` | app/src/main/cpp/secp256k1/hash_impl.h:16-17 | the choice and majority macros compute the functions of FIPS 180-4 |
| `Sha256Laws.ChBit` | app/src/main/cpp/secp256k1/hash_impl.h:16 | each bit is that of y where x has a one, and that of z elsewhere |
| `Sha256Laws.MajBit` | app/src/main/cpp/secp256k1/hash_impl.h:17 | each bit is one where at least two of the three words have a one |
| `Sha256Laws.RotrIs` | app/src/main/cpp/secp256k1/hash_impl.h:18-21 | the two shifts and the or move the low n bits of a word above the others |
| `Sha256Laws.BigSigma0Bit` | app/src/main/cpp/secp256k1/hash_impl.h:18 | bit i is the sum modulo 2 of bits i+2, i+13 and i+22, counted around |
| `Sha256Laws.BigSigma1Bit` | app/src/main/cpp/secp256k1/hash_impl.h:19 | bit i is the sum modulo 2 of bits i+6, i+11 and i+25, counted around |
| `Sha256Laws.SmallSigma0Bit` | app/src/main/cpp/secp256k1/hash_impl.h:20 | bit i is the sum modulo 2 of bits i+7 and i+18, counted around, and of bit i+3 if there is one |
| `Sha256Laws.SmallSigma1Bit` | app/src/main/cpp/secp256k1/hash_impl.h:21 | bit i is the sum modulo 2 of bits i+17 and i+19, counted around, and of bit i+10 if there is one |
| `Sha256Laws.InitialRoots` | app/src/main/cpp/secp256k1/hash_impl.h:36-46 | the initial words are the first 32 bits of the fractional parts of the square roots of the first eight primes |
| `Sha256Laws.ConstantRoots` | app/src/main/cpp/secp256k1/hash_impl.h:53-119 | the 64 round constants are the first 32 bits of the fractional parts of the cube roots of the first 64 primes |
| `Sha256Laws.PlusSums` | app/src/main/cpp/secp256k1/hash_impl.h:121-128 | each word of the fed-forward state is the sum of the old and the new word modulo 2^32 |
| `Sha256Laws.WordOctetsNat` | app/src/main/cpp/secp256k1/hash_impl.h:33 | the octets of a word denote it, most significant first |
| `Sha256Laws.WordAtNat` | app/src/main/cpp/secp256k1/hash_impl.h:33 | a word of a block is the number of its four octets, most significant first |
| `Sha256Laws.PaddingIs` | app/src/main/cpp/secp256k1/hash_impl.h:149-155 | one bit, zeros up to a whole block and no more, and the bit length modulo 2^64 in the last eight octets |
| `KnownAnswer.DigestOfAbc` | app/src/main/cpp/secp256k1/hash_impl.h:36-162 | the digest of the three octets "abc" is ba7816bf 8f01cfea 414140de 5dae2223 b00361a3 96177a9c b410ff61 f20015ad, round by round through the functions that the contracts name |
| `KnownAnswer.StepNumbers` | app/src/main/cpp/secp256k1/hash_impl.h:23-28 | a round carried out on bit vectors, with their own shifts, sums and boolean operations, is the round on numbers |
| `Hash.Round` | app/src/main/cpp/secp256k1/hash_impl.h:23-28 | one rotated round updates two variables as one round of the standard |
| `Hash.EightRounds` | app/src/main/cpp/secp256k1/hash_impl.h:53-60 | after eight rotated rounds every variable is back in its role |
| `Hash.Scheduled` | app/src/main/cpp/secp256k1/hash_impl.h:70-119 | the in-place update of a word makes it the word sixteen places on in the message schedule |
| `Hash.SixtyFourRounds` | app/src/main/cpp/secp256k1/hash_impl.h:49-119 | the unrolled rounds over sixteen rotating words are the 64 rounds over the 64-word schedule |
| `Streaming.Transform` | app/src/main/cpp/secp256k1/hash_impl.h:49-129 | one block is compressed as in section 6.2.2 of FIPS 180-4 |
| `Streaming.Sha256Hash.Write` | app/src/main/cpp/secp256k1/hash_impl.h:131-146 | any cut of the data into writes holds the same data: whole blocks absorbed, the rest buffered |
| `Streaming.Sha256Hash.Finalize` | app/src/main/cpp/secp256k1/hash_impl.h:148-162 | the digest of everything written, with the padding of section 5.1.1 of FIPS 180-4; the state is left zero |
| `Streaming.PadPrefix` | app/src/main/cpp/secp256k1/hash_impl.h:149-155 | the padding cut from the fixed block and the length words are the padding of the standard |
| `Fips180.AbsorbAppend` | app/src/main/cpp/secp256k1/hash_impl.h:131-146 | absorbing whole blocks first and the rest afterwards is absorbing everything |

## Left out

- Local variables of the point formulas are values: a field operation on them copies limbs and works on the copy, so that
  aliasing is modelled where elements alias (the point arguments and the limb arrays), not for every temporary.
- Coordinates left unset next to an infinity flag are zeros here, where C leaves them undefined.
- Ecmult.Ecmult: the point must be finite, as a debug check of the code demands; with infinity the table is meaningless.
- EcmultGen.EcmultGenContext.Blind: the outputs of the seeded generator are arbitrary octets among which an acceptable
  number occurs; termination of the rejection loops for a real generator is not modelled. The contract fixes the point
  that `initial` denotes, not its projective coordinates.
- Streaming.Sha256Hash.Finalize: the byte counter is unbounded, so the length field is 8 * length modulo 2^64.
- Associativity of the addition law and primality of the constants: hypotheses, see above.
- The 5x52 field and 4x64 scalar twins, inline assembly and GMP code: not selected by the build.
- The precomputed generator table header: the loop that builds such a table is modelled instead.
- HMAC-SHA256 and the RFC 6979 generator: compositions of the hash; their outputs are treated as arbitrary.
- The multiplication by lambda on points and the endomorphism branches of ecmult: not compiled in. The scalar split is
  modelled because its bound is what those branches rest on.
- Timing, memory clearing, allocation failure, callbacks, argument checks, and everything outside the library: not
  functional properties of this code.
