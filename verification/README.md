# Ed25519 and lax DER in Dafny

This project models the two pieces of vendored cryptography that the ledger relies on for
signatures, and proves what they compute:

* `external/ed25519-donna`, the portable C path with 64-bit limbs: field arithmetic modulo
  p = 2^255 - 19, arithmetic modulo the group order L, the scalar recodings, the Edwards point
  formulas, both scalar multiplications, the Bos-Coster batch multiplication on a mutable heap,
  streaming SHA-512, point packing and unpacking, key derivation, signing, verification and the batch driver;
* `external/secp256k1/contrib/lax_der_parsing.c`, the tolerant DER signature parser, with the scalar
  loading it ends in.

## How it is built

| module | models |
|---|---|
| `Words`, `Bytes` | 64- and 128-bit words with explicit wrap-around, bit operations, little-endian loads and stores |
| `Field`, `FieldCodec`, `Chains` | limbs of 51 bits, their reduction, their encoding, the two addition chains |
| `CurveGroup`, `Points`, `PointGroup` | the group of the curve, the formulas on residues, what each formula does to group elements |
| `PointCodec` | packing, decoding with a square root, and the strings that denote a point |
| `Multiples`, `Digits` | integer multiples, linear combinations and sums in the group; digit strings and their value |
| `Modm`, `ModmCodec`, `Recoding` | scalars in limbs of 56 bits, Barrett reduction, window and sliding-window recodings |
| `ScalarMult`, `BaseMult` | double-scalar and base-point multiplication |
| `BatchScalars`, `BatchScalars30` | truncated scalar helpers in the 56-bit and in the 30-bit limb layout, and their agreement |
| `Heap`, `BosCoster`, `BatchCheck` | the index heap, the batch loop and its final step, the neutral test |
| `BatchTerms`, `BatchVerify` | what a batch of signatures adds up to; the batch driver and its verdicts |
| `Sha512` | the hash state machine |
| `Signature` | key derivation, signing, verification |
| `LaxDer` | the DER parser, the strict encoding and the serializer |

Every layer states its result in terms of the layer below: limbs have a value, values are
residues, coordinates are residues at a scale, representations stand for group elements, digit
strings have a value and tables hold multiples. Ghost parameters carry the residue or the element
that a piece of code works on, so each contract says what the C function computes and not how.

Some facts of mathematics are hypotheses and appear by name in the contracts that use them.
`CurveGroup.Valid` says that the points form a commutative group whose addition is the law of
-x^2 + y^2 = 1 + d x^2 y^2 with invertible denominators. `CurveGroup.Faithful` says that this group
is the set of all points of the curve. `PointCodec.PrimeField` says that p has no zero divisors and
that Fermat's little theorem holds. [L]B = 0 is a `requires` of the signature scheme.
`BatchCheck.PrimeOrder` and `BatchCheck.CofactorEight` say that L is prime and that 8 L annihilates
every point; only the statements about the neutral test of a batch use them. The tables of
multiples are hypotheses too (`BaseMult.BaseTable`, `ScalarMult.OddNiels`).

## Where the code departs from its comments or its standard

* `curve25519_square_times` says it computes in^(2 count). It computes in^(2^count), for count >= 1.
* The final double-and-add of the batch multiplication starts from the point itself and then reads
  the leading bit again. For a scalar above 1 it returns (2^(k+1) + scalar) times the point, where k
  is the top set bit. `BosCoster.Final` has the exact condition under which the point is right all the
  same, `BosCoster.FinalOfTwo` is an input for which it is wrong, and `BatchCheck.SameVerdict` shows
  that the neutral test of a batch is not affected.
* The scan of that step starts at limb 3. A scalar above 1 with nothing in limbs 0 to 3 sends it below
  the array. `BosCoster.Final` and `BosCoster.MultiScalarMult` say exactly when, and
  `BosCoster.ScanLeavesArray` is an input. It cannot happen once the heap was extended. `BosCoster.StuckIff`
  reads the condition off the input scalars, and `BatchVerify.SignOpenBatch` off the batches.
* The batch loop tests for its end before it tests for the extension to the 128-bit scalars. An
  input can therefore end on the first heap. `BosCoster.ExitDecided` says exactly which inputs do,
  `BosCoster.MultiScalarMult` when the sum is complete anyway, and `BosCoster.LostTerm` gives an input
  that loses a term.
* `heap_build` asks for a count of at least 3. The repair that follows each subtraction also needs the
  size to be odd, which the batch loop arranges. `Heap.BatchHeap.UpdatedRoot` has the exact condition on
  the heap before the call, and `Heap.EvenSizesFail` an example for every even size.
* The driver reduces the products r_i h_i modulo L before they multiply the keys, and it takes every
  key that decodes. For a key with a part of small order the batch test and single verification can
  therefore disagree. `BatchTerms.BatchSum` says by what the sums differ, `BatchVerify.VerifyingBatch`
  when a batch of verifying signatures is accepted all the same, and `BatchTerms.TorsionKey` and
  `BatchVerify.TorsionBatch` have the failing case: a key of order 2 with r h = L + 1.
* Section 5.1.7 of RFC 8032 asks for S below L. `ed25519_sign_open` tests for S below 2^253 only.
  `Signature.SameModuloOrder` says that S counts modulo L, and `Signature.SecondForm` that a signature
  with S + L below 2^253 has a second form that verifies.
* The sliding-window recoding has 256 digits for scalars of 256 bits. A carry out of the last digit is
  lost. `Recoding.ContractSlidingWindow` says exactly when, for all scalars. Up to 2^255 it never happens
  (`Recoding.LeftBound`), and 2^256 - 1 loses it at every width (`Recoding.AllOnes`).
* `curve25519_contract` asks for a fully reduced number in its comment. It is canonical for all limbs
  up to 2^54.

## Model

| member | source | states |
|---|---|---|
| `Field.Add` | external/ed25519-donna/curve25519-donna-64bit.h:26-43 | the sum of two elements limb by limb, without wrapping a 64-bit word; bounds add |
| `Field.Sub` | external/ed25519-donna/curve25519-donna-64bit.h:62-70 | a - b plus 2p: congruent to the difference, every limb non-negative and within the stated bound |
| `Field.SubAfterBasic` | external/ed25519-donna/curve25519-donna-64bit.h:73-80 | a - b plus 4p: congruent to the difference for the looser second operand that follows another addition or subtraction |
| `Field.AddReduce` | external/ed25519-donna/curve25519-donna-64bit.h:45-54 | congruent to the sum, limbs at most 2^51 + 512 |
| `Field.SubReduce` | external/ed25519-donna/curve25519-donna-64bit.h:82-91 | congruent to the difference, limbs at most 2^51 + 512 |
| `Field.Neg` | external/ed25519-donna/curve25519-donna-64bit.h:94-103 | congruent to the negative, limbs at most 2^51 + 512 |
| `Field.CarryFold` | external/ed25519-donna/curve25519-donna-64bit.h:46-54 | one carry pass with the top carry folded in times 19: subtracts exactly c p where c is the quotient of the value by 2^255 |
| `Field.CarryWide` | external/ed25519-donna/curve25519-donna-64bit.h:158-170 | the carry pass over five 128-bit accumulators: congruent to the accumulators' value, limbs back below 2^51 + 2^13 |
| `Field.ProductFolds` | external/ed25519-donna/curve25519-donna-64bit.h:126-155 | the schoolbook product with the columns above 2^255 folded down by 19 is congruent to the product, for all limbs |
| `Field.HighColumns` | external/ed25519-donna/curve25519-donna-64bit.h:140-155 | limbs scaled by 19 and added onto the columns never wrap 128 bits |
| `Field.Mul` | external/ed25519-donna/curve25519-donna-64bit.h:105-171 | for all limbs up to 2^54 no 64- or 128-bit intermediate wraps, the output is congruent to the product and its limbs are at most 2^51 + 2^13 |
| `Field.SquareFolds` | external/ed25519-donna/curve25519-donna-64bit.h:251-269 | the doubled cross products of a squaring, folded by 19, are congruent to the square |
| `Field.Square` | external/ed25519-donna/curve25519-donna-64bit.h:236-284 | the same class and congruence as a multiplication by itself, for all limbs up to 2^54 |
| `Field.CarryParallel` | external/ed25519-donna/curve25519-donna-64bit.h:215-226 | the variant carry of the repeated squaring, with carries taken before they are added: congruent, same class |
| `Field.SquareTimes` | external/ed25519-donna/curve25519-donna-64bit.h:178-234 | count >= 1 squarings give in^(2^count), limbs in class at every step |
| `FieldCodec.Expand` | external/ed25519-donna/curve25519-donna-64bit.h:286-319 | 32 bytes become limbs below 2^51 whose value is the little-endian number modulo 2^255, for every byte string |
| `FieldCodec.Canonical` | external/ed25519-donna/curve25519-donna-64bit.h:350-363 | adding 19 and watching bit 255 subtracts p exactly when the value has reached p |
| `FieldCodec.Contract` | external/ed25519-donna/curve25519-donna-64bit.h:321-373 | for all limbs up to 2^54 the 32 bytes encode the representative in [0, p) of the value |
| `FieldCodec.Recode` | external/ed25519-donna/curve25519-donna-64bit.h:286-373 | contract after expand reduces modulo p with bit 255 dropped, and is the identity on every encoding below p |
| `Chains.SquareTimesMul` | external/ed25519-donna/curve25519-donna-helpers.h:12-31 | one link of a chain: z^e squared k times and multiplied by z^f is z^(e 2^k + f) |
| `Chains.Pow250` | external/ed25519-donna/curve25519-donna-helpers.h:9-31 | the chain from z^(2^5 - 1) reaches z^(2^250 - 1) |
| `Chains.Recip` | external/ed25519-donna/curve25519-donna-helpers.h:33-49 | z^(p - 2) for every z |
| `Chains.PowRoot` | external/ed25519-donna/curve25519-donna-helpers.h:51-67 | z^(2^252 - 3), that is z^((p - 5)/8), for every z |
| `CurveGroup.Constants` | external/ed25519-donna/ed25519-donna-64bit-tables.h:8-18 | 121666 d = -121665, the second constant is 2d, and the square of the third is -1, modulo p |
| `Points.ToPartial` | external/ed25519-donna/ed25519-donna-impl-base.h:5-10 | limb bounds and residues of the conversion that leaves t alone |
| `Points.ToFull` | external/ed25519-donna/ed25519-donna-impl-base.h:12-18 | limb bounds and residues of the conversion of all four coordinates |
| `Points.ToPNiels` | external/ed25519-donna/ed25519-donna-impl-base.h:20-26 | limb bounds and residues of the projective niels form |
| `Points.AddP1P1` | external/ed25519-donna/ed25519-donna-impl-base.h:28-50 | with coordinates in class no intermediate wraps, and the outputs have the residues of the complete addition formula |
| `Points.DoubleP1P1` | external/ed25519-donna/ed25519-donna-impl-base.h:53-67 | the same for the doubling formula, which never reads t |
| `Points.NielsAdd2P1P1` | external/ed25519-donna/ed25519-donna-impl-base.h:69-86 | the same for an addition of a niels entry with either sign bit |
| `Points.PNielsAddP1P1` | external/ed25519-donna/ed25519-donna-impl-base.h:88-106 | the same for a projective niels entry with either sign bit |
| `PointGroup.SumLaw` | external/ed25519-donna/ed25519-donna-impl-base.h:28-50 | the addition formula, cross-multiplied, is the affine law of -x^2 + y^2 = 1 + d x^2 y^2 at any scales of the operands |
| `PointGroup.DoubleLaw` | external/ed25519-donna/ed25519-donna-impl-base.h:53-67 | the doubling formula equals adding a curve point to itself |
| `PointGroup.NegatedEntry` | external/ed25519-donna/ed25519-donna-impl-base.h:69-106 | swapping y - x and y + x and negating t2d turns the entry of e into the entry of -e |
| `PointGroup.Full` | external/ed25519-donna/ed25519-donna-impl-base.h:12-18 | a completed point that stands for e becomes a full one for e, X/Z, Y/Z and T = XY/Z |
| `PointGroup.Partial` | external/ed25519-donna/ed25519-donna-impl-base.h:5-10 | a completed point that stands for e becomes a partial one for e |
| `PointGroup.Double` | external/ed25519-donna/ed25519-donna-impl-base.h:115-120 | doubles the element; only x, y and z of the operand matter |
| `PointGroup.DoublePartial` | external/ed25519-donna/ed25519-donna-impl-base.h:108-113 | doubles the element into a point whose t is not to be read |
| `PointGroup.AddPoints` | external/ed25519-donna/ed25519-donna-impl-base.h:122-127 | adds two elements |
| `PointGroup.NielsStep` | external/ed25519-donna/ed25519-donna-impl-base.h:69-86 | adds or subtracts the entry's element according to the sign bit |
| `PointGroup.PNielsStep` | external/ed25519-donna/ed25519-donna-impl-base.h:88-106 | adds or subtracts the entry's element according to the sign bit |
| `PointGroup.NielsAdd` | external/ed25519-donna/ed25519-donna-impl-base.h:129-147 | adds the element of a niels entry in place |
| `PointGroup.FullToPNiels` | external/ed25519-donna/ed25519-donna-impl-base.h:20-26 | keeps the element |
| `PointGroup.PNielsAdd` | external/ed25519-donna/ed25519-donna-impl-base.h:149-172 | adds and leaves the sum in projective niels form |
| `PointGroup.NeutralIsZero` | external/ed25519-donna/ed25519-donna-impl-base.h:268-271 | the point set up by clearing and two stores is the neutral element |
| `PointGroup.Extended` | external/ed25519-donna/ed25519-donna-impl-base.h:12-18 | a full representation satisfies X Y = Z T |
| `PointGroup.PartialUnique` | external/ed25519-donna/ed25519-donna-impl-base.h:5-18 | a representation determines the affine coordinates of what it stands for |
| `PointCodec.Verify` | external/ed25519-donna/ed25519-donna.h:63-72 | the timing-safe comparison returns 1 exactly for equal strings of any length |
| `PointCodec.IsZeroElement` | external/ed25519-donna/ed25519-donna-impl-base.h:222-228 | contracting and comparing with zero bytes decides congruence to 0 |
| `PointCodec.SetSign` | external/ed25519-donna/ed25519-donna-impl-base.h:188-188 | exclusive-or of the parity into the top byte adds 2^255 times the parity |
| `PointCodec.Pack` | external/ed25519-donna/ed25519-donna-impl-base.h:179-189 | the 32 bytes are the encoding of section 5.1.2 of RFC 8032: the canonical y with the parity of the canonical x on top |
| `PointCodec.RootIffOnCurve` | external/ed25519-donna/ed25519-donna-impl-base.h:201-204 | x^2 den = num exactly when (x, y) is on the curve |
| `PointCodec.CandidateSquared` | external/ed25519-donna/ed25519-donna-impl-base.h:206-221 | candidate^2 den = num (num den^7)^((p-1)/4) as integers |
| `PointCodec.OtherRoot` | external/ed25519-donna/ed25519-donna-impl-base.h:224-230 | a candidate that passes only the second test becomes a root when multiplied by the root of -1 |
| `PointCodec.RootFound` | external/ed25519-donna/ed25519-donna-impl-base.h:206-230 | if num/den has a root, one of the two tests accepts the candidate |
| `PointCodec.DenNonzero` | external/ed25519-donna/ed25519-donna-impl-base.h:202-204 | den does not vanish where there is a point |
| `PointCodec.RootsOpposite` | external/ed25519-donna/ed25519-donna-impl-base.h:232-236 | two points with the same y have equal or opposite x |
| `PointCodec.UnpackNegative` | external/ed25519-donna/ed25519-donna-impl-base.h:191-239 | what is accepted is on the curve on both branches, with T = XY, Z = 1, Y the encoded number modulo 2^255, and for a non-zero x the parity that is not encoded; over a prime field a string is accepted exactly if some point of the curve has its y |
| `PointCodec.DecodesNegative` | external/ed25519-donna/ed25519-donna-impl-base.h:191-239 | a string that denotes e is accepted and decodes to a full representation of -e |
| `PointCodec.DecodedDenotes` | external/ed25519-donna/ed25519-donna-impl-base.h:191-239 | whatever is accepted is the negative of a point that the string denotes |
| `PointCodec.DenotesUnique` | external/ed25519-donna/ed25519-donna-impl-base.h:179-239 | a string denotes at most one point, so packing is injective |
| `PointCodec.DenotedIff` | external/ed25519-donna/ed25519-donna-impl-base.h:191-239 | a string denotes a point exactly if its y is that of a curve point, so decoding accepts exactly the strings that denote one |
| `PointCodec.EncodesDenotes` | external/ed25519-donna/ed25519-donna-impl-base.h:179-239 | the strict encoding is one of the strings that denote a point |
| `Words.MaskSelect` | external/ed25519-donna/modm-donna-64bit.h:55-62 | the masked exclusive-or keeps r when the borrow is set and takes t otherwise |
| `Modm.Constants` | external/ed25519-donna/modm-donna-64bit.h:10-35 | the limb constants spell L and mu = floor(2^512 / L) |
| `Modm.SubLimb` | external/ed25519-donna/modm-donna-64bit.h:49-52 | one limb of a subtraction with borrow |
| `Modm.Reduce` | external/ed25519-donna/modm-donna-64bit.h:42-63 | subtracts L exactly when the value has reached it |
| `Modm.ProductColumns` | external/ed25519-donna/modm-donna-64bit.h:129-147 | the nine columns spell the product |
| `Modm.Estimate` | external/ed25519-donna/modm-donna-64bit.h:71-85 | dropping the three low columns of mu q1 leaves 0 <= mu q1 - 2^264 q3 < 2^264 + 2^228 |
| `Modm.EstimateError` | external/ed25519-donna/modm-donna-64bit.h:71-85 | the truncated estimate is short of the quotient by at most one: the remainder lies in [0, 2L) for every x below 2^512 |
| `Modm.TimesOrder` | external/ed25519-donna/modm-donna-64bit.h:87-96 | the low 264 bits of q3 L |
| `Modm.Sub264` | external/ed25519-donna/modm-donna-64bit.h:98-103 | subtraction modulo 2^264 |
| `Modm.BarrettOnce` | external/ed25519-donna/modm-donna-64bit.h:65-105 | the first conditional subtraction already leaves x mod L |
| `Modm.BarrettReduce` | external/ed25519-donna/modm-donna-64bit.h:65-107 | exactly x mod L for every x below 2^512; the second conditional subtraction never fires, since `Modm.Reduce` leaves a reduced scalar alone |
| `Modm.ProductHalves` | external/ed25519-donna/modm-donna-64bit.h:129-147 | the split of the product into bits from 248 up and bits below 264, from one middle column |
| `Modm.Mul` | external/ed25519-donna/modm-donna-64bit.h:123-150 | x y mod L for all 256-bit x and y |
| `Modm.Add` | external/ed25519-donna/modm-donna-64bit.h:110-121 | (x + y) mod L for reduced x and y |
| `ModmCodec.Expand256` | external/ed25519-donna/modm-donna-64bit.h:152-187 | the little-endian number for fewer than 32 bytes, and that number modulo L for 32 to 64 bytes |
| `ModmCodec.Contract256` | external/ed25519-donna/modm-donna-64bit.h:205-211 | the bytes of a 256-bit scalar |
| `Digits.Expand` | external/ed25519-donna/modm-donna-64bit.h:219-226 | writing out limbs digit by digit keeps the value |
| `Digits.HornerEval` | external/ed25519-donna/ed25519-donna-impl-base.h:273-291 | Horner's rule from any position rebuilds the value of a digit string |
| `Recoding.SignStep` | external/ed25519-donna/modm-donna-64bit.h:230-236 | moving 16 to the next digit keeps the value |
| `Recoding.MakeSigned` | external/ed25519-donna/modm-donna-64bit.h:228-237 | the signing loop keeps the value and leaves all digits but the last in [-8, 7] |
| `Recoding.ContractWindow4` | external/ed25519-donna/modm-donna-64bit.h:213-238 | 64 digits in base 16 that sum to s, in [-8, 7] but for the last, which is in [0, 8] for s below 2^255 |
| `Recoding.Ripple` | external/ed25519-donna/modm-donna-64bit.h:268-274 | the carry ripple adds 2^q, stopping at the first zero, or loses 2^256 by running past the last digit |
| `Recoding.Absorb` | external/ed25519-donna/modm-donna-64bit.h:262-278 | one turn of the window loop keeps the value, but for a lost carry, and everything below the window |
| `Recoding.NafKept` | external/ed25519-donna/modm-donna-64bit.h:258-279 | a later window never touches the gap that an earlier digit needs |
| `Recoding.ContractSlidingWindow` | external/ed25519-donna/modm-donna-64bit.h:240-280 | for every 256-bit scalar and w from 2 to 7: digit j is the last width-w digit of what is left of the scalar after j digits, a non-adjacent form with non-zero digits odd, below 2^(w-1) in magnitude and at least w apart; the digits sum to s exactly if nothing is left after 256 digits |
| `Recoding.DigitByDigit` | external/ed25519-donna/modm-donna-64bit.h:257-279 | a non-adjacent form that spells a number but for a lost carry has exactly the digits that splitting the number gives |
| `Recoding.LeftBound` | external/ed25519-donna/modm-donna-64bit.h:257-279 | for scalars up to 2^255 nothing is left, so the recoding is exact |
| `Recoding.AllOnes` | external/ed25519-donna/modm-donna-64bit.h:257-279 | 2^256 - 1 leaves 1 at every width: the input whose carry is lost |
| `Multiples.SumConserved` | external/ed25519-donna/ed25519-donna-batchverify.h:182-183 | subtracting one scalar from another and adding the points the other way keeps the sum of all terms |
| `ScalarMult.OddMultiples` | external/ed25519-donna/ed25519-donna-impl-base.h:263-266 | the table holds e, 3e, ..., 15e |
| `ScalarMult.OrientedMultiple` | external/ed25519-donna/ed25519-donna-impl-base.h:280-288 | the table index and sign bit of an odd digit pick that multiple |
| `ScalarMult.HornerStep` | external/ed25519-donna/ed25519-donna-impl-base.h:278-290 | one turn doubles the accumulated pair of multiples and adds both digits; t of the accumulator is not read before it is set |
| `ScalarMult.HornerLoop` | external/ed25519-donna/ed25519-donna-impl-base.h:273-291 | the loop computes both digit strings by Horner's rule, skipping leading zeros |
| `ScalarMult.DoubleScalarMult` | external/ed25519-donna/ed25519-donna-impl-base.h:251-292 | [s1]p1 + [s2]B for all scalars up to 2^255; for every 256-bit scalar, the multiple that its digits spell |
| `Words.MaskSwap` | external/ed25519-donna/curve25519-donna-64bit.h:403-407 | the masked exclusive-or swaps two words or leaves them |
| `BaseMult.WindowEqual` | external/ed25519-donna/ed25519-donna-impl-base.h:298-301 | on any two 32-bit words: 1 for equal words and for words whose exclusive or is above 2^31, so below 2^31 exactly for equal ones |
| `BaseMult.MoveConditional` | external/ed25519-donna/curve25519-donna-64bit.h:377-395 | copies the row exactly when the flag is set |
| `BaseMult.SwapConditional` | external/ed25519-donna/curve25519-donna-64bit.h:397-408 | swaps the elements exactly when the flag is set |
| `BaseMult.SelectRow` | external/ed25519-donna/ed25519-donna-impl-base.h:311-317 | the scan leaves the row of the wanted multiple, and the neutral row for 0 |
| `BaseMult.NegatedRow` | external/ed25519-donna/ed25519-donna-impl-base.h:324-327 | swap and negation give the row of the negated element, at either scale of t2d |
| `BaseMult.ChooseNiels` | external/ed25519-donna/ed25519-donna-impl-base.h:303-328 | the entry of [d 256^pos]B for every digit d in [-8, 8], t2d scaled by 2 in position 0 and by 2d elsewhere |
| `BaseMult.FirstPoint` | external/ed25519-donna/ed25519-donna-impl-base.h:342-347 | the first point is built from a position-0 row directly, as a full representation with X Y = Z T |
| `BaseMult.AddRowZero` | external/ed25519-donna/ed25519-donna-impl-base.h:356-358 | multiplying t2d by d makes the position-0 row an ordinary entry |
| `BaseMult.AddRow` | external/ed25519-donna/ed25519-donna-impl-base.h:349-350 | adds [d 256^pos]B |
| `BaseMult.EvenAndOdd` | external/ed25519-donna/ed25519-donna-impl-base.h:340-362 | 16 times the odd digits plus the even digits is the value of the digit string |
| `BaseMult.BaseScalarMult` | external/ed25519-donna/ed25519-donna-impl-base.h:333-363 | [s]B as a full representation for every s below 2^255 |
| `BatchScalars.Lt` | external/ed25519-donna/modm-donna-64bit.h:302-315 | compares the limbs up to limbsize as numbers |
| `BatchScalars.Lte` | external/ed25519-donna/modm-donna-64bit.h:317-330 | compares the limbs up to limbsize as numbers |
| `BatchScalars.Sub` | external/ed25519-donna/modm-donna-64bit.h:286-299 | subtracts the limbs up to limbsize as numbers and leaves the others alone |
| `BatchScalars.IsZero` | external/ed25519-donna/modm-donna-64bit.h:332-340 | decides whether the scalar is 0 |
| `BatchScalars.IsOne` | external/ed25519-donna/modm-donna-64bit.h:342-350 | decides whether the scalar is 1 |
| `BatchScalars.IsAtMost128` | external/ed25519-donna/modm-donna-64bit.h:352-361 | decides whether the scalar is below 2^128 |
| `BatchScalars.FitsIffBelow` | external/ed25519-donna/modm-donna-64bit.h:283-330 | limbs above limbsize are zero exactly when the scalar is below the weight of the next limb |
| `BatchScalars30.FirstDifference` | external/ed25519-donna/modm-donna-32bit.h:401-433 | the highest limb that differs decides the order of the numbers |
| `BatchScalars30.Compare` | external/ed25519-donna/modm-donna-32bit.h:401-433 | the lexicographic comparisons from limbsize down compare the truncated numbers, strictly or not |
| `BatchScalars30.Sub30` | external/ed25519-donna/modm-donna-32bit.h:381-398 | subtracts the limbs up to limbsize as numbers and leaves the others alone |
| `BatchScalars30.IsZero30` | external/ed25519-donna/modm-donna-32bit.h:436-444 | decides whether the scalar is 0 |
| `BatchScalars30.IsOne30` | external/ed25519-donna/modm-donna-32bit.h:446-456 | decides whether the scalar is 1 |
| `BatchScalars30.IsAtMost128In30` | external/ed25519-donna/modm-donna-32bit.h:458-469 | decides whether the scalar is below 2^128 |
| `BatchScalars30.Truncation30` | external/ed25519-donna/modm-donna-32bit.h:381-433 | limbs above limbsize are zero exactly if the scalar is below the weight of the next limb, and then truncation is exact |
| `BatchScalars30.CompareBoth` | external/ed25519-donna/modm-donna-32bit.h:401-433 | on the same scalars the 30-bit lexicographic comparisons and the 56-bit borrow comparisons agree, whatever each truncates to |
| `BatchScalars30.SubtractBoth` | external/ed25519-donna/modm-donna-32bit.h:381-398 | on the same scalars both layouts subtract to the same scalar |
| `Heap.TruncationIsSound` | external/ed25519-donna/modm-donna-64bit.h:283-330 | comparing or subtracting only the limbs up to limbsize is exact for scalars that fit them |
| `Heap.RootIsMax` | external/ed25519-donna/ed25519-donna-batchverify.h:95-103 | the root of an ordered heap holds a largest scalar |
| `Heap.ChildrenAreNext` | external/ed25519-donna/ed25519-donna-batchverify.h:95-103 | every other scalar is at most that of one of the root's children |
| `Heap.RiseStep` | external/ed25519-donna/ed25519-donna-batchverify.h:40-46 | a swap with the parent keeps the order everywhere but at the rising slot |
| `Heap.SinkStep` | external/ed25519-donna/ed25519-donna-batchverify.h:57-68 | a swap with the larger child keeps the order everywhere but at the sinking slot |
| `Heap.BatchHeap.InsertNext` | external/ed25519-donna/ed25519-donna-batchverify.h:30-48 | adds the next index: again a heap, a permutation of the indices below the new size |
| `Heap.BatchHeap.Build` | external/ed25519-donna/ed25519-donna-batchverify.h:79-86 | a heap over the first count scalars |
| `Heap.BatchHeap.Extend` | external/ed25519-donna/ed25519-donna-batchverify.h:88-93 | a heap over the larger range |
| `Heap.BatchHeap.SiftUp` | external/ed25519-donna/ed25519-donna-batchverify.h:70-76 | restores the order by sifting up, with either comparison; the start slot gets its parent's index exactly if the first comparison lifts, and nothing beside or below it changes |
| `Heap.BatchHeap.SinkRoot` | external/ed25519-donna/ed25519-donna-batchverify.h:57-68 | the root's index sinks to the end of the path of larger children, what it passes moves up one slot, and only its own order is open |
| `Heap.BatchHeap.UpdatedRoot` | external/ed25519-donna/ed25519-donna-batchverify.h:50-77 | for every size from 3, after the root's scalar changed: a permutation again, in order but for a last left child without a sibling, and a heap exactly if the heap before the call was repairable: odd size, or a path of larger children that does not end at the parent of the last slot, or a last key that is at most the new root key |
| `Heap.RepairDecided` | external/ed25519-donna/ed25519-donna-batchverify.h:57-76 | sinking and rising restore the order everywhere exactly if the heap was repairable |
| `Heap.PathLocal` | external/ed25519-donna/ed25519-donna-batchverify.h:62-68 | the path of larger children depends only on the slots below its start, so it is the one of the heap before the call |
| `Heap.EvenSizesFail` | external/ed25519-donna/ed25519-donna-batchverify.h:50-77 | every even size from 4 has a heap that the repair leaves out of order |
| `Heap.BatchHeap.GetTop2` | external/ed25519-donna/ed25519-donna-batchverify.h:95-103 | two distinct indices, of a largest scalar and of a largest among the others |
| `BosCoster.SubtractionIsSound` | external/ed25519-donna/ed25519-donna-batchverify.h:182-182 | the truncated subtraction is subtraction of the scalars |
| `BosCoster.Step` | external/ed25519-donna/ed25519-donna-batchverify.h:182-184 | one subtraction: the scalar and the point change as stated, all others stay, and the heap is restored |
| `BosCoster.InvExtend` | external/ed25519-donna/ed25519-donna-batchverify.h:175-180 | extending keeps the invariant; it happens only if the input allows it |
| `BosCoster.ShrinkBound` | external/ed25519-donna/ed25519-donna-batchverify.h:171-173 | before the extension limbsize stays large enough for the 128-bit scalars, since a subtraction leaves at least half of the old maximum |
| `BosCoster.InvStep` | external/ed25519-donna/ed25519-donna-batchverify.h:164-185 | every turn keeps the sum of all terms, the common divisors, and the sum with any common divisor taken out, and the sum of the scalars strictly decreases |
| `BosCoster.ExitDecided` | external/ed25519-donna/ed25519-donna-batchverify.h:167-169 | at the exit all scalars in the heap but one are zero, and the heap was extended exactly when the input says so |
| `BosCoster.SurvivorIsGcd` | external/ed25519-donna/ed25519-donna-batchverify.h:164-187 | the scalar that is left has exactly the common divisors of the input scalars |
| `BosCoster.HeapStart` | external/ed25519-donna/ed25519-donna-batchverify.h:161-162 | the first heap has odd size, half of count or one more |
| `BosCoster.Reduce` | external/ed25519-donna/ed25519-donna-batchverify.h:155-185 | the loop ends for every input, in a state that satisfies the invariant |
| `BosCoster.FinalExactIff` | external/ed25519-donna/ed25519-donna-batchverify.h:106-148 | the returned multiple is the scalar exactly for 0, for 1, and for scalars with limb 4 equal to 1 and top bit 223 below it, where the bit that counts twice makes up for the limb that is not read |
| `BosCoster.Exponentiate` | external/ed25519-donna/ed25519-donna-batchverify.h:135-147 | the double-and-add loop started from the point counts the leading bit twice: (2^(k+1) + scalar) times the point |
| `BosCoster.Final` | external/ed25519-donna/ed25519-donna-batchverify.h:105-148 | the exact multiple that is returned, tied to the top set bit; the scan leaves the array exactly for scalars above 1 with nothing in limbs 0 to 3; the point is the wanted multiple exactly if the multiple that is too much vanishes |
| `BosCoster.FinalOfTwo` | external/ed25519-donna/ed25519-donna-batchverify.h:124-147 | for the scalar 2 the code returns 6 times the point, which is twice the point exactly if 4 times the point vanishes |
| `BosCoster.MultiScalarMult` | external/ed25519-donna/ed25519-donna-batchverify.h:150-188 | for every input: the gcd of the scalars in the heap and their sum with the gcd taken out are left; the point that the final step makes of them, tied to the top bit; exactly when the scan leaves the array, read off the input as well; and the point is the whole sum exactly if what is too much equals what the heap left out |
| `BosCoster.QuotientStep` | external/ed25519-donna/ed25519-donna-batchverify.h:182-183 | a step keeps the sum with a common divisor taken out |
| `BosCoster.LastTerm` | external/ed25519-donna/ed25519-donna-batchverify.h:164-187 | the last term read back to the input: its scalar is the gcd g and its point is the sum of the input terms with g taken out |
| `BosCoster.WholeSumIff` | external/ed25519-donna/ed25519-donna-batchverify.h:150-188 | a multiple of the last point is the whole sum exactly if its excess over g times the point is the sum of the terms left out |
| `BosCoster.ExtendedIff` | external/ed25519-donna/ed25519-donna-batchverify.h:150-188 | on an extended heap that is: g at most 1, or 2^(k+1) annihilates the last point |
| `BosCoster.Scannable` | external/ed25519-donna/ed25519-donna-batchverify.h:126-133 | after an extension the scan stays in the array, and coprime scalars give the whole sum |
| `BosCoster.StuckIff` | external/ed25519-donna/ed25519-donna-batchverify.h:126-128 | the scan leaves the array exactly if the scalars of the first heap are multiples of 2^224 and not all 0 |
| `BosCoster.LostTerm` | external/ed25519-donna/ed25519-donna-batchverify.h:167-180 | an input whose loop ends before the extension: the returned point is e0, and it is the sum exactly if the lost term vanishes |
| `BosCoster.ScanLeavesArray` | external/ed25519-donna/ed25519-donna-batchverify.h:126-128 | an input below the group order whose final scan leaves the array |
| `BosCoster.CoprimeSurvivor` | external/ed25519-donna/ed25519-donna-batchverify.h:112-115 | coprime scalars leave the scalar 1 |
| `BatchCheck.IsNeutral` | external/ed25519-donna/ed25519-donna-batchverify.h:193-202 | true exactly when the point stands for the neutral element |
| `BatchCheck.SumIsNeutral` | external/ed25519-donna/ed25519-donna-batchverify.h:249-250 | for every input: what the test decides, in terms of the returned multiple; with an extended heap, on a group of 8 L elements, it accepts exactly if the sum of all terms is neutral, whatever the scalars |
| `BatchCheck.SameVerdict` | external/ed25519-donna/ed25519-donna-batchverify.h:124-147 | the multiple with the doubled leading bit and the right multiple are neutral together, for every survivor below 2^128 |
| `BatchCheck.EightTorsion` | external/ed25519-donna/ed25519-donna-batchverify.h:193-202 | what a multiple below L annihilates is annihilated by 8 |
| `BatchTerms.BatchSum` | external/ed25519-donna/ed25519-donna-batchverify.h:219-249 | for all keys: the sum of the batch, together with [r_i h_i / L][L](-A_i) summed over the keys, is the sum of r_i ([S_i]B - [h_i]A_i - R_i) |
| `BatchTerms.NeutralIff` | external/ed25519-donna/ed25519-donna-batchverify.h:219-250 | the sum of the batch is neutral exactly if the weighted defects equal what the reduction modulo L took out |
| `BatchTerms.NoExcess` | external/ed25519-donna/ed25519-donna-batchverify.h:233-238 | under keys of order L the reduction takes nothing out |
| `BatchTerms.TorsionKey` | external/ed25519-donna/ed25519-donna-batchverify.h:233-250 | one signature without a defect, the factor 2, the hash (L + 1) / 2 and a key of order 2: the sum of the batch is the key and not neutral |
| `BatchTerms.VerifiedHasNoDefect` | external/ed25519-donna/ed25519-donna-batchverify.h:225-250 | a signature that single verification accepts has [S]B - [h]A - R = 0 |
| `BatchVerify.FillBase` | external/ed25519-donna/ed25519-donna-batchverify.h:225-231 | scalar 0 is the sum of r_i S_i modulo L, and the factors are untouched |
| `BatchVerify.FillKeys` | external/ed25519-donna/ed25519-donna-batchverify.h:233-238 | scalar i + 1 is r_i times the hash of R_i, A_i and m_i modulo L |
| `BatchVerify.FillPoints` | external/ed25519-donna/ed25519-donna-batchverify.h:240-247 | succeeds exactly if every key and every R decodes; then the points are B, the negatives of the keys' points and the negatives of the R points |
| `BatchVerify.DecodableIff` | external/ed25519-donna/ed25519-donna-batchverify.h:240-247 | a batch decodes exactly if every key and every R denotes a point |
| `BatchVerify.BatchTest` | external/ed25519-donna/ed25519-donna-batchverify.h:216-250 | for every batch: undecodable exactly if some string denotes no point; undefined exactly if it decodes and the scalars of its first heap are multiples of 2^224, not all 0; otherwise accepted exactly if the returned multiple of what survives is neutral, on both exits of the loop |
| `BatchVerify.ExtendedVerdict` | external/ed25519-donna/ed25519-donna-batchverify.h:176-180 | with an extended heap the test has a verdict, and on a group of 8 L elements it accepts exactly if the sum of the batch is neutral |
| `BatchVerify.AcceptIff` | external/ed25519-donna/ed25519-donna-batchverify.h:216-250 | such a batch is accepted exactly if the weighted defects of its signatures equal what the reduction modulo L took out, for all keys and signatures |
| `BatchVerify.VerifyingBatch` | external/ed25519-donna/ed25519-donna-batchverify.h:216-250 | if all signatures verify, it is accepted exactly if the reduction took nothing out |
| `BatchVerify.HonestBatch` | external/ed25519-donna/ed25519-donna-batchverify.h:216-250 | a batch of verifying signatures under keys of order L is accepted |
| `BatchVerify.TorsionBatch` | external/ed25519-donna/ed25519-donna-batchverify.h:216-250 | a batch of verifying signatures is rejected if its first key has order 2, r h = L + 1 and the other keys have order L |
| `BatchVerify.OpenEach` | external/ed25519-donna/ed25519-donna-batchverify.h:253-257 | the fallback reports each signature as single verification does and sets bit 0 for an invalid one |
| `BatchVerify.PartAt` | external/ed25519-donna/ed25519-donna-batchverify.h:214-217 | signature i of batch j is signature 64 j + i, and a batch has 64 signatures unless they end |
| `BatchVerify.SignOpenBatch` | external/ed25519-donna/ed25519-donna-batchverify.h:204-274 | defined exactly if no batch that decodes has a first heap of multiples of 2^224, not all 0; every batch is decided as the test decides; a signature is reported valid exactly if it verifies or its batch was accepted, so one that verifies is never reported invalid; bit 0 of the code tells of an invalid signature and bit 1 of a batch that failed its test |
| `Sha512.FoldAppend` | external/ed25519-donna/ed25519-hash.h:90-106 | compressing two runs of blocks one after the other is compressing their concatenation |
| `Sha512.Pad` | external/ed25519-donna/ed25519-hash.h:154-170 | the padding of section 5.1.2 of FIPS 180-4 fills whole blocks |
| `Sha512.PadLayout` | external/ed25519-donna/ed25519-hash.h:154-168 | the padded message is the message, a byte 0x80, the fewest zeros, and 16 bytes that spell 8 |m| modulo 2^128 |
| `Sha512.PadUnique` | external/ed25519-donna/ed25519-hash.h:154-168 | only one string is such a padding of a message |
| `Sha512.InitialWords` | external/ed25519-donna/ed25519-hash.h:110-117 | the initial words are the first 64 bits of the fractional parts of the square roots of the first eight primes (section 5.3.5 of FIPS 180-4) |
| `Sha512.BE64Value` | external/ed25519-donna/ed25519-hash.h:167-168 | eight stored bytes spell their 64-bit word, most significant byte first |
| `Sha512.DigestWords` | external/ed25519-donna/ed25519-hash.h:171-178 | bytes 8 i to 8 i + 7 of a digest spell word i of the chaining value |
| `Sha512.HashWords` | external/ed25519-donna/ed25519-hash.h:153-178 | bytes 8 i to 8 i + 7 of the hash spell word i of the chaining value after the padded message |
| `Sha512.CounterStep` | external/ed25519-donna/ed25519-hash.h:102-103 | adding 1024 with a carry into the second word keeps the 128-bit count exact |
| `Sha512.State.constructor` | external/ed25519-donna/ed25519-hash.h:108-121 | the initial state stands for the empty message |
| `Sha512.State.Blocks` | external/ed25519-donna/ed25519-hash.h:90-106 | the chaining value is the fold over the blocks and the counter advances by their bits |
| `Sha512.State.Update` | external/ed25519-donna/ed25519-hash.h:123-151 | for every way of cutting a message: the state is the fold over the complete blocks, the tail is in the buffer and the counter counts the blocks |
| `Sha512.State.TopUp` | external/ed25519-donna/ed25519-hash.h:127-138 | filling the buffer either ends the call or completes one block, which is compressed |
| `Sha512.State.FillPadding` | external/ed25519-donna/ed25519-hash.h:157-164 | both padding branches |
| `Sha512.PaddedBlocks` | external/ed25519-donna/ed25519-hash.h:157-168 | on both branches the last blocks are the end of the padded message |
| `Sha512.LengthWords` | external/ed25519-donna/ed25519-hash.h:155-155 | the two length words are the bit length modulo 2^128 |
| `Sha512.State.Final` | external/ed25519-donna/ed25519-hash.h:153-178 | the digest is the one-shot hash of the whole message |
| `Sha512.HashOnce` | external/ed25519-donna/ed25519-hash.h:180-186 | the one-shot call is the one-shot hash |
| `Signature.ExtSk` | external/ed25519-donna/ed25519.c:22-32 | byte 0 of the hash with its low three bits cleared, bytes 1 to 30 untouched, byte 31 with its top bit cleared and the next one set; as a number the first half is the clamped hash; the second half is untouched |
| `Signature.SecretBits` | external/ed25519-donna/ed25519.c:29-31 | the secret scalar is a multiple of 8 from 2^254 up to below 2^255, and its other bits are those of the hash |
| `Signature.PublicKey` | external/ed25519-donna/ed25519.c:44-55 | the encoding of [a]B, where a is the first half of the hash of the secret key with the low three bits and bit 255 cleared and bit 254 set |
| `Signature.Hram` | external/ed25519-donna/ed25519.c:34-42 | the hash of R, A and the message from three updates |
| `Signature.Sign` | external/ed25519-donna/ed25519.c:58-91 | R encodes [r]B, where r is the hash of the second half of the hashed secret key and the message, modulo L; and S = (r + h a) mod L, where h is the hash of R, the public key and the message |
| `Signature.TopBits` | external/ed25519-donna/ed25519.c:100-101 | the mask test passes exactly for S below 2^253 |
| `Signature.SignOpen` | external/ed25519-donna/ed25519.c:93-116 | returns 0 exactly when S is below 2^253 and [S]B = R + [h]A for the point R that the first half encodes, the point A that the key denotes and h the hash of the first half, the key and the message modulo L, and -1 otherwise, for all inputs |
| `Signature.VerifiesIff` | external/ed25519-donna/ed25519.c:93-116 | the predicate that the other statements use is that equation |
| `Signature.AcceptedIffEquation` | external/ed25519-donna/ed25519.c:107-115 | acceptance is the equation [S]B = R + [h]A of section 5.1.7 of RFC 8032 over the encoded R; the bound on S is the one of `Signature.SignOpen` and not the L of that section |
| `Signature.SameModuloOrder` | external/ed25519-donna/ed25519.c:100-115 | signatures with the same R whose S agree modulo L verify together, if both S are below 2^253 |
| `Signature.SecondForm` | external/ed25519-donna/ed25519.c:100-115 | a verifying signature with S + L below 2^253 verifies with S + L in place of S too |
| `Signature.SignedVerifies` | external/ed25519-donna/ed25519.c:58-116 | every signature made with a key verifies under its public key |
| `Signature.SignThenOpen` | external/ed25519-donna/ed25519.c:44-116 | deriving a key, signing and opening returns 0 for every secret key and message |
| `LaxDer.ParseCompact` | external/secp256k1/src/secp256k1.c:385-404 | both numbers if they are below the group order, as the word-by-word test decides, and zero otherwise |
| `LaxDer.CheckOverflow` | external/secp256k1/src/scalar_4x64_impl.h:62-72 | the comparison of four words from the top decides whether the number has reached the group order |
| `LaxDer.ReduceScalar` | external/secp256k1/src/scalar_4x64_impl.h:74-92 | adding 2^256 minus the order with carries is reduction modulo the order |
| `LaxDer.SetB32` | external/secp256k1/src/scalar_4x64_impl.h:144-156 | 32 bytes become their number modulo the order, with the overflow flag exactly from the order up |
| `LaxDer.SkipZeros` | external/secp256k1/contrib/lax_der_parsing.c:56-59 | removes exactly the leading zero bytes |
| `LaxDer.Accumulate` | external/secp256k1/contrib/lax_der_parsing.c:63-68 | at most seven bytes accumulate to their big-endian number without overflow |
| `LaxDer.LongForm` | external/secp256k1/contrib/lax_der_parsing.c:50-71 | every long form of a length below 2^56 is read, with any number of zeros before it and also where the short form would do |
| `LaxDer.ParseLength` | external/secp256k1/contrib/lax_der_parsing.c:46-71 | accepts exactly the lengths of the lax grammar, with every read inside the input |
| `LaxDer.ParseInteger` | external/secp256k1/contrib/lax_der_parsing.c:40-76 | accepts exactly the integers of the lax grammar and delimits their contents |
| `LaxDer.ParseHeader` | external/secp256k1/contrib/lax_der_parsing.c:21-38 | skips the sequence tag and its length bytes without interpreting them |
| `LaxDer.CopyField` | external/secp256k1/contrib/lax_der_parsing.c:115-137 | right-aligns a number below 2^256 in its half of the buffer and flags larger ones |
| `LaxDer.Parse` | external/secp256k1/contrib/lax_der_parsing.c:11-147 | succeeds exactly on the tag 0x30 with any length bytes, then twice the tag 2, a length field in any form and that many bytes, then anything; the signature is the two numbers if both are below the group order, and zero otherwise |
| `LaxDer.LaxIsAccepted` | external/secp256k1/contrib/lax_der_parsing.c:11-147 | everything of that form is accepted, with any contents, also empty or with the top bit set, and gives their numbers |
| `LaxDer.OnlyLaxIsAccepted` | external/secp256k1/contrib/lax_der_parsing.c:11-147 | whatever is accepted has that form |
| `LaxDer.ContentsIff` | external/secp256k1/contrib/lax_der_parsing.c:11-147 | both directions, with the contents fixed by the input |
| `LaxDer.StrictIsAccepted` | external/secp256k1/contrib/lax_der_parsing.c:11-147 | every strict DER encoding of a pair is accepted, also with bytes after it, and gives the pair back |
| `LaxDer.ContentsUnique` | external/secp256k1/src/ecdsa_impl.h:177-178 | the shortest two's-complement form of sections 8.3.2 and 8.3.3 of X.690 is unique |
| `LaxDer.TrimScalar` | external/secp256k1/src/ecdsa_impl.h:177-178 | trimming a 33-byte scalar leaves its DER integer contents |
| `LaxDer.DerLength` | external/secp256k1/src/ecdsa_impl.h:183-191 | a DER length is one byte below 128, or the count and the bytes of the length without a leading zero |
| `LaxDer.ContentsLayout` | external/secp256k1/src/ecdsa_impl.h:177-178 | the contents of an integer spell it, with a first bit of 0 and no byte that could be dropped |
| `LaxDer.StrictLayout` | external/secp256k1/src/ecdsa_impl.h:183-191 | a strict encoding is nested elements of tag, length and contents, with the length of the whole in front |
| `LaxDer.Serialize` | external/secp256k1/src/ecdsa_impl.h:171-193 | writes the strict DER encoding of the pair, byte by byte |
| `LaxDer.RoundTrip` | external/secp256k1/src/ecdsa_impl.h:171-193 | parsing what was serialized gives the pair back |

## Left out

- Field elements, points and scalars are values, so writing outputs in place and aliasing of an output with an operand are not captured; the recoded digits, the heap, the hash state and the DER buffer are updated in place as in the source.
- The 32-bit limb layouts (`curve25519-donna-32bit.h`, and `modm-donna-32bit.h` but for its batch helpers), which repeat the same arguments with more limbs.
- The SSE2 and inline-assembly variants.
- The contents of the precomputed tables: that each entry is the stated multiple is a hypothesis.
- The group law, the primality of p and L, Fermat's little theorem, the order of the group and of the base point: hypotheses.
- The SHA-512 round function: an arbitrary function of the chaining value and a block.
- The random factors of a batch are a parameter; how likely a batch with an invalid signature is to be accepted is probabilistic and not stated.
- `curved25519_scalarmult_basepoint` and `expand_raw256_modm`: key exchange is not part of signing.
- `curve25519_expand` on a big-endian machine: both branches load the same little-endian words, and one is modelled.
- The elliptic-curve arithmetic of secp256k1 and the private-key DER parser.
- The failing branch of the DER serializer, which reports the size that the buffer would need.
- Timing: constant-time code is modelled for what it computes.
- Modm.Add: stated for reduced operands, which is what every caller passes; the single conditional subtraction does not reduce larger sums.
- BaseMult.BaseScalarMult: stated for scalars below 2^255, where the last signed digit is at most 8 and the table has a row for it.
- BosCoster.MultiScalarMult: stated for counts from 5 up to the capacity of 129 and scalars below 2^128 in the second half, as the batch driver sets them up. An even count, which the driver never passes, is covered if the heap is not extended; an extended heap of even size need not stay in order (`Heap.EvenSizesFail`).
- BatchVerify.AcceptIff: stated for an extended heap; a batch whose heap is not extended is decided by the multiple that `BatchVerify.BatchTest` names, which leaves the terms of the second half out.
- LaxDer.StrictIsAccepted: stated for encodings below 2^56 bytes, since the parser accepts at most seven length bytes.
- LaxDer.Serialize: stated for a large enough output buffer.
