# IntXLib4CPP arbitrary-precision integers, modelled in Dafny

IntXLib4CPP is a C++ library of arbitrary-precision integers. An `IntX` keeps a sign and a magnitude. The magnitude is a vector of 32-bit limbs, least significant first, of which the first `length` carry the value. Every algorithm of the library works on runs of limbs, and this project models those algorithms and proves what they compute. The meaning of a run `s` is always `Limbs.Val(s) = s[0] + s[1]·2^32 + … + s[n-1]·2^(32(n-1))`.

The modules follow the library's files:

- `Limbs`, `Radix`, `BitOps` and `Errors` hold the shared vocabulary:
  - the value of a limb run;
  - positional notation in any base: `Horner` for digits read most significant first, `Eval` for digits stored least significant first, and `ToDigits` for the canonical digits;
  - bitwise AND, OR and XOR of naturals, defined bit by bit;
  - the exceptions as an `Error` value inside a `Result` or `Option`.
- `Bits`, `DigitHelper`, `DigitOpHelper` and `Constants` model the kernels and constants in `Bits.h`, `DigitHelper.h`, `DigitOpHelper.h` and `Constants.h`. The kernels are methods that write into arrays, and each loop is proved against `Val`.
- `BigInteger` is the `IntX` class, with its constructors, `Normalize` and the integer conversions. `OpHelper` and `IntXOperators` model the signed operations and the operators built on them.
- `ClassicMultiplier` and `MultiplierBase` model schoolbook multiplication.
- `DividerBase`, `ClassicDivider`, `NewtonHelper`, `AutoNewtonDivider` and `IntXDivider` model division:
  - the shared special cases;
  - Knuth's Algorithm D, from The Art of Computer Programming, Vol. 2, section 4.3.1;
  - the fixed-point Newton reciprocal, from section 4.3.3 of the same volume;
  - the signed, truncating division on top.
- `StrRepHelper`, `Parsers`, `ParserBase`, `ClassicParser` and `FastParser` model parsing: the alphabet checks, the front end, and the three strategies. Those are bit packing for power-of-two bases, Horner's rule, and pairwise merging.
- `StringConverterBase`, `Pow2StringConverter`, `ClassicStringConverter`, `FastStringConverter` and `StringConvertManager` model formatting.
- `DigitConverter`, `PcgRandom` and `MillerRabin` model the byte conversion, the PCG32 generator and the Miller–Rabin test.

Each kernel reads its operands as sequence snapshots of the limbs the source points at. It writes its result into an `array` at the offset the source uses. Every place where the library runs a kernel in place (divider, string converter, parser, Newton buffers) reads each cell before it writes it, so the snapshot reads compute the same thing. The one exception is the Newton round, whose buffer swap makes it read the previous estimate back; `NewtonHelper.NewtonRoundAsWritten` models that round as written and the Findings below say what it computes. Machine widths are written out where they matter: 64-bit carries and borrows, bit 63 as the borrow flag, two's-complement conversions and the PCG state modulo 2^64.

## Model

| member | source | states |
|---|---|---|
| Bits.Nlz | IntXLib/src/Bits.h:16-28 | the number of leading zero bits of a word is 32 minus its bit length, 32 for zero, and places the word between 2^(31-n) and 2^(32-n) |
| Bits.Msb | IntXLib/src/Bits.h:36-39 | -1 for zero, otherwise the r with 2^r <= x < 2^(r+1) (floor of log2) |
| Bits.CeilLog2 | IntXLib/src/Bits.h:46-54 | x <= 2^r and, unless r is 0, 2^(r-1) < x |
| Bits.CeilLog2Least | IntXLib/src/Bits.h:46-54 | CeilLog2(x) is the least k with x <= 2^k |
| Bits.CeilLog2VsMsb | IntXLib/src/Bits.h:48-53 | CeilLog2 equals Msb exactly for powers of two and is Msb + 1 otherwise |
| DigitHelper.GetRealDigitsLength | IntXLib/src/OpHelpers/DigitHelper.h:23-28 | the returned length cuts off exactly the zero limbs on top: trimmed prefix, all-zero rest, same value, equal to RealLength |
| DigitHelper.ToUInt32WithSign | IntXLib/src/OpHelpers/DigitHelper.h:36-42 | sign and magnitude of a 32-bit value, with -2^31 giving magnitude 2^31 |
| DigitHelper.ToUInt64WithSign | IntXLib/src/OpHelpers/DigitHelper.h:50-56 | sign and magnitude of a 64-bit value, with -2^63 giving magnitude 2^63 |
| DigitHelper.SetBlockDigits | IntXLib/src/OpHelpers/DigitHelper.h:64-67 | every limb of the block holds the value and no other cell changes |
| DigitHelper.DigitsBlockCopy | IntXLib/src/OpHelpers/DigitHelper.h:86-90 | the target window equals the first count source limbs and no other cell changes |
| Constants.FillBaseCharToDigits | IntXLib/src/Utils/Constants.h:19-29 | the standard dictionary: the upper-case hexadecimal alphabet for base 16, plus a-f for 10 to 15 |
| Constants.StandardDigits | IntXLib/src/Utils/Constants.h:19-29 | the standard dictionary accepts exactly 0-9, A-F and a-f, each with its hexadecimal value |
| Constants.StandardAlphabets | IntXLib/src/Utils/Constants.cpp:6-7 | the upper-case alphabet passes the alphabet check for base 16 and the two alphabets share their first ten characters |
| StrRepHelper.GetDigit | IntXLib/src/OpHelpers/StrRepHelper.h:28-53 | ArgumentNull for an empty dictionary, Format for an unknown character or a digit not below the base, otherwise the digit the dictionary gives |
| StrRepHelper.SortChars | IntXLib/src/OpHelpers/StrRepHelper.h:76-91 | the insertion sort leaves the characters sorted and a permutation of the input |
| StrRepHelper.AssertAlphabet | IntXLib/src/OpHelpers/StrRepHelper.h:60-102 | the error is exactly AlphabetError: ArgumentNull when empty, Argument when shorter than the base or when a character repeats |
| StrRepHelper.DistinctMultiset | IntXLib/src/OpHelpers/StrRepHelper.h:95-101 | a string has no repeated character exactly when each character occurs once in its multiset, so neighbours of the sorted copy decide it |
| StrRepHelper.CharDictionaryFromAlphabet | IntXLib/src/OpHelpers/StrRepHelper.h:110-121 | fails exactly as the alphabet check does; otherwise maps the first numberBase characters to their positions and nothing else |
| StrRepHelper.GetDigitOfAlphabet | IntXLib/src/OpHelpers/StrRepHelper.h:28-53 | a character of a checked alphabet is read back as its position |
| DigitOpHelper.Add | IntXLib/src/OpHelpers/DigitOpHelper.h:27-69 | the sum limbs are worth Val(a) + Val(b); the length is the longer operand's plus one exactly when a carry is left, and that top limb is 1 |
| DigitOpHelper.AddOrdered | IntXLib/src/OpHelpers/DigitOpHelper.h:27-69 | adding with the operands in either order gives the same value and length |
| DigitOpHelper.CarryIffOverflow | IntXLib/src/OpHelpers/DigitOpHelper.h:60-66 | a final carry is left exactly when the sum does not fit in the longer operand's limbs |
| DigitOpHelper.Sub | IntXLib/src/OpHelpers/DigitOpHelper.h:80-104 | for any a at least as long as b, the difference limbs are worth (Val(a) - Val(b)) mod BASE^\|a\|, which is Val(a) - Val(b) exactly when Val(a) >= Val(b); the returned length is trimmed, the cut-off limbs being zero |
| DigitOpHelper.WrappedDifference | IntXLib/src/OpHelpers/DigitOpHelper.h:88-101 | limbs that with the final borrow weighted BASE^\|a\| make up Val(a) - Val(b) are worth that difference modulo BASE^\|a\|, and the difference itself when Val(a) >= Val(b) |
| DigitOpHelper.DivMod | IntXLib/src/OpHelpers/DigitOpHelper.h:116-133 | the quotient limbs are worth Val(a) / d and the remainder is Val(a) % d; the length drops by one exactly when the top quotient limb is zero |
| DigitOpHelper.Mod | IntXLib/src/OpHelpers/DigitOpHelper.h:143-156 | the remainder of the division by a one-limb divisor, with nothing written |
| DigitOpHelper.CmpLen | IntXLib/src/OpHelpers/DigitOpHelper.h:190-195 | -2 exactly for equal non-zero lengths, otherwise the sign of the length difference |
| DigitOpHelper.Cmp | IntXLib/src/OpHelpers/DigitOpHelper.h:167-182 | by length first; for equal lengths, and for any two trimmed runs, the sign of Val(a) - Val(b) |
| DigitOpHelper.Shr | IntXLib/src/OpHelpers/DigitOpHelper.h:275-319 | the result is worth floor(Val(src) / 2^s), drops the top limb exactly when it becomes zero, stays trimmed, and with an offset also writes src[0] << (32 - s) below it so that the run is worth Val(src) 2^(32-s) |
| DigitOpHelper.ShrAt | IntXLib/src/OpHelpers/DigitOpHelper.h:206-218 | the shift of a window of the limbs, with the low bits kept below exactly when the result offset is not zero |
| DigitOpHelper.BitwiseOr | IntXLib/src/OpHelpers/DigitOpHelper.h:329-342 | the result over the longer length is the bitwise OR of the two values |
| DigitOpHelper.BitwiseAnd | IntXLib/src/OpHelpers/DigitOpHelper.h:352-365 | the result is the bitwise AND of the two values over the common length, at its real length |
| DigitOpHelper.ExclusiveOr | IntXLib/src/OpHelpers/DigitOpHelper.h:376-391 | the result is the bitwise XOR of the two values, at its real length |
| DigitOpHelper.OnesComplement | IntXLib/src/OpHelpers/DigitOpHelper.h:400-411 | the result is BASE^n - 1 - Val(a), at its real length |
| BitOps.ValLimbwise | IntXLib/src/OpHelpers/DigitOpHelper.h:329-411 | a limb-by-limb operation on equal-length runs is the same operation on the numbers they denote, as defined bit by bit |
| BitOps.ValLimbNot | IntXLib/src/OpHelpers/DigitOpHelper.h:400-411 | complementing every limb of n limbs is subtracting from 2^(32n) - 1 |
| BitOps.ValBitwiseTail | IntXLib/src/OpHelpers/DigitOpHelper.h:329-391 | copying the longer operand's tail gives the OR and the XOR of the whole values, and a zero tail gives the AND |
| BitOps.BitwiseSymmetric | IntXLib/src/OpHelpers/OpHelper.h:1242-1349 | OR, AND and XOR do not depend on the order of their operands, so passing the longer operand first changes nothing |
| BitOps.AndLe | IntXLib/src/OpHelpers/DigitOpHelper.h:352-365 | AND is at most either operand, so the shorter length is enough for it |
| BitOps.XorInvolution | IntXLib/src/OpHelpers/DigitOpHelper.h:376-391 | XOR with the same value twice gives the value back |
| BigInteger.IntX.constructor | IntXLib/src/IntX.h:63 | the default number is zero: no limbs, not negative |
| BigInteger.IntX.FromInt32 | IntXLib/src/IntX.cpp:27-43 | the value is the argument; zero has no limbs and anything else one limb holding the magnitude |
| BigInteger.IntX.FromUInt32 | IntXLib/src/IntX.cpp:45-59 | the value is the argument, never negative |
| BigInteger.IntX.FromInt64 | IntXLib/src/IntX.cpp:61-75 | the value is the argument, with one limb when the magnitude fits in 32 bits and two otherwise |
| BigInteger.IntX.FromUInt64 | IntXLib/src/IntX.cpp:77-101 | the value is the argument, with one or two limbs by the high word |
| BigInteger.IntX.Copy | IntXLib/src/IntX.cpp:149-152 | the copy has the same storage, length and sign |
| BigInteger.IntX.FromDigits | IntXLib/src/IntX.h:142-145 | every limb of the vector counts, zero limbs on top included, and the sign holds only for a non-empty vector |
| BigInteger.IntX.FromDigitsLength | IntXLib/src/IntX.cpp:161-175 | only the first len limbs count, and the sign holds only for a non-zero length |
| BigInteger.IntX.WithLength | IntXLib/src/IntX.cpp:154-159 | len zero limbs with the given sign |
| BigInteger.IntX.Normalize | IntXLib/src/IntX.cpp:375-390 | the storage is cut to the length, a zero-length number loses its sign, and the value does not change |
| BigInteger.IntX.TryNormalize | IntXLib/src/Settings/IntXGlobalSettings.h:78 | normalises only when automatic normalisation is on, which it is not by default; the value never changes |
| BigInteger.IntX.IsZero | IntXLib/src/IntX.cpp:416-419 | zero exactly when the magnitude has no limbs, and for a normal number exactly when the value is 0 |
| BigInteger.IntX.IsOdd | IntXLib/src/IntX.h:190-193 | odd exactly when the value is odd |
| BigInteger.IntX.GetHashCode | IntXLib/src/IntX.cpp:680-691 | 0 for a zero length; otherwise the XOR of the lowest limb, the top limb, the length and the sign bit, cast to int |
| BigInteger.HashSignBit | IntXLib/src/IntX.cpp:680-691 | negating a non-zero number flips the lowest bit of its hash |
| BigInteger.IntX.ToUInt32 | IntXLib/src/IntX.cpp:1901-1905 | the magnitude modulo 2^32 |
| BigInteger.IntX.ToUInt64 | IntXLib/src/IntX.cpp:1919-1927 | the magnitude modulo 2^64 |
| BigInteger.IntX.ToUInt16 | IntXLib/src/IntX.cpp:1929-1932 | the magnitude modulo 2^16 |
| BigInteger.IntX.ToInt32 | IntXLib/src/IntX.cpp:1890-1894 | congruent to the value modulo 2^32, and equal to it whenever it fits in 32 signed bits |
| BigInteger.IntX.ToInt64 | IntXLib/src/IntX.cpp:1907-1911 | congruent to the value modulo 2^64, and equal to it whenever it fits in 64 signed bits |
| BigInteger.IntX.Plus | IntXLib/src/IntX.cpp:1526-1529 | a copy with the same state and value |
| BigInteger.IntX.Negate | IntXLib/src/IntX.cpp:1537-1544 | the number itself is negated (its sign flips unless its length is zero) and a copy of it is returned |
| BigInteger.ReferenceEquals | IntXLib/src/IntX.h:1202 | two copies of one state are the same object, and the same objects have the same value |
| BigInteger.SignedMul | IntXLib/src/Multipliers/MultiplierBase.h:47 | the sign of a product is the XOR of the operand signs |
| OpHelper.GetMinMaxLengthObjects | IntXLib/src/OpHelpers/OpHelper.h:37-49 | copies of the operands with the shorter one first, int2 counting as the shorter on equal lengths |
| OpHelper.Add | IntXLib/src/OpHelpers/OpHelper.h:58-95 | fails with Argument exactly when both operands have limbs and the longer has MaxIntValue of them; otherwise the magnitude is the sum of the magnitudes with int1's sign |
| OpHelper.Sub | IntXLib/src/OpHelpers/OpHelper.h:103-140 | for any valid operands: -\|int2\| for a zero-length int1, int1 for a zero-length int2, otherwise the difference of the magnitudes ordered by the length-first comparison (wrapping modulo BASE^len when a zero top limb misorders them) with the sign it picks, at its real length; for normal operands exactly int1 - int2 |
| OpHelper.DifferenceOfTrimmed | IntXLib/src/OpHelpers/OpHelper.h:109-134 | for trimmed magnitudes the length-first ordering is the order of the values, so the difference Sub computes is the true signed difference |
| OpHelper.AddSubValueExact | IntXLib/src/OpHelpers/OpHelper.h:151-155 | for trimmed magnitudes and no signed zero in front, what AddSub computes is int1 + int2 or int1 - int2 |
| OpHelper.AddSub | IntXLib/src/OpHelpers/OpHelper.h:151-155 | for any valid operands: fails exactly when an addition of magnitudes hits the length limit; otherwise the sum of the magnitudes when the signs call for it, else Sub's length-first difference; exactly the sum (or difference) for normal operands, except a zero int1 with its sign set, which gives -\|int2\| |
| OpHelper.AddSubNormalized | IntXLib/src/OpHelpers/OpHelper.h:151-155 | for any valid operands, once both are cut to their real length and a zero has lost its sign: a normal number worth exactly the sum (or difference) |
| OpHelper.Trim | IntXLib/src/OpHelpers/DigitHelper.h:23-28 | GetRealDigitsLength and Normalize give a normal copy of the same value, no longer, with no signed zero |
| OpHelper.UntrimmedAddSub | IntXLib/src/OpHelpers/OpHelper.h:112-134 | the vector {5, 0} is a valid, untrimmed 5; AddSub gives 2^64 - 2 for 5 - 7, and the normalised version -2 |
| OpHelper.MinusOneAndMinusTwo | IntXLib/src/OpHelpers/OpHelper.h:1282-1309 | -1 AND -2 is a normal zero that keeps its negative sign |
| OpHelper.NegativeZeroAddSub | IntXLib/src/OpHelpers/OpHelper.h:1282-1309 | -1 AND -2 is a zero with its sign set, and AddSub gives -3 for it plus 3 where the normalised version gives 3 |
| OpHelper.Cmp | IntXLib/src/OpHelpers/OpHelper.h:1086-1106 | for normal numbers, -1, 0 or 1 as the sign of int1 - int2 |
| OpHelper.CmpInt32 | IntXLib/src/OpHelpers/OpHelper.h:1115-1132 | for any valid int1 and 32-bit signed int2: the sign of int1 - int2 when int1 is normal, has no limbs or one limb against a non-zero int2; int1's sign when it has limbs and int2 is 0 or it has more than one limb |
| OpHelper.CmpUInt32 | IntXLib/src/OpHelpers/OpHelper.h:1142-1152 | the same for a 32-bit unsigned int2: exact for normal int1, and for a non-zero int2 when int1 has at most one limb or is negative; int1's sign when it has limbs and int2 is 0 or it has more than one limb |
| OpHelper.Max | IntXLib/src/OpHelpers/OpHelper.h:664-670 | for normal numbers, a copy of the larger value |
| OpHelper.Min | IntXLib/src/OpHelpers/OpHelper.h:678-684 | for normal numbers, a copy of the smaller value |
| OpHelper.AbsoluteValue | IntXLib/src/OpHelpers/OpHelper.h:336-342 | the absolute value, with the sign cleared for a number with limbs |
| OpHelper.Pow | IntXLib/src/OpHelpers/OpHelper.h:165-203 | value^power by square-and-multiply; fails only when a product would exceed the length limit, never for power <= 1 or a zero value |
| OpHelper.BitwiseOr | IntXLib/src/OpHelpers/OpHelper.h:1242-1274 | the magnitude is the OR of the magnitudes; a zero-length operand gives a copy of the other; otherwise negative when either operand is |
| OpHelper.BitwiseAnd | IntXLib/src/OpHelpers/OpHelper.h:1282-1309 | the magnitude is the AND of the magnitudes, trimmed, negative when both operands have limbs and are negative |
| OpHelper.ExclusiveOr | IntXLib/src/OpHelpers/OpHelper.h:1317-1349 | the magnitude is the XOR of the magnitudes; a zero-length operand gives a copy of the other; otherwise negative when exactly one operand is |
| OpHelper.OnesComplement | IntXLib/src/OpHelpers/OpHelper.h:1356-1377 | every bit of the limbs flipped: magnitude BASE^length - 1 - \|value\|, sign flipped; zero stays zero |
| OpHelper.Sh | IntXLib/src/OpHelpers/OpHelper.h:1163-1234 | fails with Argument exactly when a left shift would give more than MaxBitCount bits; otherwise the magnitude shifted by the count in the direction toLeft and the sign of the count decide, negative only when not zero |
| OpHelper.ShiftRoundTrip | IntXLib/src/OpHelpers/OpHelper.h:1163-1234 | shifting left and then right by the same count gives the magnitude back |
| IntXOperators.Equals | IntXLib/src/IntX.cpp:817-820 | for normal numbers, true exactly when the values are equal |
| IntXOperators.NotEquals | IntXLib/src/IntX.cpp:834-837 | for normal numbers, true exactly when the values differ |
| IntXOperators.Greater | IntXLib/src/IntX.cpp:851-854 | for normal numbers, true exactly when int1 > int2 |
| IntXOperators.GreaterOrEqual | IntXLib/src/IntX.cpp:868-871 | for normal numbers, true exactly when int1 >= int2 |
| IntXOperators.Less | IntXLib/src/IntX.cpp:884-887 | for normal numbers, true exactly when int1 < int2 |
| IntXOperators.LessOrEqual | IntXLib/src/IntX.cpp:901-904 | for normal numbers, true exactly when int1 <= int2 |
| IntXOperators.Add | IntXLib/src/IntX.cpp:911-914 | for any valid operands, what AddSub computes: the sum for normal operands, except that a zero int1 with its sign set gives -\|int2\| |
| IntXOperators.Subtract | IntXLib/src/IntX.cpp:1003-1006 | for any valid operands, what AddSub computes for a subtraction: the difference for normal operands, with the same negative-zero exception |
| IntXOperators.AddAssign | IntXLib/src/IntX.cpp:953-957 | x takes the state of AddSub's result for any valid operands, and a copy of it is returned; on failure x is unchanged |
| IntXOperators.PreIncrement | IntXLib/src/IntX.cpp:1552-1556 | x becomes AddSub of x and 1 for any valid x: x + 1 when normal (-1 for a zero with its sign set); the new value is returned |
| IntXOperators.PostIncrement | IntXLib/src/IntX.cpp:1559-1564 | x becomes AddSub of x and 1 for any valid x, x + 1 when normal, and a copy of the old value is returned |
| IntXOperators.PreDecrement | IntXLib/src/IntX.cpp:1572-1576 | x becomes AddSub of x and -1 for any valid x, x - 1 when normal, and the new value is returned |
| IntXOperators.PostDecrement | IntXLib/src/IntX.cpp:1579-1584 | x becomes AddSub of x and -1 for any valid x, x - 1 when normal, and a copy of the old value is returned |
| ClassicMultiplier.Multiply | IntXLib/src/Multipliers/ClassicMultiplier.h:31-82 | the first len1 + len2 result limbs are worth Val(a) Val(b) whichever operand is longer; the length drops by one exactly when the top written limb is zero, and for trimmed operands the result is trimmed |
| ClassicMultiplier.MultiplyOrdered | IntXLib/src/Multipliers/ClassicMultiplier.h:38-81 | with the longer operand in the inner loop and the limbs above it zero on entry, the result is the product |
| ClassicMultiplier.ProductLength | IntXLib/src/Multipliers/ClassicMultiplier.h:75-81 | for non-empty trimmed operands the returned length is the product's real length |
| MultiplierBase.Multiply | IntXLib/src/Multipliers/MultiplierBase.h:34-56 | fails with Argument exactly when both operands have limbs and their lengths add up to 2^32 or more; otherwise the value is the product, zero for a zero operand, and the sign is the XOR of the signs |
| DividerBase.DivModSpecial | IntXLib/src/Dividers/DividerBase.h:186-303 | returns the sentinel MaxUInt32Value exactly when no special case applies, writing nothing then; otherwise the requested quotient and remainder are Val(a) / Val(b) and Val(a) % Val(b), trimmed |
| ClassicDivider.EstimateDigit | IntXLib/src/Dividers/ClassicDivider.h:147-168 | the trial digit is a limb, its product with the divisor's top two limbs does not exceed the top three window limbs, and one more would unless it is BASE - 1 |
| ClassicDivider.TrialNotBelow | IntXLib/src/Dividers/ClassicDivider.h:147-168 | the trial digit is never below the true quotient digit |
| ClassicDivider.TrialNotAbove | IntXLib/src/Dividers/ClassicDivider.h:147-168 | with the divisor normalised, the trial digit is at most one above the true digit |
| ClassicDivider.TrialDigit | IntXLib/src/Dividers/ClassicDivider.h:140-168 | the estimate is the true digit of the window or one more |
| ClassicDivider.SubtractAndCorrect | IntXLib/src/Dividers/ClassicDivider.h:171-207 | after the multiply-subtract and at most one add-back, the digit is the true digit and the window holds the remainder |
| ClassicDivider.Normalize | IntXLib/src/Dividers/ClassicDivider.h:101-119 | both operands shifted left by 31 - Msb(top divisor limb) bits, so the divisor's top bit is set, values scaled by 2^shift |
| ClassicDivider.KnuthResult | IntXLib/src/Dividers/ClassicDivider.h:222-225 | the division of the scaled operands gives the true quotient, and its remainder shifted back is the true remainder |
| ClassicDivider.DivModGeneral | IntXLib/src/Dividers/ClassicDivider.h:70-230 | when no special case applies, the quotient (if requested) and the remainder are Val(a) / Val(b) and Val(a) % Val(b), trimmed, and the quotient length is 0 when it is not requested |
| ClassicDivider.DivMod | IntXLib/src/Dividers/ClassicDivider.h:70-230 | the special cases and then Knuth's algorithm: the requested quotient and remainder are Val(a) / Val(b) and Val(a) % Val(b), trimmed |
| ClassicDivider.DivModBuffers | IntXLib/src/Dividers/ClassicDivider.h:20-54 | an empty first buffer is replaced by a zeroed one of len1 + 1 limbs, and the division is as DivMod's |
| NewtonHelper.NormalizedDivisor | IntXLib/src/OpHelpers/NewtonHelper.h:52-62 | the divisor shifted so that its top limb's most significant bit is bit 2 |
| NewtonHelper.InitialEstimate | IntXLib/src/OpHelpers/NewtonHelper.h:97-98 | the first estimate 32 / top limb satisfies the round invariant 0 < z <= 2 and z v' < 2 |
| NewtonHelper.RoundStep | IntXLib/src/OpHelpers/NewtonHelper.h:116-216 | one Newton round z' = 2z - z^2 v' in fixed point keeps that invariant at the next precision |
| NewtonHelper.OppositeFits | IntXLib/src/OpHelpers/NewtonHelper.h:66-78 | the final estimate fits the result buffer of 2^(CeilLog2(maxLength) + 1) limbs |
| NewtonHelper.GetIntegerOpposite | IntXLib/src/OpHelpers/NewtonHelper.h:37-219 | with the intended round: rightShift is the divisor's bit length plus 2^(CeilLog2(maxLength) + 5) + 1; the result is the estimate of the last of CeilLog2(maxLength) + 5 rounds, keeps the round invariant, and fits its buffer |
| AutoNewtonDivider.OneCorrection | IntXLib/src/Dividers/AutoNewtonDivider.h:232-245 | an estimate that is the quotient or one above: when q b overshoots a, q - 1 is the quotient and q b - b its product with b |
| AutoNewtonDivider.LostBit | IntXLib/src/Dividers/AutoNewtonDivider.h:202-228 | the bit the source reads from the product's limbs is bit rightShift - 1 of the product |
| AutoNewtonDivider.RoundedQuotient | IntXLib/src/Dividers/AutoNewtonDivider.h:194-228 | the product of the opposite and the dividend shifted right by rightShift bits, plus the highest bit shifted out, trimmed |
| AutoNewtonDivider.Correct | IntXLib/src/Dividers/AutoNewtonDivider.h:232-248 | from an estimate that is the quotient or one above, the quotient and its product with the divisor, each decremented at most once |
| AutoNewtonDivider.NewtonDivMod | IntXLib/src/Dividers/AutoNewtonDivider.h:171-263 | the Newton path: under the accuracy hypothesis, the requested quotient and the remainder a - q b are Val(a) / Val(b) and Val(a) % Val(b); the quotient length is 0 when not requested |
| AutoNewtonDivider.WriteRemainder | IntXLib/src/Dividers/AutoNewtonDivider.h:249-253 | subtracting the product (a / b) b from a leaves Val(a) % Val(b), trimmed |
| AutoNewtonDivider.WriteQuotient | IntXLib/src/Dividers/AutoNewtonDivider.h:255-259 | the quotient fits the result buffer and is copied there whole and trimmed |
| AutoNewtonDivider.DivMod | IntXLib/src/Dividers/AutoNewtonDivider.h:132-266 | the classic divider when either length is outside [8192, 67108864], otherwise the special cases and then the Newton path; the requested quotient and remainder are the true ones |
| AutoNewtonDivider.DivModBuffers | IntXLib/src/Dividers/AutoNewtonDivider.h:71-115 | the classic overload outside the Newton window; inside it an empty first buffer is replaced by one of len1 + 1 limbs |
| IntXDivider.DivMod | IntXLib/src/Dividers/DividerBase.h:37-127 | fails with DivideByZero exactly for a zero divisor (0 / 0 included); otherwise the requested results are the truncating quotient and remainder, the remainder taking the dividend's sign, which stays set on a zero remainder unless normalisation is on |
| IntXDivider.QuotientRemainder | IntXLib/src/Dividers/DividerBase.h:64-93 | the quotient with the XOR of the signs and the remainder with the dividend's sign form a truncating division: a = q b + r, \|r\| < \|b\|, r of a's sign |
| IntXDivider.TruncatedIsQuotient | IntXLib/src/Dividers/DividerBase.h:64-93 | a truncating division has only that quotient and remainder |
| IntXDivider.SignedQuotient | IntXLib/src/Dividers/DividerBase.h:64-93 | dividing magnitudes and putting the signs back gives Quotient and Remainder |
| IntXDivider.Divide | IntXLib/src/IntX.cpp:718-722 | DivideByZero exactly for a zero divisor, otherwise the truncating quotient |
| IntXDivider.Modulo | IntXLib/src/IntX.cpp:731-736 | DivideByZero exactly for a zero divisor, otherwise the truncating remainder, e.g. -16 % 5 = -1 |
| IntXDivider.DivideModulo | IntXLib/src/IntX.cpp:760-763 | DivideByZero exactly for a zero divisor, otherwise a truncating division pair |
| IntXDivider.DivModNormalized | IntXLib/src/Dividers/DividerBase.h:37-127 | the division with both results normalised: the same values, and no zero carries a sign |
| IntXDivider.MinusTenModFive | IntXLib/src/Dividers/DividerBase.h:93-121 | -10 % 5 is a zero that keeps the dividend's sign unless normalised |
| IntXDivider.NegativeZeroRemainder | IntXLib/src/Dividers/DividerBase.h:93-121 | the zero of -10 % 5 plus 3 gives -3 as the library runs, and 3 once normalised |
| Parsers.DigitsOf | IntXLib/src/Parsers/ClassicParser.h:49-51 | the digit of every character in order, each below the base; the first character that is not a digit of the base decides the error, a format error |
| Parsers.DigitsOfPrefixFails | IntXLib/src/Parsers/ClassicParser.h:49-51 | once a prefix holds a bad character, the whole range fails with that character's error |
| Parsers.DigitsOfStops | IntXLib/src/Parsers/ClassicParser.h:49-51 | a character that is not a digit of the base after good ones fails the range with its own error |
| Parsers.DigitsOfGoesOn | IntXLib/src/Parsers/ClassicParser.h:49-71 | a good character extends the digits, and their value becomes h b + d |
| Parsers.ReadDigit | IntXLib/src/Parsers/ClassicParser.h:51 | the digit is GetDigit's; a failure there fails the whole range, a success advances the Horner value by one step |
| Parsers.ReadDigitOf | IntXLib/src/Parsers/FastParser.h:87 | the digit is GetDigit's; a failure fails the whole range, a success appends the digit |
| Parsers.HornerSnoc | IntXLib/src/Parsers/ClassicParser.h:62-71 | one more digit multiplies the value by the base and adds it |
| Parsers.RangeDigits | IntXLib/src/Parsers/ParserBase.h:170-175 | the digits of value[startIndex..endIndex], one per character |
| Parsers.Pow2Parse | IntXLib/src/Parsers/Pow2Parser.h:42-97 | fails exactly as the digits of the range do; otherwise the ceil(n k / 32) limbs, one fewer when the top one is zero, hold the Horner value, with nothing above |
| Parsers.Pow2Fill | IntXLib/src/Parsers/Pow2Parser.h:60-89 | the character loop leaves the Horner value of the digits in the buffer, and nothing above digitsLength |
| Parsers.PlaceNext | IntXLib/src/Parsers/Pow2Parser.h:64-88 | one character moves the value so far up by k bits and puts its digit in the k bits freed below |
| Parsers.PlaceDigit | IntXLib/src/Parsers/Pow2Parser.h:66-88 | the digit is added at the bit position k below the previous one, within one limb or split over two, with nothing else changed |
| Parsers.PlaceWithin | IntXLib/src/Parsers/Pow2Parser.h:81 | OR-ing the digit shifted left into a limb with clear bits adds digit 2^(32 j + s) |
| Parsers.PlaceSplit | IntXLib/src/Parsers/Pow2Parser.h:81-88 | the right-shifted top bits in limb j + 1 and the left-shifted low bits in limb j add digit 2^(32 j + 32 - t) |
| Parsers.Pow2LeadingTrimmed | IntXLib/src/Parsers/Pow2Parser.h:91-96 | with a non-zero leading digit the returned length leaves no zero limb on top |
| Parsers.ParseRange | IntXLib/src/Parsers/ParserBase.h:170-175 | a power-of-two base goes to the bit packer, any other base returns 0 and leaves the buffer alone |
| ParserBase.SkipChar | IntXLib/src/Parsers/ParserBase.h:68 | the first index from i on that does not hold c, every character skipped being c |
| ParserBase.TrimEnd | IntXLib/src/Parsers/ParserBase.h:70 | the last index not holding a blank, every character dropped being a blank |
| ParserBase.ReadLead | IntXLib/src/Parsers/ParserBase.h:73-131 | a format error exactly for a leading '$' or '0' without checkFormat; negative exactly for '-'; a prefix consumes at most two characters and can only select base 8 or 16, and only with checkFormat |
| ParserBase.Front | IntXLib/src/Parsers/ParserBase.h:66-143 | only format errors; on success the digits start with no '0' and end with no blank |
| ParserBase.ParseValue | IntXLib/src/Parsers/ParserBase.h:51-157 | ArgumentNull exactly for an empty string or dictionary, Argument exactly for a base below 2 or beyond the dictionary, and otherwise only format errors |
| ParserBase.DigitsLength | IntXLib/src/Parsers/ParserBase.h:149-150 | the limbs reserved hold any n digits of the base and never exceed n |
| ParserBase.Parse | IntXLib/src/Parsers/ParserBase.h:51-157 | the IntX has ParseValue's value, or ParseValue's error; with a dictionary in which only '0' is zero the result is normalised and a set sign means a negative value |
| ParserBase.FindDigits | IntXLib/src/Parsers/ParserBase.h:66-143 | the loops of the front end compute Front |
| ParserBase.TrimBlanks | IntXLib/src/Parsers/ParserBase.h:68-70 | the two loops compute SkipChar and TrimEnd over the blanks |
| ParserBase.ReadPrefix | IntXLib/src/Parsers/ParserBase.h:73-131 | the sign and prefix branches compute ReadLead |
| ParserBase.SkipZeros | IntXLib/src/Parsers/ParserBase.h:143 | the loop computes SkipChar over '0' |
| ParserBase.ParseDigits | IntXLib/src/Parsers/ParserBase.h:148-156 | fails as the range's digits do; otherwise an IntX with the sign whose magnitude is their Horner value, normalised unless a power-of-two base leaves a zero leading digit |
| ParserBase.LeadingDigit | IntXLib/src/Parsers/ParserBase.h:143 | after the '0' characters are skipped the first digit and the value are non-zero |
| ParserBase.ParseBlanks | IntXLib.Test/src/ParseTest.h:16-20 | "  7 " parses to 7 |
| ParserBase.ParseSigns | IntXLib.Test/src/ParseTest.h:22-28 | "-7" parses to -7 and "+7" to 7 |
| ParserBase.ParseArgumentErrors | IntXLib/src/Parsers/ParserBase.h:53-64 | the empty string and empty dictionary give ArgumentNull, bases 1 and 23 give Argument |
| ParserBase.ParseZeros | IntXLib.Test/src/ParseTest.h:10-14 | "0" parses to 0; without checkFormat "0" and "$f" are format errors and "-0" is 0 |
| ParserBase.ParseNoDigits | IntXLib/src/Parsers/ParserBase.h:137-140 | "-", "0x" and blanks alone are format errors |
| ParserBase.ParseBadDigits | IntXLib.Test/src/ParseTest.h:84-112 | "abc" in base 10 and "987" in base 2 are format errors |
| ParserBase.ParseOctal | IntXLib.Test/src/ParseTest.h:38-39 | "0100" is octal 64 |
| ParserBase.ParseTrailingSign | IntXLib.Test/src/ParseTest.h:69-82 | "-123-" is a format error |
| ClassicParser.Parse | IntXLib/src/Parsers/ClassicParser.h:39-78 | fails exactly when a character is not a digit of the base; otherwise the limbs hold the Horner value of the digits, trimmed except where a power-of-two base leaves a zero on top |
| ClassicParser.BigCycle | IntXLib/src/Parsers/ClassicParser.h:44-75 | the loop keeps the trimmed limbs of the Horner value of the digits read so far |
| ClassicParser.HornerStep | IntXLib/src/Parsers/ClassicParser.h:51-72 | the trimmed limbs of h become the trimmed limbs of h b + d |
| ClassicParser.MulAddDigits | IntXLib/src/Parsers/ClassicParser.h:62-67 | the limbs times the base plus the digit: the new limbs plus the carry above them, limbs above n unchanged |
| FastParser.Parse | IntXLib/src/Parsers/FastParser.h:49-181 | the power-of-two bases and buffers outside [32, 2^32 - 1] limbs go to the other parsers; in every case it fails exactly as the digits do and otherwise yields their Horner value |
| FastParser.MergeParse | IntXLib/src/Parsers/FastParser.h:63-180 | the divide-and-conquer path: fails as the digits do, otherwise the trimmed limbs of their Horner value |
| FastParser.FirstBuffers | IntXLib/src/Parsers/FastParser.h:63-94 | the digits reversed and zero-padded to a power-of-two count, each slot of width 1 holding one digit and its length |
| FastParser.ReadDigits | IntXLib/src/Parsers/FastParser.h:84-91 | the digit of character k goes to slot n - 1 - k and its length, 0 or 1, beside it |
| FastParser.MergeAll | IntXLib/src/Parsers/FastParser.h:112-172 | after the levels the one slot left holds the trimmed value of all the digits |
| FastParser.NextBase | IntXLib/src/Parsers/FastParser.h:114-117 | base^(2^k) from the previous power by squaring |
| FastParser.MergeLevel | IntXLib/src/Parsers/FastParser.h:127-171 | every pair of neighbouring slots of width w becomes one slot of width 2w, with values and lengths trading buffers |
| FastParser.MergeSlot | IntXLib/src/Parsers/FastParser.h:129-160 | the merged slot holds lo + base^w hi, trimmed, and nothing outside the slot changes |
| FastParser.MultiplyHigh | IntXLib/src/Parsers/FastParser.h:133-145 | the slot is cleared and receives the trimmed product base^w hi |
| FastParser.AddInSlot | IntXLib/src/Parsers/FastParser.h:148-160 | the slot receives the trimmed sum of the two halves |
| StringConverterBase.LeastExponent | IntXLib/src/StringConverters/StringConverterBase.h:65 | the least n from `from` on with b^n reaching the target |
| StringConverterBase.OutputLength | IntXLib/src/StringConverters/StringConverterBase.h:65 | the least n with b^n >= 2^(32 length): enough digits for any number of that many limbs, and no more |
| StringConverterBase.CeilLog10 | IntXLib/src/StringConverters/StringConverterBase.h:69 | the least k with b <= 10^k |
| StringConverterBase.LengthCoef | IntXLib/src/StringConverters/StringConverterBase.h:68-69 | ceil(log10 b) + 2 characters per digit in a base bigger than the alphabet, else 1 |
| StringConverterBase.Convert | IntXLib/src/StringConverters/StringConverterBase.h:133-139 | a power-of-two base gives the digits of the number, canonical when the top limb is set; any other base gives the empty array and leaves the length as it was |
| StringConverterBase.NonZeroDigits | IntXLib/src/StringConverters/StringConverterBase.h:97-117 | a positive number has at least one digit to write |
| StringConverterBase.DigitText | IntXLib/src/StringConverters/StringConverterBase.h:100-114 | one character from the alphabet, or three, '{' d + '0' '}', in a big base |
| StringConverterBase.DigitsText | IntXLib/src/StringConverters/StringConverterBase.h:97-117 | the digits written most significant first, one or three characters each |
| StringConverterBase.DigitsTextCons | IntXLib/src/StringConverters/StringConverterBase.h:97-117 | a new lowest digit is written last |
| StringConverterBase.Build | IntXLib/src/StringConverters/StringConverterBase.h:86-122 | the buffer holds the sign, when negative, and then the text of the digits from the most significant down |
| StringConverterBase.WriteDigits | IntXLib/src/StringConverters/StringConverterBase.h:97-117 | the digit loop: after the sign already in the buffer it writes the text of every digit from the most significant down, each digit taking one character or three in a big base |
| StringConverterBase.BuildStep | IntXLib/src/StringConverters/StringConverterBase.h:97-117 | each pass of the loop appends the next lower digit's text |
| StringConverterBase.PutDigit | IntXLib/src/StringConverters/StringConverterBase.h:100-116 | one digit's characters are written at the index, which moves past them |
| Pow2StringConverter.BitCount | IntXLib/src/StringConverters/Pow2StringConverter.h:40-41 | (length - 1) 32 + Msb(top) + 1, between 32 (length - 1) and 32 length |
| Pow2StringConverter.BitCountRange | IntXLib/src/StringConverters/Pow2StringConverter.h:40-41 | the number is below 2^BitCount, and at least 2^(BitCount - 1) when the top limb is set |
| Pow2StringConverter.OutputLength | IntXLib/src/StringConverters/Pow2StringConverter.h:42-46 | ceil(BitCount / k): the least count of k-bit digits that covers the bits |
| Pow2StringConverter.Convert | IntXLib/src/StringConverters/Pow2StringConverter.h:37-92 | OutputLength digits, digit i being bits k i to k i + k - 1 of the number, that is v / b^i mod b |
| Pow2StringConverter.NextDigit | IntXLib/src/StringConverters/Pow2StringConverter.h:62-82 | the low k bits of the output word are the k bits of the number at bit 32 digitIndex + initialShift, taken from one limb or two, and the position moves on by k |
| Pow2StringConverter.StoreDigit | IntXLib/src/StringConverters/Pow2StringConverter.h:85 | the masked word is digit outputIndex of the number |
| Pow2StringConverter.InsideLimbs | IntXLib/src/StringConverters/Pow2StringConverter.h:60-64 | a digit the output still needs starts inside the limbs, so the read of digits[digitIndex] is in bounds |
| Pow2StringConverter.Canonical | IntXLib/src/StringConverters/Pow2StringConverter.h:40-46 | with the top limb set, the digits are exactly the canonical digits, with no leading zero |
| ClassicStringConverter.Convert | IntXLib/src/StringConverters/ClassicStringConverter.h:36-60 | the first newLength output entries are the canonical digits of the number, least significant first, in every base |
| ClassicStringConverter.Divide | IntXLib/src/StringConverters/ClassicStringConverter.h:44-57 | the loop stops after the number of digits of the value, each output entry being v / b^i mod b |
| ClassicStringConverter.DivideOnce | IntXLib/src/StringConverters/ClassicStringConverter.h:55 | one DivMod in place turns the trimmed v / b^i into the trimmed v / b^(i+1), the remainder being digit i |
| ClassicStringConverter.StoreDigit | IntXLib/src/StringConverters/ClassicStringConverter.h:55 | the remainder lands as digit i |
| ClassicStringConverter.IndexRoom | IntXLib/src/StringConverters/ClassicStringConverter.h:44-57 | while something is left another digit is due and fits the outputLength + 1 entries |
| ClassicStringConverter.NextQuotient | IntXLib/src/StringConverters/ClassicStringConverter.h:55 | dividing v / b^i by b gives v / b^(i+1) |
| ClassicStringConverter.QuotientTrimmed | IntXLib/src/StringConverters/ClassicStringConverter.h:55 | the quotient with its top zero limb dropped is trimmed |
| FastStringConverter.Convert | IntXLib/src/StringConverters/FastStringConverter.h:187-326 | the power-of-two shortcut, the classic converter for numbers outside the fast range, otherwise the splitting: in every case the first newLength entries are the canonical digits |
| FastStringConverter.PaddedFacts | IntXLib/src/StringConverters/FastStringConverter.h:212-222 | the canonical digits padded with zeros to the slot count are digits, are worth the number, and the last canonical one is not zero |
| FastStringConverter.LengthWithinEstimate | IntXLib/src/StringConverters/FastStringConverter.h:211-217 | a number of length limbs fits the estimated slot count, so its limbs fit the first buffer |
| FastStringConverter.SplitAll | IntXLib/src/StringConverters/FastStringConverter.h:211-326 | splitting into 2^c one-digit slots and collecting them gives the canonical digits |
| FastStringConverter.FirstSlot | IntXLib/src/StringConverters/FastStringConverter.h:214-222 | the number's limbs at the start of the first buffer and its length at the start of the second form one slot of the whole width |
| FastStringConverter.Powers | IntXLib/src/StringConverters/FastStringConverter.h:229-240 | entry i of the stack is base^(2^i), trimmed |
| FastStringConverter.PowersGrow | IntXLib/src/StringConverters/FastStringConverter.h:229-240 | pushing the next square keeps the stack a stack of powers |
| FastStringConverter.NextPower | IntXLib/src/StringConverters/FastStringConverter.h:233-236 | the base first, then the square of the previous power: base^(2^i) |
| FastStringConverter.SplitLevels | IntXLib/src/StringConverters/FastStringConverter.h:256-304 | from one slot of width 2^c down to slots of width 1, each holding its digit |
| FastStringConverter.SplitLevel | IntXLib/src/StringConverters/FastStringConverter.h:261-302 | every slot of width 2w becomes two slots of width w, values and lengths trading buffers |
| FastStringConverter.SplitStep | IntXLib/src/StringConverters/FastStringConverter.h:280-287 | the slot at p is split in two, with nothing outside it changed |
| FastStringConverter.SplitRun | IntXLib/src/StringConverters/FastStringConverter.h:280-285 | the quotient by base^w is worth the high half's digits and the remainder the low half's, both within w limbs |
| FastStringConverter.DivideSlot | IntXLib/src/StringConverters/FastStringConverter.h:281-283 | the trimmed quotient and remainder of the slot by base^w |
| FastStringConverter.SplitValue | IntXLib/src/StringConverters/FastStringConverter.h:281-283 | a slot worth d[p..p+2w] divided by base^w leaves the high digits as quotient and the low as remainder |
| FastStringConverter.WriteHalves | IntXLib/src/StringConverters/FastStringConverter.h:281-285 | the halves' limbs at p and p + w in one buffer, their lengths in the other |
| FastStringConverter.Place | IntXLib/src/StringConverters/FastStringConverter.h:281-285 | the run is copied into its cells and nothing else changes |
| FastStringConverter.OneDigitSlots | IntXLib/src/StringConverters/FastStringConverter.h:306-307 | at the last level the real length of the slot lengths is the number of canonical digits |
| FastStringConverter.OneDigit | IntXLib/src/StringConverters/FastStringConverter.h:315-321 | a slot of width 1 has length 0 exactly for a zero digit and otherwise holds the digit |
| FastStringConverter.Collect | IntXLib/src/StringConverters/FastStringConverter.h:306-321 | the output is exactly the canonical digits |
| FastStringConverter.CopyDigits | IntXLib/src/StringConverters/FastStringConverter.h:315-321 | digit j is copied where its length is set, and is zero otherwise |
| StringConvertManager.ToString | IntXLib/src/StringConverters/StringConverterBase.h:53-123 | fails with Argument exactly for a base outside [2, 65536] or a string that could exceed 2^31 - 1 characters; otherwise the text is "0" for zero, else the sign and the canonical digits of the magnitude, whatever the mode |
| StringConvertManager.Assemble | IntXLib/src/StringConverters/StringConverterBase.h:80-122 | the text of a non-zero number from its canonical digits |
| StringConvertManager.Decimal | IntXLib/src/IntX.cpp:327-330 | the decimal text in upper case |
| StringConvertManager.InBase | IntXLib/src/IntX.cpp:337-340 | the text in a base, with upper-case letters |
| StringConvertManager.WithCase | IntXLib/src/IntX.cpp:348-352 | the text with the upper- or lower-case standard alphabet |
| StringConvertManager.WithAlphabet | IntXLib/src/IntX.cpp:360-364 | the alphabet's error first; otherwise the conversion's result with that alphabet |
| StringConvertManager.TextOfDigits | IntXLib/src/StringConverters/StringConverterBase.h:97-117 | the text of a positive value is the text of its canonical digits |
| StringConvertManager.BinaryText | IntXLib.Test/src/ToStringTest.h:56-60 | 19 is "10011" in base 2 |
| StringConvertManager.OctalText | IntXLib.Test/src/ToStringTest.h:62-66 | 100 is "144" in base 8 |
| StringConvertManager.OctalText2 | IntXLib.Test/src/ToStringTest.h:68-72 | 901 is "1605" in base 8 |
| StringConvertManager.HexText | IntXLib.Test/src/ToStringTest.h:83-87 | 0xABCDEF is "ABCDEF" in base 16 |
| StringConvertManager.BigBaseText | IntXLib.Test/src/ToStringTest.h:95-99 | -144 is "-{1}{4}" in base 140 |
| DigitConverter.ToBytes | IntXLib/src/DigitConverter.h:28-39 | an empty vector is ArgumentNull; otherwise four bytes per limb, limb i at bytes 4i to 4i + 3, least significant first |
| DigitConverter.FromBytes | IntXLib/src/DigitConverter.h:51-66 | an empty vector is ArgumentNull and a size not a multiple of four Argument; otherwise limb i is made of bytes 4i to 4i + 3 |
| DigitConverter.LimbRoundTrip | IntXLib/src/DigitConverter.h:28-66 | the four bytes of a limb give the limb back |
| DigitConverter.BytesRoundTrip | IntXLib/src/DigitConverter.h:28-66 | four bytes read as a limb give the bytes back |
| DigitConverter.LimbsRoundTrip | IntXLib/src/DigitConverter.h:28-66 | FromBytes(ToBytes(digits)) gives the digits back for any non-empty vector |
| DigitConverter.BytesLimbsRoundTrip | IntXLib/src/DigitConverter.h:28-66 | ToBytes(FromBytes(bytes)) gives the bytes back for any non-empty multiple of four |
| PcgRandom.AdvanceAdd | IntXLib/src/PcgRandom/PcgRandomMinimal.h:143-144 | m transitions and then n are m + n transitions |
| PcgRandom.Rotation | IntXLib/src/PcgRandom/PcgRandomMinimal.h:146 | the rotation is the top five bits of the old state, below 32 |
| PcgRandom.RotateRightShifts | IntXLib/src/PcgRandom/PcgRandomMinimal.h:148 | the closed form (x >> rot) \| (x << (-rot & 31)) is a rotation right by rot |
| PcgRandom.RotateInverse | IntXLib/src/PcgRandom/PcgRandomMinimal.h:148 | rotating left undoes it: no bit of the output is lost |
| PcgRandom.OutputRecoversXorShifted | IntXLib/src/PcgRandom/PcgRandomMinimal.h:143-148 | the output and the rotation determine the xorshifted word |
| PcgRandom.Increment | IntXLib/src/PcgRandom/PcgRandomMinimal.h:68 | the increment is odd and carries initSeq without its top bit |
| PcgRandom.ClockSequenceTwoSteps | IntXLib/src/PcgRandom/PcgRandomMinimal.h:55-62 | the two wrapped 64-bit multiplications give the stream selector of the clock |
| PcgRandom.Threshold | IntXLib/src/PcgRandom/PcgRandomMinimal.h:99 | the threshold is 2^32 mod bound, so the draws it accepts are a multiple of bound in number |
| PcgRandom.Generator.Seed | IntXLib/src/PcgRandom/PcgRandomMinimal.h:65-72 | an odd increment from initSeq and the state of two transitions around adding initState |
| PcgRandom.Generator.Init | IntXLib/src/PcgRandom/PcgRandomMinimal.h:40-63 | seeded with the clock reading and the sequence derived from it |
| PcgRandom.Generator.EnsureInit | IntXLib/src/PcgRandom/PcgRandomMinimal.h:77-81 | seeds once, on first use, and leaves an initialised generator alone |
| PcgRandom.Generator.Generate | IntXLib/src/PcgRandom/PcgRandomMinimal.h:139-148 | the output of the old state, and one transition |
| PcgRandom.Generator.NextUInt32 | IntXLib/src/PcgRandom/PcgRandomMinimal.h:131-149 | seeds on first use, then one draw from the seeded state |
| PcgRandom.Generator.Range32 | IntXLib/src/PcgRandom/PcgRandomMinimal.h:75-119 | seeds on first use and leaves the increment as seeded; the new state is the old one advanced by the number of draws taken; the result is the first draw at or above the threshold, modulo bound, every earlier draw being below it, so it is below bound; None exactly when all `fuel` draws fall below the threshold |
| PcgRandom.Generator.DrawAtLeast | IntXLib/src/PcgRandom/PcgRandomMinimal.h:110-117 | the rejection loop returns the first draw reaching the threshold, modulo bound |
| PcgRandom.Generator.NextUInt32InRange | IntXLib/src/PcgRandom/PcgRandomMinimal.h:151-158 | the increment is left as seeded and the state advances by the draws Range32 takes for the width `exclusiveBound - minimum` modulo 2^32; the result is the first draw at or above that width's threshold, modulo the width, plus minimum modulo 2^32; None exactly when every draw falls below the threshold; the result lies in the range, counted cyclically from minimum modulo 2^32, and in [minimum, exclusiveBound) when minimum < exclusiveBound |
| PcgRandom.Generator.NextInt | IntXLib/src/PcgRandom/PcgRandomMinimal.h:121-129 | the increment is left as seeded and the state advances by the draws Range32 takes for the width `exclusiveBound - minimum` modulo 2^32; the result is the accepted draw modulo the width, read as a signed 32-bit value and added to minimum with two's-complement wrap-around; None exactly when every draw falls below the threshold; for minimum < exclusiveBound the result lies in [minimum, exclusiveBound) |
| PcgRandom.AsInt32 | IntXLib/src/PcgRandom/PcgRandomMinimal.h:128 | a 32-bit pattern read as signed keeps its residue modulo 2^32 |
| PcgRandom.WrapInt32 | IntXLib/src/PcgRandom/PcgRandomMinimal.h:128 | two's-complement wrap-around keeps the residue modulo 2^32 |
| PcgRandom.ShiftIntoRange | IntXLib/src/PcgRandom/PcgRandomMinimal.h:155-157 | a draw below the width, plus minimum modulo 2^32, lands in the range |
| PcgRandom.SignedShiftIntoRange | IntXLib/src/PcgRandom/PcgRandomMinimal.h:125-128 | a signed draw below the width, plus minimum, lands in the range |
| MillerRabin.ModPow | IntXLib/src/OpHelpers/OpHelper.h:576-591 | value^exponent mod modulus for a positive exponent, and 1 for exponent 0 |
| MillerRabin.ModPowStep | IntXLib/src/OpHelpers/OpHelper.h:582-588 | each pass keeps result value^exponent fixed modulo the modulus |
| MillerRabin.PowerModBase | IntXLib/src/OpHelpers/OpHelper.h:579 | reducing the base first does not change the power modulo m |
| MillerRabin.Decomposition | IntXLib/src/MillerRabin/MillerRabin.h:24-32 | n - 1 is its odd part times 2^s |
| MillerRabin.Halving | IntXLib/src/MillerRabin/MillerRabin.h:24-30 | the halving loop counts the factors 2 of n - 1 |
| MillerRabin.Decompose | IntXLib/src/MillerRabin/MillerRabin.h:24-32 | with the divisor 1 << s computed as a 32-bit int: for s <= 30, d is the odd part with n - 1 == d 2^s; for s = 31 the shift wraps to -2^31 and d is minus the odd part |
| MillerRabin.ShiftQuotient | IntXLib/src/MillerRabin/MillerRabin.h:32 | the truncating quotient of n - 1 by the wrapped 1 << s is the odd part for s <= 30 and its negation for s = 31 |
| MillerRabin.DecomposeExact | IntXLib/src/MillerRabin/MillerRabin.h:24-32 | with the divisor 2^s computed exactly: s >= 1 and d odd with n - 1 == d 2^s |
| MillerRabin.TwoExponentPow2 | IntXLib/src/MillerRabin/MillerRabin.h:24-30 | 2^k has k factors 2 and odd part 1 |
| MillerRabin.ShiftOverflow | IntXLib/src/MillerRabin/MillerRabin.h:32-38 | 2^31 + 1 = 3 715827883 is odd with s = 31 and odd part 1; the test as written fails with Argument for it, since ModPow rejects the negative exponent |
| MillerRabin.HitsOneNotStrong | IntXLib/src/MillerRabin/MillerRabin.h:45-58 | a chain that reaches 1 first never reaches n - 1 |
| MillerRabin.Round | IntXLib/src/MillerRabin/MillerRabin.h:37-58 | ends at once exactly when a^d is 1 or n - 1, at n - 1 or at 1 exactly when the squarings reach them first, and otherwise a is a witness of compositeness |
| MillerRabin.RoundAsWritten | IntXLib/src/MillerRabin/MillerRabin.h:37-65 | a round fails exactly when it fails the test as written, with Redo set once any round so far reached n - 1 |
| MillerRabin.IsProbablyPrime | IntXLib/src/MillerRabin/MillerRabin.h:11-71 | fails with Argument exactly when n - 1 has 31 factors 2 and a round runs; otherwise true exactly for what the loop as written accepts: 2 and 3 always, 1, smaller and even numbers never |
| MillerRabin.IsProbablyPrimeFixed | IntXLib/src/MillerRabin/MillerRabin.h:11-71 | with Redo cleared every round: true exactly when every witness passes the strong test |
| MillerRabin.StrongAcceptedAsWritten | IntXLib/src/MillerRabin/MillerRabin.h:53-60 | whatever the strong test accepts, the loop as written accepts too |
| MillerRabin.RedoCounterexample | IntXLib/src/MillerRabin/MillerRabin.h:53-60 | 65 = 5 13 with witnesses 8, 2, 2, 2, 2 is accepted as written but not by the strong test |
| MillerRabin.EightSetsRedo | IntXLib/src/MillerRabin/MillerRabin.h:45-55 | witness 8 modulo 65 reaches 64 after one squaring |
| MillerRabin.TwoNotStrong | IntXLib/src/MillerRabin/MillerRabin.h:45-60 | witness 2 modulo 65 neither passes nor reaches 1 |
| DigitOpHelper.AddLimbs | IntXLib/src/OpHelpers/DigitOpHelper.h:47-60 | the two add loops together: the limbs written, as many as the longer operand has, plus the final carry times BASE^len1 equal the sum; nothing outside them is written |
| DigitOpHelper.AddCommon | IntXLib/src/OpHelpers/DigitOpHelper.h:47-52 | the first add loop: the limbs written plus the carry times BASE^len2 equal the common limbs of both operands added; nothing outside them is written |
| DigitOpHelper.AddTail | IntXLib/src/OpHelpers/DigitOpHelper.h:55-60 | the second add loop carries through the rest of the longer operand, keeping limbs plus carry equal to the whole sum |
| DigitOpHelper.StoreCarry | IntXLib/src/OpHelpers/DigitOpHelper.h:62-68 | a carry left over becomes a top limb of 1, which happens exactly when the sum reaches BASE^n; the stored run is worth the sum |
| DigitOpHelper.SubLimbs | IntXLib/src/OpHelpers/DigitOpHelper.h:88-101 | the two subtract loops together: all the limbs written, as many as a has, are worth (Val(a) - Val(b)) mod BASE^\|a\|, that is Val(a) - Val(b) when Val(a) >= Val(b), and nothing outside them changes |
| DigitOpHelper.SubCommon | IntXLib/src/OpHelpers/DigitOpHelper.h:88-93 | the first subtract loop: the limbs written equal the common limbs of a minus b plus the borrow times BASE^len2, the borrow read from bit 63 |
| DigitOpHelper.SubTail | IntXLib/src/OpHelpers/DigitOpHelper.h:96-101 | the second subtract loop propagates the borrow through the rest of a, keeping the same equation over all of a |
| DigitOpHelper.TrimmedLength | IntXLib/src/OpHelpers/DigitOpHelper.h:103 | the real length of the difference: the same value, no zero top limb, and only zero limbs cut off |
| DigitOpHelper.DivModLimbs | IntXLib/src/OpHelpers/DigitOpHelper.h:122-129 | the long-division loop from the top limb down: the remainder is below the divisor and Val(a) is the quotient limbs times d plus the remainder |
| DigitOpHelper.ShrShifted | IntXLib/src/OpHelpers/DigitOpHelper.h:296-316 | a shift by 1 to 31 bits: the result is worth floor(Val(src) / 2^s), one limb shorter exactly when the top limb shifts to zero, and trimmed when src is |
| DigitOpHelper.ShrLimbs | IntXLib/src/OpHelpers/DigitOpHelper.h:299-304 | the loop over all limbs but the top: each result limb takes the high bits of its own limb and the low bits of the next, so with the shifted top limb the value is floor(Val(src) / 2^s) |
| DigitOpHelper.StoreTop | IntXLib/src/OpHelpers/DigitOpHelper.h:306-315 | the shifted top limb is stored only when it is not zero, and the length counts it exactly then |
| DigitOpHelper.LimbwiseInto | IntXLib/src/OpHelpers/DigitOpHelper.h:336-339 | the loop over the common limbs writes exactly the limb-by-limb operation of the two runs and nothing above them |
| DigitOpHelper.ComplementInto | IntXLib/src/OpHelpers/DigitOpHelper.h:405-408 | the complement loop writes exactly the limb-by-limb NOT of the run and nothing above it |
| OpHelper.AddMagnitudes | IntXLib/src/OpHelpers/OpHelper.h:80-92 | a new number of the requested sign whose magnitude is the sum of the two magnitudes, trimmed when the longer one is |
| OpHelper.SubNonZero | IntXLib/src/OpHelpers/OpHelper.h:109-139 | for two valid operands with limbs, a normal number worth the length-first difference with the sign Sub picks |
| OpHelper.SubMagnitudes | IntXLib/src/OpHelpers/OpHelper.h:125-137 | the longer magnitude minus the shorter modulo BASE^len of the longer, with the requested sign, as a normal number |
| OpHelper.PowBySquaring | IntXLib/src/OpHelpers/OpHelper.h:182-202 | for power >= 2, value^power, or Argument when a product would exceed the length limit |
| OpHelper.PowStep | IntXLib/src/OpHelpers/OpHelper.h:190-200 | square-and-multiply over the remaining bits of power: from value^(power >> (k+1)) it reaches value^(power >> k) |
| OpHelper.OrMagnitudes | IntXLib/src/OpHelpers/OpHelper.h:1259-1271 | a number of the longer operand's length whose magnitude is the OR of the two magnitudes, trimmed when the longer one is |
| OpHelper.AndMagnitudes | IntXLib/src/OpHelpers/OpHelper.h:1295-1306 | a trimmed number whose magnitude is the AND of the two magnitudes |
| OpHelper.XorMagnitudes | IntXLib/src/OpHelpers/OpHelper.h:1334-1346 | a trimmed number whose magnitude is the XOR of the two magnitudes |
| OpHelper.ShiftBits | IntXLib/src/OpHelpers/OpHelper.h:1177-1233 | fails with Argument exactly when a left shift would exceed MaxBitCount bits; otherwise the magnitude times 2^bitCount or divided by it, normal, negative only when non-zero |
| OpHelper.ShiftLeftInto | IntXLib/src/OpHelpers/OpHelper.h:1199-1219 | a buffer of exactly the new bit length in limbs gets Val(src) 2^bitCount, trimmed |
| OpHelper.ShlLimbs | IntXLib/src/OpHelpers/OpHelper.h:1207 | a whole-limb left shift: the limbs moved up by fd places are worth Val(src) BASE^fd |
| OpHelper.ShlBits | IntXLib/src/OpHelpers/OpHelper.h:1219 | a left shift by fd limbs and 1 to 31 bits, done as a right shift by 32 - bits into a higher place, is worth Val(src) 2^bits BASE^fd |
| OpHelper.ShiftRightInto | IntXLib/src/OpHelpers/OpHelper.h:1199-1229 | a buffer of exactly the new bit length in limbs gets floor(Val(src) / 2^bitCount), trimmed |
| OpHelper.ShrLimbsCopy | IntXLib/src/OpHelpers/OpHelper.h:1211 | a whole-limb right shift copies the limbs above fd |
| OpHelper.ShrBits | IntXLib/src/OpHelpers/OpHelper.h:1223-1229 | a right shift by fd limbs and 1 to 31 bits, with one more source limb read when the result would be shorter, is worth floor(Val(src above fd) / 2^bits) |
| ClassicDivider.NormalizeDivisor | IntXLib/src/Dividers/ClassicDivider.h:102-118 | the divisor scaled by 2^shift1, either the caller's limbs unchanged (shift 0) or the shifted copy in the second buffer |
| ClassicDivider.NormalizeDividend | IntXLib/src/Dividers/ClassicDivider.h:102-115 | the dividend scaled by 2^shift1 in the first buffer, trimmed, one limb longer at most |
| ClassicDivider.DivideStep | IntXLib/src/Dividers/ClassicDivider.h:142-207 | one quotient digit: the digit is the window divided by the divisor and the window is left holding the remainder, its extra top limb zero; nothing else changes |
| ClassicDivider.MulSubWindow | IntXLib/src/Dividers/ClassicDivider.h:171-188 | the multiply-subtract loop leaves window minus q times the divisor, its final signed borrow t standing for the part above the window |
| ClassicDivider.AddBack | IntXLib/src/Dividers/ClassicDivider.h:191-207 | adding the divisor back once after an overshoot leaves the true remainder and clears the window's extra top limb |
| ClassicDivider.Round | IntXLib/src/Dividers/ClassicDivider.h:140-213 | one pass of the main loop keeps the long-division invariant one limb further down and stores the digit only when the quotient is wanted |
| ClassicDivider.DivideLoop | IntXLib/src/Dividers/ClassicDivider.h:139-214 | the main loop: Val(u) = Val(qs) Val(v) + remainder with the remainder below Val(v), qs stored when wanted, nothing above the dividend changed |
| ClassicDivider.DivideNormalized | IntXLib/src/Dividers/ClassicDivider.h:121-229 | on the scaled operands, the quotient (when wanted) is x / y and the remainder (when wanted) x % y, both trimmed |
| ClassicDivider.ShiftBackRemainder | IntXLib/src/Dividers/ClassicDivider.h:216-226 | the remainder of the scaled operands shifted back right by shift1 is the true remainder, trimmed |
| NewtonHelper.ShiftDivisor | IntXLib/src/OpHelpers/NewtonHelper.h:49-62 | the divisor moved so that its top limb is 4 to 7 (most significant bit at bit 2), with the value and length the normalisation prescribes |
| NewtonHelper.ShiftLeftInto | IntXLib/src/OpHelpers/NewtonHelper.h:55-56 | a left shift by 1 to 31 bits, done as a right shift into the buffer one limb up: Val(digits) 2^leftShift, trimmed |
| NewtonHelper.NextBuffer | IntXLib/src/OpHelpers/NewtonHelper.h:131-150 | the divisor chunk read in round k and its bits after the point are the ones the precision schedule prescribes |
| NewtonHelper.TopTwoChunk | IntXLib/src/OpHelpers/NewtonHelper.h:131-140 | for the first four rounds, the chunk assembled from the top two limbs is the prescribed chunk |
| NewtonHelper.TopLimbsChunk | IntXLib/src/OpHelpers/NewtonHelper.h:142-150 | from round 4 on, the top min(2^(k-4) + 1, length) limbs are the prescribed chunk |
| NewtonHelper.NewtonRound | IntXLib/src/OpHelpers/NewtonHelper.h:116-213 | one pass of the loop as intended computes 2z - z^2 v' at the next precision and keeps the estimate invariant |
| NewtonHelper.NewtonRoundAsWritten | IntXLib/src/OpHelpers/NewtonHelper.h:166-208 | one pass as written: over the length the shift reports, which holds the shifted estimate, the result is the previous estimate with its low shiftOffset limbs cleared, minus the square term, modulo BASE^length |
| NewtonHelper.ShiftLength | IntXLib/src/OpHelpers/NewtonHelper.h:166-176 | the length the left shift reports: shiftOffset + 1 + resultLength, one fewer when the top limb's shifted-out bits are zero; the shifted estimate fits it |
| NewtonHelper.ShiftedFits | IntXLib/src/OpHelpers/NewtonHelper.h:166-176 | a run shifted left by b bits fits b / 32 + 1 + its length limbs, one fewer when its top limb shifted right by 32 - b % 32 is zero |
| NewtonHelper.EstimateBitsOdd | IntXLib/src/OpHelpers/NewtonHelper.h:166-175 | the shift 2^k + 1 is never a multiple of 32, so the right shift by 32 - bitShift % 32 is by 1 to 31 bits |
| NewtonHelper.SquareTerm | IntXLib/src/OpHelpers/NewtonHelper.h:189-201 | the square term z^2 chunk shifted right by ChunkBits + 1 bits, zero when the shift passes all its limbs |
| NewtonHelper.ClearLow | IntXLib/src/OpHelpers/NewtonHelper.h:187 | clearing the low n limbs lowers the value by exactly what they were worth |
| NewtonHelper.RoundZeroAsWritten | IntXLib/src/OpHelpers/NewtonHelper.h:166-208 | round 0 as written on the divisor {0, 4} with estimate 8 gives 2^32 - 8 |
| NewtonHelper.RoundZeroCounterexample | IntXLib/src/OpHelpers/NewtonHelper.h:178-185 | on the divisor {0, 4} round 0 as written gives 2^32 - 8 where the intended round gives 16 |
| NewtonHelper.ShiftOut | IntXLib/src/OpHelpers/NewtonHelper.h:189-208 | the square term shifted right by bitShift bits, skipping the shift when its offset passes all the limbs, is x / 2^bitShift either way |
| NewtonHelper.RoundsFor | IntXLib/src/OpHelpers/NewtonHelper.h:66-116 | lengthLog2 + Msb(32) = lengthLog2 + 5 rounds: the estimate keeps the invariant, fits 2^(lengthLog2 + 1) limbs, and the shift grows by 2^(lengthLog2 + 5) + 1 |
| NewtonHelper.NewtonRounds | IntXLib/src/OpHelpers/NewtonHelper.h:97-214 | after the first estimate and the given number of rounds the invariant holds for the resulting estimate |
| NewtonHelper.Opposite | IntXLib/src/OpHelpers/NewtonHelper.h:64-217 | CeilLog2(maxLength) + 5 rounds: the estimate keeps the invariant, its length fits the 2^(CeilLog2(maxLength) + 1) limb result buffer, and the shift grows by 2^(rounds) + 1 |
| AutoNewtonDivider.OppositeDigits | IntXLib/src/Dividers/AutoNewtonDivider.h:172-181 | the divisor's opposite and its right shift, accurate enough that the shifted product with the dividend is the quotient or one above |
| AutoNewtonDivider.HighestLostBit | IntXLib/src/Dividers/AutoNewtonDivider.h:202-214 | the bit read from the product's limbs is bit rightShift - 1 of the product |
| AutoNewtonDivider.ShiftProduct | IntXLib/src/Dividers/AutoNewtonDivider.h:202-222 | the product shifted right by rightShift bits in place, trimmed |
| AutoNewtonDivider.AddLostBit | IntXLib/src/Dividers/AutoNewtonDivider.h:225-228 | adding the lost bit increases the quotient by one and keeps it trimmed |
| AutoNewtonDivider.DecrementQuotient | IntXLib/src/Dividers/AutoNewtonDivider.h:240-243 | when q b overshoots the dividend the quotient decreases by one and stays trimmed |
| AutoNewtonDivider.SubtractDivisor | IntXLib/src/Dividers/AutoNewtonDivider.h:244 | the product q b decreases by b, trimmed |
| ClassicMultiplier.MultiplyRows | IntXLib/src/Multipliers/ClassicMultiplier.h:55-73 | the outer loop over the shorter operand: the first len1 + len2 limbs end up worth Val(x) Val(y), nothing above is touched, and the last written row position is reported |
| ClassicMultiplier.RowStep | IntXLib/src/Multipliers/ClassicMultiplier.h:59-73 | one row: the partial product grows from the first j limbs of y to the first j + 1, a zero limb skipping the row |
| ClassicMultiplier.AddRow | IntXLib/src/Multipliers/ClassicMultiplier.h:65-72 | adding limb j of y times x at limb j turns the product with y's first j limbs into the product with y's first j + 1 |
| ClassicMultiplier.MulRow | IntXLib/src/Multipliers/ClassicMultiplier.h:66-71 | the inner loop: the limbs from j on gain yj Val(x), the carry going to the limb above |
| ClassicMultiplier.StoreTop | IntXLib/src/Multipliers/ClassicMultiplier.h:72 | the final carry of a row stored as the row's top limb |
| MultiplierBase.MultiplyMagnitudes | IntXLib/src/Multipliers/MultiplierBase.h:47-53 | a number of the given sign whose magnitude is the product of the magnitudes, trimmed when both are |
| DividerBase.BothSingle | IntXLib/src/Dividers/DividerBase.h:210-230 | two one-limb operands: the requested quotient x / d and remainder x % d, each of length 0 for zero |
| DividerBase.OneLimbDivisor | IntXLib/src/Dividers/DividerBase.h:270-298 | a one-limb divisor: the requested quotient Val(a) / d and remainder Val(a) % d, trimmed, the remainder stored only when not zero |
| IntXDivider.DivModNonZero | IntXLib/src/Dividers/DividerBase.h:49-127 | for a non-zero divisor, the requested quotient and remainder of the truncating division, normal, the remainder keeping the dividend's sign unless normalised away |
| IntXDivider.UnitDivisor | IntXLib/src/Dividers/DividerBase.h:57-61 | a divisor of magnitude 1 gives the dividend, negated when the divisor is negative |
| IntXDivider.DivideCompared | IntXLib/src/Dividers/DividerBase.h:63-127 | after comparing magnitudes: a smaller dividend is its own remainder, equal magnitudes give plus or minus one, otherwise the general division |
| IntXDivider.DivideGeneral | IntXLib/src/Dividers/DividerBase.h:83-127 | when the dividend's magnitude is the larger, the truncating quotient and remainder, with the quotient's sign the XOR of the signs and the remainder's the dividend's |
| IntXDivider.DivideLimbs | IntXLib/src/Dividers/DividerBase.h:84-111 | the result vectors of len1 - len2 + 2 and len1 + 2 limbs hold Val(a) / Val(b) and Val(a) % Val(b), trimmed |
| IntXDivider.Built | IntXLib/src/Dividers/DividerBase.h:113-123 | a result number of the given limbs and sign, its sign dropped for a zero only when normalisation is on |
| IntXDivider.SignedFromMagnitudes | IntXLib/src/Dividers/DividerBase.h:64-93 | the magnitudes' quotient and remainder with the signs put back form a truncating division |
| IntXDivider.MagnitudeDivision | IntXLib/src/Dividers/DividerBase.h:64-93 | conversely, a truncating division with its signs taken off is the Euclidean division of the magnitudes |

## Left out

- The FHT multiplier (`AutoFhtMultiplier.h`, `FhtHelper.cpp`) works in floating point. Every multiplication here is the classic one; the library's tests require the two to agree.
- Floating-point code is not modelled:
  - the float and double constructors and conversions;
  - `LogN`, `Log10` and `Ln`;
  - OpHelper's double helpers (`Builder`, `DoubleUlong`, `GetDoubleParts`, `GetDoubleFromParts`, `SetDigitsFromDouble`);
  - the `log`/`ceil` buffer estimates of the parsers and string converters.

  Those estimates are replaced by exact integer bounds: `ParserBase.DigitsLength`, `StringConverterBase.OutputLength` and `StringConverterBase.CeilLog10`. They bound the same buffers and are proved large enough.
- The global settings and strategy singletons (`IntXGlobalSettings`, `MultiplyManager`, `DivideManager`, `ParseManager`, `StringConvertManager`'s getters) are replaced by explicit parameters: a divide mode for `IntXDivider`, a parse strategy and a string mode. `FastStringConverter` is the exception: it asks `DivideManager` for the current divider, and the model always uses the classic one there (see `FastStringConverter.Convert` below). The managers' default branch, which throws for an unknown mode, cannot arise because the modes are datatypes.
- `TryNormalize` runs only when `autoNormalize` is on, and that setting is off by default. The value operations therefore keep unnormalised results, as the library does; `IntXDivider.DivMod` takes the setting as a parameter.
- `PcgRandom`: the clock-based seeding through `chrono` becomes a `clock` parameter. The library's static generator state becomes the fields of one `Generator` object.
- PcgRandom.Generator.Range32: the rejection loop is bounded by a `fuel` parameter and returns `None` when the fuel runs out. The source's loop has no bound.
- PcgRandom.Generator.Range32 requires `bound > 0`; the source divides by zero otherwise.
- PcgRandom.Generator.NextUInt32InRange requires `minimum != exclusiveBound`, because that call reaches `Range32(0)`.
- PcgRandom.Generator.NextInt requires `minimum != exclusiveBound` and a range width that fits 32 signed bits. The C++ cast is undefined otherwise.
- MillerRabin.IsProbablyPrime requires that n - 1 has fewer than 32 factors 2. From 32 on, the source's `1 << s` shifts an `int` by its width or more, which C++ leaves undefined.
- MillerRabin.Decompose requires fewer than 32 factors 2 in n - 1, for the same reason.
- MillerRabin.IsProbablyPrime works on the integer value of the number under test. The random witnesses are an input sequence, one 32-bit draw per round. It assumes the library's `ModPow` and `RandomRange` behave as their integer definitions.
- DigitConverter.ToBytes: the size and error behaviour is the source's, and so is that of DigitConverter.FromBytes. The byte contents are modelled as the intended little-endian layout. The source's `memcpy` copies from and onto the `vector` objects themselves rather than their data, which C++ leaves undefined, so the bytes the source actually produces are not modelled. The round-trip lemmas hold for the intended layout only.
- NewtonHelper.GetIntegerOpposite runs the intended round, `NewtonHelper.NewtonRound`, not the round as written (see Findings). Only a single round as written is modelled, by `NewtonHelper.NewtonRoundAsWritten`; a loop of such rounds and what the divider makes of their result are not.
- NewtonHelper.GetIntegerOpposite is proved only to keep the iteration's invariant, which bounds the estimate from above (0 < z <= 2 and z v' < 2). It also proves the shift, the round count and the buffer size. It does not prove that the estimate approximates 2^rightShift / divisor from below.
- AutoNewtonDivider.NewtonDivMod: the Newton path, with `AutoNewtonDivider.DivMod` and the `IntXDivider` members that reach it, assumes the `NewtonAccurate` hypothesis as a precondition. The hypothesis says the rounded product of the opposite and the dividend is the quotient or one above it. The rest of that path is proved under it: the shift, the rounding bit, the single correction and the remainder. The hypothesis is about the intended iteration; the source's rounds compute something else (see Findings), so the Newton path as the library runs it is not covered.
- IntXDivider.DivMod requires normal (trimmed) operands. The library also accepts the untrimmed numbers the vector constructor builds. Its length-first `DigitOpHelper::Cmp` then misorders them: 7 / {5, 0} gives quotient 0 and remainder 7. Knuth's algorithm also reads the divisor's top limb as non-zero. Those inputs are not covered.
- IntXDivider.DivMod requires `int1.length + 2 < 2^32`. The source sizes the remainder as `int1.length + 2U` in 32 bits (DividerBase.h:93), which wraps above that.
- IntXDivider.DivModNonZero requires normal operands and `int1.length + 2 < 2^32`, as `IntXDivider.DivMod` does, with the same gap.
- IntXDivider.UnitDivisor requires a normal dividend, as `IntXDivider.DivMod` does.
- IntXDivider.DivideCompared requires normal operands and `int1.length + 2 < 2^32`, as `IntXDivider.DivMod` does, with the same gap.
- IntXDivider.DivideGeneral requires normal operands and `int1.length + 2 < 2^32`, as `IntXDivider.DivMod` does, with the same gap.
- IntXDivider.Divide requires normal operands and `int1.length + 2 < 2^32`, as `IntXDivider.DivMod` does, with the same gap.
- IntXDivider.Modulo requires normal operands and `int1.length + 2 < 2^32`, as `IntXDivider.DivMod` does, with the same gap.
- IntXDivider.DivideModulo requires normal operands and `int1.length + 2 < 2^32`, as `IntXDivider.DivMod` does, with the same gap.
- IntXDivider.DivModNormalized requires normal operands and `int1.length + 2 < 2^32`, as `IntXDivider.DivMod` does, with the same gap.
- DividerBase.DivModSpecial requires trimmed operands. The kernels are called with the lengths the `IntX` carries, which may count zero limbs on top; that case is not covered.
- ClassicDivider.DivMod requires trimmed operands, as `DividerBase.DivModSpecial` does. With a zero top divisor limb the normalising shift would be 32 bits.
- AutoNewtonDivider.DivMod requires trimmed operands, as `DividerBase.DivModSpecial` does.
- OpHelper.Sh requires a normal (trimmed) operand. The library also accepts the untrimmed values the vector constructor builds; those inputs are not covered.
- OpHelper.Pow requires a normal (trimmed) operand, for the same reason and with the same gap as `OpHelper.Sh`.
- OpHelper.Add requires that the longer operand is not 2^32 - 1 limbs long. At that length the source's `length + 1` wraps to 0 and it goes on with an empty result buffer. The same precondition carries over to `IntXOperators.Add`, `IntXOperators.Subtract`, `IntXOperators.AddAssign` and the increment and decrement operators.
- OpHelper.AddSub has the same precondition as `OpHelper.Add`, for the same reason.
- OpHelper.AddSubNormalized has the same precondition as `OpHelper.Add`, for the same reason.
- IntXOperators.Add has the same precondition as `OpHelper.Add`, through `OpHelper.AddSub`.
- IntXOperators.Subtract has the same precondition as `OpHelper.Add`, through `OpHelper.AddSub`.
- IntXOperators.AddAssign has the same precondition as `OpHelper.Add`, through `OpHelper.AddSub`.
- IntXOperators.PreIncrement has the same precondition as `OpHelper.Add`, through `OpHelper.AddSub`.
- IntXOperators.PostIncrement has the same precondition as `OpHelper.Add`, through `OpHelper.AddSub`.
- IntXOperators.PreDecrement has the same precondition as `OpHelper.Add`, through `OpHelper.AddSub`.
- IntXOperators.PostDecrement has the same precondition as `OpHelper.Add`, through `OpHelper.AddSub`.
- StringConvertManager.ToString requires a trimmed magnitude. The vector constructor builds untrimmed numbers, and the converters size their output from the length and read the top limb as non-zero; those inputs are not covered.
- StringConvertManager.Decimal requires a trimmed magnitude, as `StringConvertManager.ToString` does, with the same gap.
- StringConvertManager.InBase requires a trimmed magnitude, as `StringConvertManager.ToString` does, with the same gap.
- StringConvertManager.WithCase requires a trimmed magnitude, as `StringConvertManager.ToString` does, with the same gap.
- StringConvertManager.WithAlphabet requires a trimmed magnitude, as `StringConvertManager.ToString` does, with the same gap.
- ClassicStringConverter.Convert requires a trimmed magnitude, as `StringConvertManager.ToString` does.
- FastStringConverter.Convert requires a trimmed magnitude, as `StringConvertManager.ToString` does.
- FastStringConverter.Convert requires an output length of at most 2^31 - 1 digits.
- FastStringConverter.Convert splits every slot with `ClassicDivider.DivMod`. The source calls the divider `DivideManager` currently selects, which is the automatic Newton divider by default. Both are proved to give the true quotient and remainder, but the Newton one only under the accuracy hypothesis above, so the default path is not covered.
- FastStringConverter.DivideSlot uses `ClassicDivider.DivMod` for the same reason.
- FastParser.Parse requires at most 2^31 characters.
- ParserBase.Parse requires a string of at most 2^31 - 1 characters, so that its `int` indices cannot overflow.
- Scratch buffers that the source shares by address are separate arrays or sequences here, so aliasing between them is not modelled. This covers the divider's `tempBuffer` and the fast converter's and fast parser's value and length buffers. The Newton helper's swapped buffers are the exception: what the swap does to one round is modelled in `NewtonHelper.NewtonRoundAsWritten`.
- NewtonHelper.NewtonRoundAsWritten requires the shifted square term to have no more limbs than the shifted estimate, as `DigitOpHelper::Sub` assumes of its operands. A longer square term makes the source subtract a longer run from a shorter one; that is not covered.
- The raw-array overload of `InitFromDigits` (IntX.cpp:2062-2071) copies only as many bytes as an address takes and is not part of this model.
- `DigitOpHelper::CypherShr` duplicates `Shr` and `FastStringConverter::ToStringOLd` is a superseded version of `ToString`; neither is modelled.
- OpHelper's and IntX's number-theory extras are not modelled: `InvMod`, `Bezoutsidentity`, `IntegerSquareRoot`, `IntegerLogN`, `Factorial`, `GCD`, `LCM`, `Square`, `Random` and `RandomRange`. `ModPow` is modelled on integers in `MillerRabin.ModPow`.
- The operator overloads whose second operand is an `int`, `UInt32`, `long long`, `UInt64`, `double` or string are not modelled separately. They first build an `IntX` with the constructors modelled in `BigInteger` and then call the same operation.
- Also not modelled separately: the compound assignments of `*`, `/`, `%`, `|`, `&`, `^`, `<<` and `>>`, the `CompareTo` overloads, `IntX::Parse` and the `IntX::Multiply`/`Pow` mode overloads. They are thin wrappers around the modelled operations.
- `GetInternalState`, `IsNegative`, `operator=` and the stream `operator<<` are plain accessors or I/O.

## Findings

| source | as written | input that shows it | evidently intended | confidence | as-written member | corrected member |
|---|---|---|---|---|---|---|
| IntXLib/src/OpHelpers/OpHelper.h:151-155 | `AddSub` picks Add or Sub from `int1.negative`, and `Sub` returns `-int2` for a zero-length `int1`. A zero that carries a sign is therefore read as a negative number. `BitwiseAnd` (OpHelper.h:1296) and the remainder of `DivMod` (DividerBase.h:93, 121) both produce such zeros while `autoNormalize` is off, its default. | `((-1) & (-2)) + 3` gives -3; so does `(-10 % 5) + 3`. | A zero has no sign (`Normalize`, IntX.cpp:375-390, and the vector constructor, IntX.cpp:2044-2053, both clear it), so the sum is 3. | not executed | `OpHelper.NegativeZeroAddSub`, `IntXDivider.NegativeZeroRemainder` | `OpHelper.AddSubNormalized` |
| IntXLib/src/MillerRabin/MillerRabin.h:17, 53, 60 | The flag `Redo`, which records that a round's squarings reached n - 1, is set but never reset. After one round reaches n - 1, every later round passes without checking anything. | n = 65 = 5·13, k = 5, witnesses 8, 2, 2, 2, 2: 8^2 ≡ -1 (mod 65) sets the flag, and the rounds with witness 2 (2, 4, 16, 61, 16, …) never reach ±1 yet pass, so 65 is reported prime. | Clear the flag at the start of every round: a round passes only when its own squarings reach n - 1. | not executed | `MillerRabin.IsProbablyPrime`, `MillerRabin.RedoCounterexample` | `MillerRabin.IsProbablyPrimeFixed` |
| IntXLib/src/OpHelpers/OpHelper.h:112-134 | `Sub` orders the magnitudes with `DigitOpHelper::Cmp`, which compares lengths first (DigitOpHelper.h:167-182), and subtracts the shorter run from the longer. The vector constructor (IntX.cpp:2044-2053) keeps zero limbs on top, and `TryNormalize` is off by default, so a longer run can be the smaller value; the kernel's borrow then wraps modulo 2^(32 len). | `IntX({5, 0}) - 7`: {5, 0} is taken as the larger, and 5 - 7 wraps to 2^64 - 2. | The difference of the values, -2, as for trimmed operands. | not executed | `OpHelper.AddSub`, `OpHelper.UntrimmedAddSub` | `OpHelper.AddSubNormalized` |
| IntXLib/src/OpHelpers/NewtonHelper.h:178-185 | After the shifted estimate is written into the square's buffer, the two pointers are swapped and then the two vectors are swapped by copy-assignment. Both vectors have the same size, so the copies reuse their storage and swap the contents back: the pointer now addressing the shifted estimate's storage finds the previous estimate there. The round clears its low limbs, reads it over the shifted estimate's length and subtracts the square term from it. | Divisor {0, 4} (top limb 4), round 0 from the estimate 8: as written 8 - 16 wraps to 2^32 - 8; the Newton step 2z - z^2 v' gives 16. | The round subtracts the square term from the estimate shifted left, z 2^(2^k + 1), giving the next Newton estimate. | not executed | `NewtonHelper.NewtonRoundAsWritten`, `NewtonHelper.RoundZeroCounterexample` | `NewtonHelper.NewtonRound` |
| IntXLib/src/MillerRabin/MillerRabin.h:32 | `d = (n - 1) / (1 << s)` shifts the `int` 1. For s = 31 that gives -2^31, d comes out negative, and `ModPow` throws `ArgumentException` for a negative exponent (IntX.cpp:550-551). | n = 2147483649 = 2^31 + 1 = 3 715827883, with any k >= 1: the test throws before its first round instead of testing the number. | d is the odd part of n - 1, computed with an exact power of two. | not executed | `MillerRabin.IsProbablyPrime`, `MillerRabin.ShiftOverflow` | `MillerRabin.DecomposeExact`, `MillerRabin.IsProbablyPrimeFixed` |
