/**
 * The operations on whole big integers: sign handling around the limb
 * kernels, for addition and subtraction, comparison, raising to a power,
 * shifts and the bitwise operations. Every result is a fresh object; the
 * operands are never changed.
 */
module OpHelper {
  import opened Limbs
  import opened Errors
  import opened BitOps
  import opened Bits
  import opened BigInteger
  import Constants
  import DigitOpHelper
  import DigitHelper
  import MultiplierBase
  import Radix

  /** +1 for a non-negative sign, -1 for a negative one. */
  function SignOf(negative: bool): int
  {
    if negative then -1 else 1
  }

  /** The magnitude of an object: the number its limbs denote, sign left aside. */
  ghost function Mag(x: IntX): nat
    reads x
    requires x.Valid()
  {
    Val(x.Magnitude())
  }

  /**
   * Copies of the two operands, the one with fewer limbs first; on equal
   * lengths int2 is taken as the smaller one.
   */
  method GetMinMaxLengthObjects(int1: IntX, int2: IntX) returns (smallerInt: IntX, biggerInt: IntX)
    requires int1.Valid() && int2.Valid()
    ensures fresh(smallerInt) && fresh(biggerInt) && smallerInt.Valid() && biggerInt.Valid()
    ensures smallerInt.length <= biggerInt.length
    ensures int1.length < int2.length ==> SameState(smallerInt, int1) && SameState(biggerInt, int2)
    ensures int1.length >= int2.length ==> SameState(smallerInt, int2) && SameState(biggerInt, int1)
  {
    if int1.length < int2.length {
      smallerInt := new IntX.Copy(int1);
      biggerInt := new IntX.Copy(int2);
    } else {
      smallerInt := new IntX.Copy(int2);
      biggerInt := new IntX.Copy(int1);
    }
  }

  // ---------------------------------------------------------------------------
  // Addition and subtraction

  /**
   * Adds the magnitudes and gives the sum the sign of int1 (the caller has
   * already decided that the signs agree). A zero int2 gives a copy of int1,
   * a zero int1 a copy of int2 with int1's sign. Fails when the longer
   * operand has exactly MaxIntValue limbs.
   */
  method Add(int1: IntX, int2: IntX) returns (r: Result<IntX>)
    requires int1.Valid() && int2.Valid()
    requires int1.length != 0 && int2.length != 0 ==> Limbs.Max(int1.length, int2.length) != Constants.MaxUInt32Value
    ensures r.Failure? <==> int1.length != 0 && int2.length != 0 && Limbs.Max(int1.length, int2.length) == Constants.MaxIntValue
    ensures r.Failure? ==> r.error == Argument
    ensures r.Success? ==> fresh(r.value) && r.value.Valid()
    ensures r.Success? ==> Mag(r.value) == Mag(int1) + Mag(int2) && r.value.negative == int1.negative
    ensures r.Success? && int1.Normal() && int2.Normal() ==> r.value.Normal()
  {
    if int2.length == 0 {
      var copy := new IntX.Copy(int1);
      assert int2.Magnitude() == [];
      return Success(copy);
    }
    if int1.length == 0 {
      var x := new IntX.Copy(int2);
      x.negative := int1.negative;
      assert int1.Magnitude() == [];
      return Success(x);
    }
    var smallerInt, biggerInt := GetMinMaxLengthObjects(int1, int2);
    if biggerInt.length == Constants.MaxIntValue {
      return Failure(Argument);
    }
    var newInt := AddMagnitudes(biggerInt.Magnitude(), smallerInt.Magnitude(), int1.negative);
    return Success(newInt);
  }

  /** The new object Add builds: one limb longer than the bigger operand, cut to the sum's length. */
  method AddMagnitudes(big: seq<uint32>, small: seq<uint32>, neg: bool) returns (r: IntX)
    requires |small| <= |big| && |big| + 1 < BASE
    ensures fresh(r) && r.Valid() && r.negative == neg
    ensures Val(r.Magnitude()) == Val(big) + Val(small)
    ensures Trimmed(big) && |big| >= 1 ==> Trimmed(r.Magnitude())
  {
    r := new IntX.WithLength(|big| + 1, neg);
    var buf := ZeroDigits(|big| + 1);
    var len := DigitOpHelper.Add(big, small, buf, 0);
    r.digits, r.length := buf[..], len;
    assert r.Magnitude() == buf[0..len];
    if Trimmed(big) && |big| >= 1 {
      SumTrimmed(big, small, buf[..len]);
    }
  }

  /** The sum of a trimmed run and a shorter one, stored at its real length, is trimmed. */
  lemma {:induction false} SumTrimmed(big: seq<uint32>, small: seq<uint32>, sum: seq<uint32>)
    requires Trimmed(big) && |big| >= 1 && |small| <= |big|
    requires |sum| == |big| + (if DigitOpHelper.AddCarries(big, small) then 1 else 0)
    requires Val(sum) == Val(big) + Val(small)
    requires DigitOpHelper.AddCarries(big, small) ==> sum[|sum| - 1] == 1
    ensures Trimmed(sum)
  {
    if !DigitOpHelper.AddCarries(big, small) {
      ValTopLower(big);
      TopLimbNonzero(sum);
    }
  }

  /**
   * The number Sub gives for two magnitudes that both have limbs. The bigger
   * one is picked the way DigitOpHelper.Cmp picks it, by length first and by
   * value only on equal lengths; the kernel's difference wraps modulo
   * BASE^(the bigger one's length); the sign is neg1, flipped when a was
   * picked as the smaller.
   */
  ghost function Difference(neg1: bool, a: seq<uint32>, b: seq<uint32>): int
  {
    var c := if |a| != |b| then DigitOpHelper.Sign(|a| - |b|) else DigitOpHelper.Sign(Val(a) - Val(b));
    if c == 0 then 0
    else if c < 0 then Signed(!neg1, (Val(b) - Val(a)) % Limbs.Pow(|b|))
    else Signed(neg1, (Val(a) - Val(b)) % Limbs.Pow(|a|))
  }

  /** On trimmed magnitudes the length-first order is the order of the values, and nothing wraps. */
  lemma {:induction false} DifferenceOfTrimmed(neg1: bool, a: seq<uint32>, b: seq<uint32>)
    requires Trimmed(a) && Trimmed(b)
    ensures Difference(neg1, a, b) == SignOf(neg1) * (Val(a) - Val(b))
  {
    ValBound(a);
    ValBound(b);
    if |a| < |b| {
      ValLengthOrder(a, b);
    } else if |b| < |a| {
      ValLengthOrder(b, a);
    }
    if Val(a) < Val(b) {
      ModSmall(Val(b) - Val(a), Limbs.Pow(|b|));
    } else if Val(b) < Val(a) {
      ModSmall(Val(a) - Val(b), Limbs.Pow(|a|));
    }
  }

  /**
   * Subtracts the magnitudes: the smaller from the bigger, with int1's sign
   * when int1 has the bigger magnitude and the opposite sign otherwise. A
   * zero-length int1 gives int2's magnitude negated, whatever int1's sign.
   * The bigger is decided by length first, so an operand with zero limbs on
   * top can be taken for the bigger one; see Difference.
   */
  method Sub(int1: IntX, int2: IntX) returns (r: IntX)
    requires int1.Valid() && int2.Valid()
    ensures fresh(r) && r.Valid()
    ensures int1.Normal() && int2.Normal() ==> r.Normal()
    ensures int1.length == 0 ==> r.Value() == -(Mag(int2) as int)
    ensures int1.length != 0 && int2.length == 0 ==> r.Value() == int1.Value()
    ensures int1.length != 0 && int2.length != 0 ==>
      r.Normal() && r.Value() == Difference(int1.negative, int1.Magnitude(), int2.Magnitude())
    ensures int1.length != 0 && int1.Normal() && int2.Normal() ==> r.Value() == SignOf(int1.negative) * (Mag(int1) - Mag(int2))
  {
    if int1.length == 0 {
      r := new IntX.FromDigitsLength(int2.digits, true, int2.length);
      return;
    }
    if int2.length == 0 {
      r := new IntX.Copy(int1);
      assert int2.Magnitude() == [];
      return;
    }
    r := SubNonZero(int1, int2);
    if int1.Normal() && int2.Normal() {
      DifferenceOfTrimmed(int1.negative, int1.Magnitude(), int2.Magnitude());
    }
  }

  /**
   * Sub for two operands with limbs. The operand DigitOpHelper.Cmp finds
   * smaller is named, and the sign is int1's flipped exactly when int1 is
   * that one.
   */
  method SubNonZero(int1: IntX, int2: IntX) returns (r: IntX)
    requires int1.Valid() && int2.Valid() && int1.length != 0 && int2.length != 0
    ensures fresh(r) && r.Normal()
    ensures r.Value() == Difference(int1.negative, int1.Magnitude(), int2.Magnitude())
  {
    var a, b := int1.Magnitude(), int2.Magnitude();
    var compareResult := DigitOpHelper.Cmp(a, b);
    if compareResult == 0 {
      r := new IntX();
      return;
    }
    // the source works on copies; a copy has the same storage, length and sign
    var smallerInt, biggerInt := if compareResult < 0 then int1 else int2, if compareResult < 0 then int2 else int1;
    var neg := ReferenceEquals(int1, smallerInt) != int1.negative;
    assert neg == ((compareResult < 0) != int1.negative) by {
      if compareResult > 0 {
        assert int1.length == int2.length && int1.digits == int2.digits ==> a == b;
      }
    }
    var big, small := biggerInt.Magnitude(), smallerInt.Magnitude();
    r := SubMagnitudes(big, small, neg);
  }

  /** The new object Sub builds: bigger - smaller with the sign chosen, wrapped to the bigger's limbs, at its real length. */
  method SubMagnitudes(big: seq<uint32>, small: seq<uint32>, neg: bool) returns (r: IntX)
    requires |small| <= |big| < BASE
    ensures fresh(r) && r.Normal() && r.Value() == Signed(neg, (Val(big) - Val(small)) % Limbs.Pow(|big|))
  {
    r := new IntX.WithLength(|big|, neg);
    var buf := ZeroDigits(|big|);
    var len := DigitOpHelper.Sub(big, small, buf, 0);
    r.digits, r.length := buf[..], len;
    assert r.Magnitude() == buf[0..len];
  }

  /**
   * What AddSub gives: the sum of the magnitudes with int1's sign when the
   * signs call for an addition, otherwise what Sub gives.
   */
  ghost function AddSubValue(neg1: bool, a: seq<uint32>, neg2: bool, b: seq<uint32>, subtract: bool): int
  {
    if (subtract != neg1) == neg2 then Signed(neg1, Val(a) + Val(b))
    else if |a| == 0 then -(Val(b) as int)
    else if |b| == 0 then Signed(neg1, Val(a))
    else Difference(neg1, a, b)
  }

  /** On trimmed magnitudes without a negative zero in front, AddSubValue is the signed sum or difference. */
  lemma {:induction false} AddSubValueExact(neg1: bool, a: seq<uint32>, neg2: bool, b: seq<uint32>, subtract: bool)
    requires Trimmed(a) && Trimmed(b) && !(|a| == 0 && neg1)
    ensures AddSubValue(neg1, a, neg2, b, subtract) ==
      if subtract then Signed(neg1, Val(a)) - Signed(neg2, Val(b)) else Signed(neg1, Val(a)) + Signed(neg2, Val(b))
  {
    if (subtract != neg1) != neg2 && |a| != 0 && |b| != 0 {
      DifferenceOfTrimmed(neg1, a, b);
    }
  }

  /**
   * a + b (or a - b): Add when the sign of int1 and the sign int2 enters with
   * agree, Sub otherwise. A zero int1 that carries a negative sign makes the
   * result wrong, and so does an operand with zero limbs on top; see
   * AddSubNormalized, NegativeZeroAddSub and UntrimmedAddSub.
   */
  method AddSub(int1: IntX, int2: IntX, subtract: bool) returns (r: Result<IntX>)
    requires int1.Valid() && int2.Valid() && Limbs.Max(int1.length, int2.length) != Constants.MaxUInt32Value
    ensures r.Failure? <==> (int1.length != 0 && int2.length != 0 && (subtract != int1.negative) == int2.negative &&
                             Limbs.Max(int1.length, int2.length) == Constants.MaxIntValue)
    ensures r.Failure? ==> r.error == Argument
    ensures r.Success? ==> fresh(r.value) && r.value.Valid()
    ensures r.Success? ==> r.value.Value() == AddSubValue(int1.negative, int1.Magnitude(), int2.negative, int2.Magnitude(), subtract)
    ensures r.Success? && int1.Normal() && int2.Normal() ==> r.value.Normal()
    ensures r.Success? && int1.Normal() && int2.Normal() && !(int1.length == 0 && int1.negative) ==>
      r.value.Value() == (if subtract then int1.Value() - int2.Value() else int1.Value() + int2.Value())
    ensures r.Success? && int1.length == 0 && int1.negative ==> r.value.Value() == -(Mag(int2) as int)
  {
    if (subtract != int1.negative) == int2.negative {
      r := Add(int1, int2);
    } else {
      var d := Sub(int1, int2);
      r := Success(d);
    }
    if r.Success? && int1.Normal() && int2.Normal() && !(int1.length == 0 && int1.negative) {
      AddSubValueExact(int1.negative, int1.Magnitude(), int2.negative, int2.Magnitude(), subtract);
    }
  }

  /**
   * AddSub on operands brought to normal form first: each length cut to the
   * real length, as GetRealDigitsLength finds it, and the sign of a zero
   * cleared, as Normalize does. Then a negative zero counts as zero and the
   * length-first comparison inside Sub is the order of the values.
   */
  method AddSubNormalized(int1: IntX, int2: IntX, subtract: bool) returns (r: Result<IntX>)
    requires int1.Valid() && int2.Valid() && Limbs.Max(int1.length, int2.length) != Constants.MaxUInt32Value
    ensures r.Failure? ==> r.error == Argument && Limbs.Max(int1.length, int2.length) >= Constants.MaxIntValue
    ensures r.Success? ==> fresh(r.value) && r.value.Normal()
    ensures r.Success? ==> r.value.Value() == (if subtract then int1.Value() - int2.Value() else int1.Value() + int2.Value())
  {
    var a := Trim(int1);
    var b := Trim(int2);
    r := AddSub(a, b, subtract);
  }

  /** A copy of x with its length cut to the real length and the sign of a zero cleared. */
  method Trim(x: IntX) returns (t: IntX)
    requires x.Valid()
    ensures fresh(t) && t.Normal() && t.Value() == x.Value() && t.length <= x.length
    ensures !(t.length == 0 && t.negative)
  {
    t := new IntX.Copy(x);
    var len := DigitHelper.GetRealDigitsLength(t.digits, t.length);
    assert t.digits[..len] == x.digits[..len];
    t.length := len;
    t.Normalize();
  }

  /**
   * A negative zero reaching AddSub: -1 & -2 keeps the negative sign of
   * both operands while the AND of the magnitudes 1 and 2 is empty. AddSub
   * then adds 3 to it and gets -3; AddSubNormalized gets 3.
   */
  method NegativeZeroAddSub() returns (zero: IntX, sum: Result<IntX>, fixed: Result<IntX>)
    ensures zero.Normal() && zero.length == 0 && zero.negative && zero.Value() == 0
    ensures sum.Success? && sum.value.Valid() && sum.value.Value() == -3
    ensures fixed.Success? && fixed.value.Valid() && fixed.value.Value() == 3
  {
    zero := MinusOneAndMinusTwo();
    var three := new IntX.FromInt32(3);
    sum := AddSub(zero, three, false);
    fixed := AddSubNormalized(zero, three, false);
  }

  /** -1 & -2: the AND of the magnitudes 1 and 2 is empty, and the sign of both operands is kept. */
  method MinusOneAndMinusTwo() returns (zero: IntX)
    ensures fresh(zero)
    ensures zero.Normal() && zero.length == 0 && zero.negative && zero.Value() == 0
  {
    var minusOne := new IntX.FromInt32(-1);
    var minusTwo := new IntX.FromInt32(-2);
    assert Mag(minusOne) == 1 && Mag(minusTwo) == 2;
    zero := BitwiseAnd(minusOne, minusTwo);
    BitwiseUnfold(AndOp, 1, 2);
    AndZero(0);
    ValTrimmedRange(zero.Magnitude());
  }

  /**
   * An operand with a zero limb on top reaching AddSub: the vector
   * constructor keeps {5, 0} at length 2. DigitOpHelper.Cmp takes it for
   * the bigger of 5 and 7 by its length, and the kernel's 5 - 7 wraps:
   * AddSub gives 2^64 - 2 for 5 - 7, AddSubNormalized gives -2.
   */
  method UntrimmedAddSub() returns (five: IntX, difference: Result<IntX>, fixed: Result<IntX>)
    ensures five.Valid() && !five.Normal() && five.Value() == 5
    ensures difference.Success? && difference.value.Valid() && difference.value.Value() == 0x1_0000_0000_0000_0000 - 2
    ensures fixed.Success? && fixed.value.Valid() && fixed.value.Value() == -2
  {
    five := new IntX.FromDigits([5, 0], false);
    assert five.Magnitude() == [5, 0];
    ghost var m := five.Magnitude();
    assert Val(m) == 5 by {
      ValSingle(5);
      ValAppend([5], 0);
      assert m == [5] + [0];
    }
    var seven := new IntX.FromInt32(7);
    assert seven.Magnitude() == [7] && Val(seven.Magnitude()) == 7 by { ValSingle(7); }
    difference := AddSub(five, seven, true);
    assert Limbs.Pow(2) == 0x1_0000_0000_0000_0000 by {
      assert Limbs.Pow(1) == BASE * Limbs.Pow(0);
    }
    assert (5 - 7) % 0x1_0000_0000_0000_0000 == 0x1_0000_0000_0000_0000 - 2;
    fixed := AddSubNormalized(five, seven, true);
  }

  // ---------------------------------------------------------------------------
  // Comparison

  /** Compares two numbers: -1, 0 or 1 as int1 is below, equal to or above int2. */
  method Cmp(int1: IntX, int2: IntX) returns (r: int)
    requires int1.Valid() && int2.Valid()
    ensures int1.Normal() && int2.Normal() ==> r == DigitOpHelper.Sign(int1.Value() - int2.Value())
  {
    if int1.Normal() && int2.Normal() {
      NormalNonZero(int1);
      NormalNonZero(int2);
    }
    if int1.length == 0 {
      if int2.length == 0 {
        return 0;
      } else if int2.negative {
        return 1;
      }
      return -1;
    } else if int2.length == 0 {
      if int1.negative {
        return -1;
      }
      return 1;
    }
    if int1.negative && !int2.negative {
      return -1;
    }
    if !int1.negative && int2.negative {
      return 1;
    }
    var c := DigitOpHelper.Cmp(int1.Magnitude(), int2.Magnitude());
    r := c * (if int1.negative then -1 else 1);
  }

  /**
   * Compares a number with a 32-bit signed integer. The decision is taken on
   * the length: a number with limbs counts as non-zero, and one with more
   * than one limb as beyond every 32-bit value, so only a trimmed number is
   * compared by its value throughout.
   */
  method CmpInt32(int1: IntX, int2: int32) returns (r: int)
    requires int1.Valid()
    ensures int1.Normal() ==> r == DigitOpHelper.Sign(int1.Value() - int2)
    ensures int1.length == 0 || (int1.length == 1 && int2 != 0) ==> r == DigitOpHelper.Sign(int1.Value() - int2)
    ensures int1.length != 0 && (int2 == 0 || int1.length > 1) ==> r == SignOf(int1.negative)
  {
    if int1.Normal() {
      NormalNonZero(int1);
    }
    if int2 == 0 {
      return if int1.length == 0 then 0 else (if int1.negative then -1 else 1);
    }
    if int1.length == 0 {
      return if int2 > 0 then -1 else 1;
    }
    if int1.length > 1 {
      return if int1.negative then -1 else 1;
    }
    var digit2, negative2 := DigitHelper.ToUInt32WithSign(int2);
    if int1.negative && !negative2 {
      return -1;
    }
    if !int1.negative && negative2 {
      return 1;
    }
    assert Val(int1.Magnitude()) == int1.digits[0] by {
      ValSingle(int1.digits[0]);
      assert int1.Magnitude() == [int1.digits[0]];
    }
    r := if int1.digits[0] == digit2 then 0 else (if (int1.digits[0] < digit2) != negative2 then -1 else 1);
  }

  /**
   * Compares a number with a 32-bit unsigned integer, deciding on the length
   * as CmpInt32 does: a negative number with limbs is below every int2, a
   * non-negative one with more than one limb above.
   */
  method CmpUInt32(int1: IntX, int2: uint32) returns (r: int)
    requires int1.Valid()
    ensures int1.Normal() ==> r == DigitOpHelper.Sign(int1.Value() - int2)
    ensures int2 != 0 && (int1.length <= 1 || int1.negative) ==> r == DigitOpHelper.Sign(int1.Value() - int2)
    ensures int1.length != 0 && (int2 == 0 || int1.length > 1) ==> r == SignOf(int1.negative)
  {
    if int1.Normal() {
      NormalNonZero(int1);
    }
    if int2 == 0 {
      return if int1.length == 0 then 0 else (if int1.negative then -1 else 1);
    }
    if int1.length == 0 {
      return -1;
    }
    if int1.negative {
      return -1;
    }
    if int1.length > 1 {
      return 1;
    }
    assert Val(int1.Magnitude()) == int1.digits[0] by {
      ValSingle(int1.digits[0]);
      assert int1.Magnitude() == [int1.digits[0]];
    }
    r := if int1.digits[0] == int2 then 0 else (if int1.digits[0] < int2 then -1 else 1);
  }

  /** The larger of two numbers; left when they are equal. */
  method Max(left: IntX, right: IntX) returns (r: IntX)
    requires left.Valid() && right.Valid()
    ensures fresh(r) && r.Valid()
    ensures left.Normal() && right.Normal() ==> r.Normal() && r.Value() == Limbs.Max(left.Value(), right.Value())
  {
    var c := Cmp(left, right);
    if c < 0 {
      r := new IntX.Copy(right);
    } else {
      r := new IntX.Copy(left);
    }
  }

  /** The smaller of two numbers; left when they are equal. */
  method Min(left: IntX, right: IntX) returns (r: IntX)
    requires left.Valid() && right.Valid()
    ensures fresh(r) && r.Valid()
    ensures left.Normal() && right.Normal() ==> r.Normal() && r.Value() == Limbs.Min(left.Value(), right.Value())
  {
    var c := Cmp(left, right);
    if c <= 0 {
      r := new IntX.Copy(left);
    } else {
      r := new IntX.Copy(right);
    }
  }

  /** |value|: a copy, negated when negative; a negative zero stays as it is. */
  method AbsoluteValue(value: IntX) returns (r: IntX)
    requires value.Valid()
    ensures fresh(r) && r.Valid() && r.length == value.length
    ensures r.Value() == (if value.Value() < 0 then -value.Value() else value.Value())
    ensures value.length != 0 ==> !r.negative
    ensures value.Normal() ==> r.Normal()
  {
    var copy := new IntX.Copy(value);
    if value.negative {
      r := copy.Negate();
    } else {
      r := copy;
    }
  }

  // ---------------------------------------------------------------------------
  // Powers

  /**
   * value^power by binary exponentiation from the bit below the top one:
   * square, then multiply by value when the bit is set. A zero power gives 1
   * (even for a zero value), a power of one a copy, a zero value zero, and a
   * value of 2 a shift of one. Fails with an ArgumentException when a product
   * gets too long.
   */
  method Pow(value: IntX, power: uint32) returns (r: Result<IntX>)
    requires value.Normal()
    ensures r.Failure? ==> r.error == Argument
    ensures r.Success? ==> fresh(r.value) && r.value.Normal()
    ensures r.Success? ==> r.value.Value() == IntPow(value.Value(), power)
    ensures power <= 1 || value.length == 0 ==> r.Success?
  {
    if power == 0 {
      var one := new IntX.FromInt32(1);
      return Success(one);
    }
    if power == 1 {
      var copy := new IntX.Copy(value);
      assert IntPow(value.Value(), 0) == 1;
      return Success(copy);
    }
    if value.length == 0 {
      var zero := new IntX();
      IntPowZero(power);
      return Success(zero);
    }
    var two := new IntX.FromInt32(2);
    var c := Cmp(value, two);
    if c == 0 {
      var one := new IntX.FromInt32(1);
      assert one.Magnitude() == [1];
      ValSingle(1);
      BitLengthOne();
      r := Sh(one, power as int64, true);
      IntPowTwo(power);
      return r;
    }
    r := PowBySquaring(value, power);
  }

  /**
   * The loop of Pow: the mask walks down from the bit below the top one;
   * res always holds value raised to the bits of power above the mask.
   */
  method PowBySquaring(value: IntX, power: uint32) returns (r: Result<IntX>)
    requires value.Normal() && power >= 2
    ensures r.Failure? ==> r.error == Argument
    ensures r.Success? ==> fresh(r.value) && r.value.Normal()
    ensures r.Success? ==> r.value.Value() == IntPow(value.Value(), power)
  {
    var msb := Msb(power);
    var res := new IntX.Copy(value);
    var powerMask: uint32 := Pow2(msb - 1);
    ghost var k: int := msb - 1;
    ghost var v := value.Value();
    ghost var p: nat := 1;
    DivPow2Top(power, msb);
    while powerMask != 0
      invariant -1 <= k < msb && powerMask == (if k >= 0 then Pow2(k) else 0)
      invariant p == power / Pow2(k + 1)
      invariant fresh(res) && res.Normal() && res.Value() == IntPow(v, p)
      decreases k + 1
    {
      var step := PowStep(value, res, power, powerMask, k, p);
      if step.Failure? {
        return Failure(step.error);
      }
      res := step.value;
      DivShrinks(power, powerMask);
      p := power / powerMask;
      assert powerMask / 2 == (if k >= 1 then Pow2(k - 1) else 0) by { HalveMask(k); }
      powerMask := powerMask / 2;
      k := k - 1;
    }
    assert Pow2(k + 1) == 1;
    assert p == power by { DivModUnique(power, 1, power, 0); }
    return Success(res);
  }

  /** Halving the mask 2^k moves it one bit down, or clears it. */
  lemma {:induction false} HalveMask(k: nat)
    ensures Pow2(k) / 2 == (if k >= 1 then Pow2(k - 1) else 0)
  {
    if k >= 1 {
      assert Pow2(k) == 2 * Pow2(k - 1);
    }
  }

  /** One pass of the loop: square res, then multiply by value when bit k of power is set. */
  method PowStep(value: IntX, res: IntX, power: uint32, powerMask: uint32, ghost k: nat, ghost p: nat)
    returns (r: Result<IntX>)
    requires value.Normal() && res.Normal() && res.Value() == IntPow(value.Value(), p)
    requires powerMask == Pow2(k) && p == power / Pow2(k + 1)
    ensures r.Failure? ==> r.error == Argument
    ensures r.Success? ==> fresh(r.value) && r.value.Normal()
    ensures r.Success? ==> r.value.Value() == IntPow(value.Value(), power / Pow2(k))
  {
    PowerBit(power, k);
    var sq := MultiplierBase.Multiply(res, res);
    if sq.Failure? {
      return Failure(sq.error);
    }
    var next := sq.value;
    var bit := And32(power, powerMask);
    AndPow2(power, k);
    if bit != 0 {
      var m := MultiplierBase.Multiply(next, value);
      if m.Failure? {
        return Failure(m.error);
      }
      next := m.value;
    }
    IntPowStep(value.Value(), p, if bit != 0 then 1 else 0);
    return Success(next);
  }

  /** 0^n == 0 for n >= 1. */
  lemma {:induction false} IntPowZero(n: nat)
    requires n >= 1
    ensures IntPow(0, n) == 0
  {
  }

  /** 2^n as a product is the power of two Pow2 names. */
  lemma {:induction false} IntPowTwo(n: nat)
    ensures IntPow(2, n) == Pow2(n)
  {
    if n > 0 {
      IntPowTwo(n - 1);
    }
  }

  /** One step of binary exponentiation: x^(2p + b) == (x^p)^2 x^b. */
  lemma {:induction false} IntPowStep(x: int, p: nat, b: nat)
    requires b <= 1
    ensures IntPow(x, 2 * p + b) == IntPow(x, p) * IntPow(x, p) * (if b == 1 then x else 1)
  {
    Radix.IntPowAdd(x, p, p);
    Radix.IntPowAdd(x, 2 * p, b);
  }

  /** The bit length of one is one. */
  lemma {:induction false} BitLengthOne()
    ensures BitLength(1) == 1
  {
  }

  /** A number with its top bit at msb shifted right by msb + 1 bits... is 1 after msb bits. */
  lemma {:induction false} DivPow2Top(x: nat, msb: nat)
    requires Pow2(msb) <= x < Pow2(msb + 1)
    ensures x / Pow2(msb) == 1
  {
    DivModUnique(x, Pow2(msb), 1, x - Pow2(msb));
  }

  /** Dropping k bits is dropping k + 1 bits, doubled, plus bit k. */
  lemma {:induction false} PowerBit(x: nat, k: nat)
    ensures x / Pow2(k) == 2 * (x / Pow2(k + 1)) + (x / Pow2(k)) % 2
  {
    Pow2Add(k, 1);
    Radix.DivDiv(x, Pow2(k), 2);
  }

  /** x & 2^k keeps exactly bit k of x. */
  lemma {:induction false} AndPow2(x: nat, k: nat)
    ensures Bitwise(AndOp, x, Pow2(k)) == Pow2(k) * ((x / Pow2(k)) % 2)
    ensures Bitwise(AndOp, x, Pow2(k)) != 0 <==> (x / Pow2(k)) % 2 == 1
  {
    BitwiseUnfold(AndOp, x, Pow2(k));
    if k == 0 {
      AndZero(x / 2);
    } else {
      AndPow2(x / 2, k - 1);
      Pow2Add(1, k - 1);
      Radix.DivDiv(x, 2, Pow2(k - 1));
    }
  }

  // ---------------------------------------------------------------------------
  // Bitwise operations

  /**
   * int1 | int2 on the magnitudes, negative when either operand is. A zero
   * operand gives a copy of the other one; otherwise the result has the
   * longer operand's length.
   */
  method BitwiseOr(int1: IntX, int2: IntX) returns (r: IntX)
    requires int1.Valid() && int2.Valid()
    ensures fresh(r) && r.Valid()
    ensures Mag(r) == Bitwise(OrOp, Mag(int1), Mag(int2))
    ensures int1.length == 0 ==> SameState(r, int2)
    ensures int1.length != 0 && int2.length == 0 ==> SameState(r, int1)
    ensures int1.length != 0 && int2.length != 0 ==>
      r.negative == (int1.negative || int2.negative) && r.length == Limbs.Max(int1.length, int2.length)
    ensures int1.Normal() && int2.Normal() ==> r.Normal()
  {
    BitwiseSymmetric(OrOp, Mag(int1), Mag(int2));
    if int1.length == 0 {
      r := new IntX.Copy(int2);
      OrZero(Mag(int2));
      return;
    }
    if int2.length == 0 {
      r := new IntX.Copy(int1);
      OrZero(Mag(int1));
      return;
    }
    // the source works on copies; a copy has the same storage, length and sign
    var smallerInt, biggerInt := if int1.length < int2.length then int1 else int2, if int1.length < int2.length then int2 else int1;
    r := OrMagnitudes(biggerInt.Magnitude(), smallerInt.Magnitude(), int1.negative || int2.negative);
  }

  /** The new object BitwiseOr builds: the OR at the longer operand's length. */
  method OrMagnitudes(big: seq<uint32>, small: seq<uint32>, neg: bool) returns (r: IntX)
    requires |small| <= |big| < BASE
    ensures fresh(r) && r.Valid() && r.negative == neg && r.length == |big|
    ensures Val(r.Magnitude()) == Bitwise(OrOp, Val(big), Val(small))
    ensures Trimmed(big) ==> Trimmed(r.Magnitude())
  {
    r := new IntX.WithLength(|big|, neg);
    var buf := ZeroDigits(|big|);
    DigitOpHelper.BitwiseOr(big, small, buf);
    r.digits := buf[..];
    assert r.Magnitude() == buf[..|big|];
    if Trimmed(big) && |big| >= 1 {
      OrGe(Val(big), Val(small));
      ValTrimmedRange(big);
      TopLimbNonzero(r.Magnitude());
    }
  }

  /**
   * int1 & int2 on the magnitudes, negative when both operands are; a zero
   * operand gives zero. The length is the real length of the AND of the
   * shorter operand's limbs, and the sign is kept even when that is zero.
   */
  method BitwiseAnd(int1: IntX, int2: IntX) returns (r: IntX)
    requires int1.Valid() && int2.Valid()
    ensures fresh(r) && r.Valid() && Trimmed(r.Magnitude())
    ensures Mag(r) == Bitwise(AndOp, Mag(int1), Mag(int2))
    ensures r.negative == (int1.length != 0 && int2.length != 0 && int1.negative && int2.negative)
  {
    BitwiseSymmetric(AndOp, Mag(int1), Mag(int2));
    if int1.length == 0 || int2.length == 0 {
      r := new IntX();
      AndZero(Mag(int1));
      AndZero(Mag(int2));
      return;
    }
    var smallerInt, biggerInt := if int1.length < int2.length then int1 else int2, if int1.length < int2.length then int2 else int1;
    r := AndMagnitudes(biggerInt.Magnitude(), smallerInt.Magnitude(), int1.negative && int2.negative);
  }

  /** The new object BitwiseAnd builds: the AND of the common limbs, at its real length. */
  method AndMagnitudes(big: seq<uint32>, small: seq<uint32>, neg: bool) returns (r: IntX)
    requires |small| <= |big| < BASE
    ensures fresh(r) && r.Valid() && r.negative == neg && Trimmed(r.Magnitude())
    ensures Val(r.Magnitude()) == Bitwise(AndOp, Val(big), Val(small))
  {
    r := new IntX.WithLength(|small|, neg);
    var buf := ZeroDigits(|small|);
    var len := DigitOpHelper.BitwiseAnd(big, small, |small|, buf);
    r.digits, r.length := buf[..], len;
    assert r.Magnitude() == buf[..len];
    DigitOpHelper.AndShorter(big, small);
  }

  /**
   * int1 ^ int2 on the magnitudes, negative when exactly one operand is. A
   * zero operand gives a copy of the other one; otherwise the length is the
   * real length of the XOR.
   */
  method ExclusiveOr(int1: IntX, int2: IntX) returns (r: IntX)
    requires int1.Valid() && int2.Valid()
    ensures fresh(r) && r.Valid()
    ensures Mag(r) == Bitwise(XorOp, Mag(int1), Mag(int2))
    ensures int1.length == 0 ==> SameState(r, int2)
    ensures int1.length != 0 && int2.length == 0 ==> SameState(r, int1)
    ensures int1.length != 0 && int2.length != 0 ==>
      r.negative == (int1.negative != int2.negative) && Trimmed(r.Magnitude())
  {
    BitwiseSymmetric(XorOp, Mag(int1), Mag(int2));
    if int1.length == 0 {
      r := new IntX.Copy(int2);
      XorZero(Mag(int2));
      return;
    }
    if int2.length == 0 {
      r := new IntX.Copy(int1);
      XorZero(Mag(int1));
      return;
    }
    var smallerInt, biggerInt := if int1.length < int2.length then int1 else int2, if int1.length < int2.length then int2 else int1;
    r := XorMagnitudes(biggerInt.Magnitude(), smallerInt.Magnitude(), int1.negative != int2.negative);
  }

  /** The new object ExclusiveOr builds: the XOR at its real length. */
  method XorMagnitudes(big: seq<uint32>, small: seq<uint32>, neg: bool) returns (r: IntX)
    requires |small| <= |big| < BASE
    ensures fresh(r) && r.Valid() && r.negative == neg && Trimmed(r.Magnitude())
    ensures Val(r.Magnitude()) == Bitwise(XorOp, Val(big), Val(small))
  {
    r := new IntX.WithLength(|big|, neg);
    var buf := ZeroDigits(|big|);
    var len := DigitOpHelper.ExclusiveOr(big, small, buf);
    r.digits, r.length := buf[..], len;
    assert r.Magnitude() == buf[..len];
  }

  /**
   * ~value: every bit of the value's limbs flipped, so the magnitude is
   * BASE^length - 1 minus the old one, and the sign flipped. Zero gives zero.
   */
  method OnesComplement(value: IntX) returns (r: IntX)
    requires value.Valid()
    ensures fresh(r) && r.Valid() && Trimmed(r.Magnitude())
    ensures value.length == 0 ==> r.length == 0 && !r.negative
    ensures value.length != 0 ==> Mag(r) == Limbs.Pow(value.length) - 1 - Mag(value) && r.negative == !value.negative
  {
    if value.length == 0 {
      r := new IntX();
      return;
    }
    var a := value.Magnitude();
    r := new IntX.WithLength(|a|, !value.negative);
    var buf := ZeroDigits(|a|);
    var len := DigitOpHelper.OnesComplement(a, buf);
    r.digits, r.length := buf[..], len;
    assert r.Magnitude() == buf[..len];
  }

  // ---------------------------------------------------------------------------
  // Shifts

  /** Whether Sh moves bits up: the direction asked for, reversed by a negative count. */
  predicate ShiftsLeft(shift: int, toLeft: bool)
  {
    toLeft != (shift < 0)
  }

  /** The magnitude a shift by |shift| bits promises: v times or divided by 2^|shift|. */
  ghost function ShiftedMagnitude(v: nat, shift: int, toLeft: bool): int
  {
    if ShiftsLeft(shift, toLeft) then v * Pow2(DigitHelper.Abs(shift))
    else v / Pow2(DigitHelper.Abs(shift))
  }

  /** Limbs that hold a number of bits: bits / 32 rounded up. */
  function LimbsFor(bits: nat): nat
  {
    bits / 32 + (if bits % 32 == 0 then 0 else 1)
  }

  /**
   * Shifts a number by |shift| bits, to the left when toLeft is set and the
   * count is not negative or toLeft is clear and the count is negative. A
   * right shift past the last bit gives zero; a left shift beyond
   * MaxBitCount bits fails with an ArgumentException. The result has exactly
   * the limbs its bits need, and keeps the sign unless it is zero.
   */
  method Sh(intX: IntX, shift: int64, toLeft: bool) returns (r: Result<IntX>)
    requires intX.Normal()
    ensures r.Failure? <==> intX.length != 0 && ShiftsLeft(shift, toLeft) && BitLength(Mag(intX)) + DigitHelper.Abs(shift) > Constants.MaxBitCount
    ensures r.Failure? ==> r.error == Argument
    ensures r.Success? ==> fresh(r.value) && r.value.Normal()
    ensures r.Success? ==> Mag(r.value) == ShiftedMagnitude(Mag(intX), shift, toLeft)
    ensures r.Success? ==> r.value.negative == (intX.negative && r.value.length != 0)
  {
    if intX.length == 0 {
      var zero := new IntX();
      assert intX.Magnitude() == [];
      return Success(zero);
    }
    if shift == 0 {
      var copy := new IntX.Copy(intX);
      NoOverflowWithoutShift(intX.Magnitude());
      NoShift(Mag(intX), toLeft);
      return Success(copy);
    }
    var bitCount, negativeShift := DigitHelper.ToUInt64WithSign(shift);
    var left := toLeft != negativeShift;
    var src := intX.Magnitude();
    ghost var v := Val(src);
    assert Mag(intX) == v;
    ShiftedMagnitudeIs(v, shift, toLeft, bitCount, left);
    assert (intX.length != 0 && ShiftsLeft(shift, toLeft) && BitLength(v) + DigitHelper.Abs(shift) > Constants.MaxBitCount)
      == (left && BitLength(v) + bitCount > Constants.MaxBitCount);
    r := ShiftBits(src, intX.negative, bitCount, left);
  }

  /** A shift by zero bits changes nothing. */
  lemma {:induction false} NoShift(v: nat, toLeft: bool)
    ensures ShiftedMagnitude(v, 0, toLeft) == v
  {
    assert Pow2(0) == 1;
  }

  /** ShiftedMagnitude once the count and the direction are worked out. */
  lemma {:induction false} ShiftedMagnitudeIs(v: nat, shift: int, toLeft: bool, bitCount: nat, left: bool)
    requires bitCount == DigitHelper.Abs(shift) && left == ShiftsLeft(shift, toLeft)
    ensures ShiftedMagnitude(v, shift, toLeft) == if left then v * Pow2(bitCount) else v / Pow2(bitCount)
  {
  }

  /** A number that fits in an IntX has at most MaxBitCount bits. */
  lemma {:induction false} NoOverflowWithoutShift(src: seq<uint32>)
    requires Trimmed(src) && 1 <= |src| < BASE
    ensures BitLength(Val(src)) <= Constants.MaxBitCount
  {
    BitLengthOfLimbs(src);
  }

  /**
   * Sh once the count is a bit count and the direction is known: the bit
   * length is worked out from the top limb, and the new length from the new
   * bit count.
   */
  method ShiftBits(src: seq<uint32>, negative: bool, bitCount: nat, left: bool) returns (r: Result<IntX>)
    requires Trimmed(src) && 1 <= |src| < BASE
    ensures r.Failure? <==> left && BitLength(Val(src)) + bitCount > Constants.MaxBitCount
    ensures r.Failure? ==> r.error == Argument
    ensures r.Success? ==> fresh(r.value) && r.value.Normal() && r.value.negative == (negative && r.value.length != 0)
    ensures r.Success? ==> Val(r.value.Magnitude()) == if left then Val(src) * Pow2(bitCount) else Val(src) / Pow2(bitCount)
  {
    BitLengthOfLimbs(src);
    var msb := Msb(src[|src| - 1]);
    var intXBitCount := (|src| - 1) * Constants.DigitBitCount + msb + 1;
    if !left && bitCount >= intXBitCount {
      var zero := new IntX();
      ShiftedOut(Val(src), intXBitCount, bitCount);
      return Success(zero);
    }
    var newBitCount := if left then intXBitCount + bitCount else intXBitCount - bitCount;
    if left && newBitCount > Constants.MaxBitCount {
      return Failure(Argument);
    }
    var newLength := newBitCount / Constants.DigitBitCount + (if newBitCount % Constants.DigitBitCount == 0 then 0 else 1);
    assert newLength < BASE by {
      if left {
        LimbsForAtMost(newBitCount, BASE - 1);
      } else {
        LimbsForAtMost(newBitCount, |src|);
      }
    }
    var newInt := Shifted(src, negative, bitCount, left, newLength);
    return Success(newInt);
  }

  /** The new number of ShiftBits: its newLength limbs are src shifted by bitCount bits. */
  method Shifted(src: seq<uint32>, negative: bool, bitCount: nat, left: bool, newLength: nat) returns (x: IntX)
    requires Trimmed(src) && |src| >= 1 && newLength < BASE
    requires left ==> newLength == LimbsFor(32 * (|src| - 1) + BitLength(src[|src| - 1]) + bitCount)
    requires !left ==> bitCount < 32 * (|src| - 1) + BitLength(src[|src| - 1])
    requires !left ==> newLength == LimbsFor(32 * (|src| - 1) + BitLength(src[|src| - 1]) - bitCount)
    ensures fresh(x) && x.Normal() && x.negative == negative && x.length == newLength
    ensures Val(x.Magnitude()) == if left then Val(src) * Pow2(bitCount) else Val(src) / Pow2(bitCount)
  {
    x := new IntX.WithLength(newLength, negative);
    var buf := ZeroDigits(newLength);
    if left {
      ShiftLeftInto(src, bitCount, buf);
    } else {
      ShiftRightInto(src, bitCount, buf);
    }
    x.digits := buf[..];
    assert x.Magnitude() == buf[..];
  }

  /** Shifting right by at least the bit length leaves nothing. */
  lemma {:induction false} ShiftedOut(v: nat, b: nat, count: nat)
    requires BitLength(v) == b && b <= count
    ensures v / Pow2(count) == 0
  {
    BitLengthBounds(v);
    Pow2Monotone(b, count);
    DivZero(v, Pow2(count));
  }

  /** N bits need at most k limbs when N <= 32 k. */
  lemma {:induction false} LimbsForAtMost(n: nat, k: nat)
    requires n <= 32 * k
    ensures LimbsFor(n) <= k
  {
    assert n == 32 * (n / 32) + n % 32;
  }

  /** 32 k + t bits, 1 <= t <= 64, take k + 1 limbs, or k + 2 when t > 32. */
  lemma {:induction false} LimbsForSplit(k: nat, t: nat)
    requires 1 <= t <= 64
    ensures LimbsFor(32 * k + t) == k + (if t <= 32 then 1 else 2)
  {
    var n := 32 * k + t;
    if t == 32 {
      DivModUnique(n, 32, k + 1, 0);
    } else if t == 64 {
      DivModUnique(n, 32, k + 2, 0);
    } else if t < 32 {
      DivModUnique(n, 32, k, t);
    } else {
      DivModUnique(n, 32, k + 1, t - 32);
    }
  }

  /** A run of exactly the limbs N bits need, worth at least 2^(N-1), is trimmed. */
  lemma {:induction false} TrimmedByBits(s: seq<uint32>, n: nat)
    requires n >= 1 && |s| == LimbsFor(n) && Val(s) >= Pow2(n - 1)
    ensures Trimmed(s)
  {
    assert n == 32 * (n / 32) + n % 32;
    assert |s| >= 1 && 32 * (|s| - 1) <= n - 1;
    PowIsPow2(|s| - 1);
    Pow2Monotone(32 * (|s| - 1), n - 1);
    TopLimbNonzero(s);
  }

  /** The bit length of a trimmed run: 32 bits per lower limb, plus the top limb's own. */
  lemma {:induction false} BitLengthOfLimbs(s: seq<uint32>)
    requires Trimmed(s) && |s| >= 1
    ensures BitLength(Val(s)) == 32 * (|s| - 1) + BitLength(s[|s| - 1])
    ensures 1 <= BitLength(s[|s| - 1]) <= 32
  {
    var n := |s| - 1;
    var t := s[n];
    var b := BitLength(t);
    BitLengthWord(t);
    ValLast(s);
    ValBound(s[..n]);
    var bits := 32 * n + b;
    PowIsPow2(n);
    Pow2Sum(32 * n, b - 1, bits - 1);
    Pow2Sum(32 * n, b, bits);
    TopLimbBounds(Val(s[..n]), t, Limbs.Pow(n), Pow2(b - 1), Pow2(b), Val(s));
    BitLengthUnique(Val(s), bits);
  }

  /** lo + p t with lo < p and h0 <= t < h1 lies in [p h0, p h1). */
  lemma {:induction false} TopLimbBounds(lo: int, t: int, p: int, h0: int, h1: int, v: int)
    requires 0 <= lo < p && 0 <= h0 <= t < h1 && v == lo + p * t
    ensures p * h0 <= v < p * h1
  {
    MulLe(h0, t, p);
    MulLe(t + 1, h1, p);
  }

  /** A word is shifted out entirely exactly when it has no more bits than the shift. */
  lemma {:induction false} ShrZeroIffShort(x: uint32, s: nat)
    requires x > 0
    ensures Shr32(x, s) == 0 <==> BitLength(x) <= s
  {
    BitLengthWord(x);
    DivZero(x, Pow2(s));
    var b := BitLength(x);
    if b <= s {
      Pow2Monotone(b, s);
    } else {
      Pow2Monotone(s, b - 1);
    }
  }

  /** The limbs from k upwards are the value divided by BASE^k. */
  lemma {:induction false} HighLimbs(s: seq<uint32>, k: nat)
    requires k <= |s|
    ensures Val(s[k..]) == Val(s) / Limbs.Pow(k)
  {
    ValSplit(s, k);
    ValBound(s[..k]);
    MulComm(Limbs.Pow(k), Val(s[k..]));
    DivModUnique(Val(s), Limbs.Pow(k), Val(s[k..]), Val(s[..k]));
  }

  /** Left shift: the value scaled by 2^count, and the lower bound that makes it trimmed. */
  lemma {:induction false} ShlLower(v: nat, b: nat, count: nat, m: nat, w: int)
    requires b >= 1 && v >= Pow2(b - 1) && m == b + count && w == v * Pow2(count)
    ensures w >= Pow2(m - 1)
  {
    Pow2Add(b - 1, count);
    MulLe(Pow2(b - 1), v, Pow2(count));
  }

  /** Right shift by less than the bit length keeps at least the top bit. */
  lemma {:induction false} ShrLower(v: nat, b: nat, count: nat, m: nat, w: int)
    requires count < b && v >= Pow2(b - 1) && m == b - count && w == v / Pow2(count)
    ensures w >= Pow2(m - 1)
  {
    Pow2Add(b - 1 - count, count);
    DigitOpHelper.DivLowerBound(v, Pow2(b - 1 - count), Pow2(count), 1);
  }

  /**
   * The left shift proper: whole limbs are moved up by count / 32, and a
   * remaining shift of 1..31 bits is done by shifting right by the rest of a
   * limb into one limb higher.
   */
  method ShiftLeftInto(src: seq<uint32>, bitCount: nat, buf: array<uint32>)
    requires Trimmed(src) && |src| >= 1
    requires buf.Length == LimbsFor(32 * (|src| - 1) + BitLength(src[|src| - 1]) + bitCount)
    requires buf[..] == Zeros(buf.Length)
    modifies buf
    ensures Val(buf[..]) == Val(src) * Pow2(bitCount) && Trimmed(buf[..])
  {
    var n := |src|;
    var b := BitLength(src[n - 1]);
    assert 1 <= b <= 32 by { BitLengthOfLimbs(src); }
    ghost var v := Val(src);
    var fullDigits := bitCount / 32;
    var smallShift := bitCount % 32;
    assert bitCount == 32 * fullDigits + smallShift;
    if smallShift == 0 {
      assert buf.Length == fullDigits + n by { LimbsForSplit(n - 1 + fullDigits, b); }
      ShlLimbs(src, fullDigits, buf);
    } else {
      assert buf.Length == fullDigits + 1 + DigitOpHelper.ShrLength(src, 32 - smallShift) by {
        ShrZeroIffShort(src[n - 1], 32 - smallShift);
        LimbsForSplit(n - 1 + fullDigits, b + smallShift);
      }
      ShlBits(src, fullDigits, smallShift, buf);
    }
    assert Val(buf[..]) == v * Pow2(bitCount) by {
      PowIsPow2(fullDigits);
      Pow2Sum(32 * fullDigits, smallShift, bitCount);
      ScaleTwice(v, Limbs.Pow(fullDigits), Pow2(smallShift), Pow2(bitCount), Val(buf[..]));
    }
    ShlTrimmed(src, bitCount, buf[..]);
  }

  /** (v / p) / q == v / (p q), with the product p q named. */
  lemma {:induction false} DivTwice(v: int, p: int, q: int, pq: int, w: int, r: int)
    requires v >= 0 && p > 0 && q > 0 && pq == p * q && w == v / p && r == w / q
    ensures r == v / pq
  {
    Radix.DivDiv(v, p, q);
  }

  /** p (v q) == v (p q), with the product p q named. */
  lemma {:induction false} ScaleTwice(v: int, p: int, q: int, pq: int, r: int)
    requires pq == p * q && r == p * (v * q)
    ensures r == v * pq
  {
  }

  /** Whole-limb left shift: src copied fd limbs up over zeros. */
  method ShlLimbs(src: seq<uint32>, fd: nat, buf: array<uint32>)
    requires buf.Length == fd + |src| && buf[..] == Zeros(buf.Length)
    modifies buf
    ensures Val(buf[..]) == Limbs.Pow(fd) * (Val(src) * Pow2(0))
  {
    DigitHelper.DigitsBlockCopy(src, buf, fd, |src|);
    ghost var r := buf[..];
    assert r[fd..] == src;
    assert AllZero(r[..fd]);
    ValSplit(r, fd);
    ValAllZero(r[..fd]);
    assert Pow2(0) == 1;
  }

  /** Left shift with 1..31 extra bits: a right shift by 32 - ss into limb fd + 1, over zeros. */
  method ShlBits(src: seq<uint32>, fd: nat, ss: nat, buf: array<uint32>)
    requires |src| >= 1 && 1 <= ss <= 31
    requires buf.Length == fd + 1 + DigitOpHelper.ShrLength(src, 32 - ss)
    requires buf[..] == Zeros(buf.Length)
    modifies buf
    ensures Val(buf[..]) == Limbs.Pow(fd) * (Val(src) * Pow2(ss))
  {
    assert src[0..|src|] == src;
    ghost var n := DigitOpHelper.ShrAt(src, 0, |src|, buf, fd + 1, 32 - ss);
    ghost var r := buf[..];
    assert r[fd..] == buf[fd..buf.Length];
    forall k | 0 <= k < fd
      ensures r[k] == 0
    {
      assert old(buf[..])[k] == 0;
    }
    assert AllZero(r[..fd]);
    ValSplit(r, fd);
    ValAllZero(r[..fd]);
  }

  /**
   * The right shift proper: whole limbs are dropped, and a remaining shift of
   * 1..31 bits is done on the limbs from count / 32 upwards. The length the
   * source computes is one short when the top limb loses no bits; it is
   * raised back, so every source limb is read.
   */
  method ShiftRightInto(src: seq<uint32>, bitCount: nat, buf: array<uint32>)
    requires Trimmed(src) && |src| >= 1
    requires bitCount < 32 * (|src| - 1) + BitLength(src[|src| - 1])
    requires buf.Length == LimbsFor(32 * (|src| - 1) + BitLength(src[|src| - 1]) - bitCount)
    requires buf[..] == Zeros(buf.Length)
    modifies buf
    ensures Val(buf[..]) == Val(src) / Pow2(bitCount) && Trimmed(buf[..])
  {
    var n := |src|;
    BitLengthOfLimbs(src);
    var b := BitLength(src[n - 1]);
    ghost var v := Val(src);
    var fullDigits := bitCount / 32;
    var smallShift := bitCount % 32;
    assert bitCount == 32 * fullDigits + smallShift;
    ghost var high := Val(src[fullDigits..]);
    HighLimbs(src, fullDigits);
    PowIsPow2(fullDigits);
    Pow2Sum(32 * fullDigits, smallShift, bitCount);
    if smallShift == 0 {
      LimbsForSplit(n - 1 - fullDigits, b);
      ShrLimbsCopy(src, fullDigits, buf);
    } else {
      ShrLengthFits(src, bitCount, buf.Length);
      var newLength := buf.Length;
      if newLength < n - fullDigits {
        newLength := newLength + 1;
      }
      ShrBits(src, fullDigits, newLength, smallShift, buf);
    }
    DivTwice(v, Limbs.Pow(fullDigits), Pow2(smallShift), Pow2(bitCount), high, Val(buf[..]));
    ShrTrimmed(src, bitCount, buf[..]);
  }

  /**
   * The length a right shift by 32 fd + ss bits (ss in 1..31) is given is
   * the length of the shifted limbs from fd upwards, and is the source's
   * newLength less one exactly when the top limb is shifted out.
   */
  lemma {:induction false} ShrLengthFits(src: seq<uint32>, bitCount: nat, len: nat)
    requires Trimmed(src) && |src| >= 1 && bitCount % 32 != 0
    requires bitCount < 32 * (|src| - 1) + BitLength(src[|src| - 1])
    requires len == LimbsFor(32 * (|src| - 1) + BitLength(src[|src| - 1]) - bitCount)
    ensures bitCount / 32 < |src|
    ensures len == DigitOpHelper.ShrLength(src[bitCount / 32..], bitCount % 32)
    ensures (if len < |src| - bitCount / 32 then len + 1 else len) == |src| - bitCount / 32
  {
    var n := |src|;
    var fd := bitCount / 32;
    var ss := bitCount % 32;
    BitLengthWord(src[n - 1]);
    var b := BitLength(src[n - 1]);
    ShrLengthCount(n, fd, ss, b, len);
    ShrZeroIffShort(src[n - 1], ss);
    assert src[fd..][n - fd - 1] == src[n - 1];
  }

  /** The limb count of 32 (n - 1) + b - 32 fd - ss bits: one limb fewer than n - fd exactly when b <= ss. */
  lemma {:induction false} ShrLengthCount(n: nat, fd: nat, ss: nat, b: nat, len: nat)
    requires n >= 1 && 0 < ss < 32 && 1 <= b <= 32
    requires 32 * fd + ss < 32 * (n - 1) + b
    requires len == LimbsFor(32 * (n - 1) + b - (32 * fd + ss))
    ensures fd < n
    ensures len == (if b <= ss then n - fd - 1 else n - fd)
  {
    if b > ss {
      LimbsForSplit(n - 1 - fd, b - ss);
    } else {
      LimbsForSplit(n - 2 - fd, 32 + b - ss);
    }
  }

  /** A right shift into the limbs its bit count needs leaves a trimmed run. */
  lemma {:induction false} ShrTrimmed(src: seq<uint32>, bitCount: nat, r: seq<uint32>)
    requires Trimmed(src) && |src| >= 1
    requires bitCount < 32 * (|src| - 1) + BitLength(src[|src| - 1])
    requires |r| == LimbsFor(32 * (|src| - 1) + BitLength(src[|src| - 1]) - bitCount)
    requires Val(r) == Val(src) / Pow2(bitCount)
    ensures Trimmed(r)
  {
    var bits := 32 * (|src| - 1) + BitLength(src[|src| - 1]);
    var m := bits - bitCount;
    BitLengthOfLimbs(src);
    BitLengthBounds(Val(src));
    ShrLower(Val(src), bits, bitCount, m, Val(r));
    TrimmedByBits(r, m);
  }

  /** A left shift into the limbs its bit count needs leaves a trimmed run. */
  lemma {:induction false} ShlTrimmed(src: seq<uint32>, bitCount: nat, r: seq<uint32>)
    requires Trimmed(src) && |src| >= 1
    requires |r| == LimbsFor(32 * (|src| - 1) + BitLength(src[|src| - 1]) + bitCount)
    requires Val(r) == Val(src) * Pow2(bitCount)
    ensures Trimmed(r)
  {
    var bits := 32 * (|src| - 1) + BitLength(src[|src| - 1]);
    var m := bits + bitCount;
    BitLengthOfLimbs(src);
    BitLengthBounds(Val(src));
    ShlLower(Val(src), bits, bitCount, m, Val(r));
    TrimmedByBits(r, m);
  }

  /** Whole-limb right shift: the limbs from fd upwards copied down. */
  method ShrLimbsCopy(src: seq<uint32>, fd: nat, buf: array<uint32>)
    requires fd <= |src| && buf.Length == |src| - fd
    modifies buf
    ensures buf[..] == src[fd..] && Val(buf[..]) == Val(src[fd..]) / Pow2(0)
  {
    DigitHelper.DigitsBlockCopy(src[fd..fd + buf.Length], buf, 0, buf.Length);
    assert buf[..] == buf[0..buf.Length];
    assert Pow2(0) == 1;
  }

  /** Right shift with 1..31 extra bits of the len limbs from fd upwards. */
  method ShrBits(src: seq<uint32>, fd: nat, len: nat, ss: nat, buf: array<uint32>)
    requires fd + len == |src| && len >= 1 && 1 <= ss <= 31
    requires buf.Length == DigitOpHelper.ShrLength(src[fd..], ss)
    modifies buf
    ensures Val(buf[..]) == Val(src[fd..]) / Pow2(ss)
  {
    assert src[fd..fd + len] == src[fd..];
    ghost var n := DigitOpHelper.ShrAt(src, fd, len, buf, 0, ss);
    assert buf[0..buf.Length] == buf[..];
  }

  /** Shifting left and then right by the same count gives the magnitude back. */
  lemma {:induction false} ShiftRoundTrip(v: nat, shift: int)
    ensures ShiftedMagnitude(ShiftedMagnitude(v, shift, shift >= 0), shift, shift < 0) == v
  {
    var p := Pow2(DigitHelper.Abs(shift));
    MulComm(v, p);
    DivModUnique(v * p, p, v, 0);
  }
}
