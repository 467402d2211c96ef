/**
 * The operators of IntX that are built on OpHelper: the six comparisons
 * (all through Cmp), binary plus and minus, and the increment and decrement
 * operators, which assign the sum back into the number itself.
 */
module IntXOperators {
  import opened Limbs
  import opened Errors
  import opened BigInteger
  import Constants
  import OpHelper

  /** int1 == int2: Cmp reports equality. */
  method Equals(int1: IntX, int2: IntX) returns (r: bool)
    requires int1.Valid() && int2.Valid()
    ensures int1.Normal() && int2.Normal() ==> (r <==> int1.Value() == int2.Value())
  {
    var c := OpHelper.Cmp(int1, int2);
    r := c == 0;
  }

  /** int1 != int2: the negation of ==. */
  method NotEquals(int1: IntX, int2: IntX) returns (r: bool)
    requires int1.Valid() && int2.Valid()
    ensures int1.Normal() && int2.Normal() ==> (r <==> int1.Value() != int2.Value())
  {
    var e := Equals(int1, int2);
    r := !e;
  }

  /** int1 > int2: Cmp is positive. */
  method Greater(int1: IntX, int2: IntX) returns (r: bool)
    requires int1.Valid() && int2.Valid()
    ensures int1.Normal() && int2.Normal() ==> (r <==> int1.Value() > int2.Value())
  {
    var c := OpHelper.Cmp(int1, int2);
    r := c > 0;
  }

  /** int1 < int2: Cmp is negative. */
  method Less(int1: IntX, int2: IntX) returns (r: bool)
    requires int1.Valid() && int2.Valid()
    ensures int1.Normal() && int2.Normal() ==> (r <==> int1.Value() < int2.Value())
  {
    var c := OpHelper.Cmp(int1, int2);
    r := c < 0;
  }

  /** int1 >= int2, written as not int1 < int2. */
  method GreaterOrEqual(int1: IntX, int2: IntX) returns (r: bool)
    requires int1.Valid() && int2.Valid()
    ensures int1.Normal() && int2.Normal() ==> (r <==> int1.Value() >= int2.Value())
  {
    var l := Less(int1, int2);
    r := !l;
  }

  /** int1 <= int2, written as not int2 < int1. */
  method LessOrEqual(int1: IntX, int2: IntX) returns (r: bool)
    requires int1.Valid() && int2.Valid()
    ensures int1.Normal() && int2.Normal() ==> (r <==> int1.Value() <= int2.Value())
  {
    var l := Less(int2, int1);
    r := !l;
  }

  /**
   * int1 + int2: AddSub as it stands, so a zero int1 that carries a negative
   * sign gives the magnitude of int2 negated, and an operand with zero limbs
   * on top can make the difference wrap (OpHelper.Difference).
   */
  method Add(int1: IntX, int2: IntX) returns (r: Result<IntX>)
    requires int1.Valid() && int2.Valid() && Max(int1.length, int2.length) != Constants.MaxUInt32Value
    ensures r.Failure? ==> r.error == Argument && Max(int1.length, int2.length) == Constants.MaxIntValue
    ensures r.Success? ==> fresh(r.value) && r.value.Valid()
    ensures r.Success? ==> r.value.Value() == OpHelper.AddSubValue(int1.negative, int1.Magnitude(), int2.negative, int2.Magnitude(), false)
    ensures r.Success? && int1.Normal() && int2.Normal() ==> r.value.Normal()
    ensures r.Success? && int1.Normal() && int2.Normal() && !(int1.length == 0 && int1.negative) ==> r.value.Value() == int1.Value() + int2.Value()
    ensures r.Success? && int1.length == 0 && int1.negative ==> r.value.Value() == -(OpHelper.Mag(int2) as int)
  {
    r := OpHelper.AddSub(int1, int2, false);
  }

  /** int1 - int2: AddSub with subtract set, negative zero and untrimmed operands included. */
  method Subtract(int1: IntX, int2: IntX) returns (r: Result<IntX>)
    requires int1.Valid() && int2.Valid() && Max(int1.length, int2.length) != Constants.MaxUInt32Value
    ensures r.Failure? ==> r.error == Argument && Max(int1.length, int2.length) == Constants.MaxIntValue
    ensures r.Success? ==> fresh(r.value) && r.value.Valid()
    ensures r.Success? ==> r.value.Value() == OpHelper.AddSubValue(int1.negative, int1.Magnitude(), int2.negative, int2.Magnitude(), true)
    ensures r.Success? && int1.Normal() && int2.Normal() ==> r.value.Normal()
    ensures r.Success? && int1.Normal() && int2.Normal() && !(int1.length == 0 && int1.negative) ==> r.value.Value() == int1.Value() - int2.Value()
    ensures r.Success? && int1.length == 0 && int1.negative ==> r.value.Value() == -(OpHelper.Mag(int2) as int)
  {
    r := OpHelper.AddSub(int1, int2, true);
  }

  /**
   * x += int2 (x -= int2 with subtract set): the result of AddSub replaces
   * the state of x and a copy of the new x is returned. When AddSub fails x
   * keeps its state.
   */
  method AddAssign(x: IntX, int2: IntX, subtract: bool) returns (r: Result<IntX>)
    requires x.Valid() && int2.Valid() && Max(x.length, int2.length) != Constants.MaxUInt32Value
    modifies x
    ensures r.Failure? ==> r.error == Argument && old(Max(x.length, int2.length)) == Constants.MaxIntValue && unchanged(x)
    ensures r.Success? ==> x.Valid() && fresh(r.value) && SameState(r.value, x)
    ensures r.Success? ==> x.Value() == old(OpHelper.AddSubValue(x.negative, x.Magnitude(), int2.negative, int2.Magnitude(), subtract))
    ensures r.Success? && old(x.Normal() && int2.Normal()) ==> x.Normal()
    ensures r.Success? && old(x.Normal() && int2.Normal()) && !old(x.length == 0 && x.negative) ==>
      x.Value() == (if subtract then old(x.Value()) - old(int2.Value()) else old(x.Value()) + old(int2.Value()))
    ensures r.Success? && old(x.length == 0 && x.negative) ==> x.Value() == -(old(OpHelper.Mag(int2)) as int)
  {
    var sum := OpHelper.AddSub(x, int2, subtract);
    if sum.Failure? {
      return Failure(sum.error);
    }
    x.digits, x.length, x.negative := sum.value.digits, sum.value.length, sum.value.negative;
    var copy := new IntX.Copy(x);
    return Success(copy);
  }

  /**
   * ++x: x += 1, and the new value is returned; a negative zero becomes -1,
   * and an x with zero limbs on top is added to as its limbs stand.
   */
  method PreIncrement(x: IntX) returns (r: Result<IntX>)
    requires x.Valid() && x.length != Constants.MaxUInt32Value
    modifies x
    ensures r.Failure? ==> r.error == Argument && old(x.length) == Constants.MaxIntValue && unchanged(x)
    ensures r.Success? ==> x.Valid() && x.Value() == old(OpHelper.AddSubValue(x.negative, x.Magnitude(), false, [1], false))
    ensures r.Success? && old(x.Normal()) ==> x.Normal() && x.Value() == if old(x.length == 0 && x.negative) then -1 else old(x.Value()) + 1
    ensures r.Success? ==> fresh(r.value) && r.value.Valid() && r.value.Value() == x.Value()
  {
    var one := new IntX.FromInt32(1);
    assert one.Magnitude() == [1];
    r := AddAssign(x, one, false);
  }

  /** x++: x += 1, and a copy of the old value is returned. */
  method PostIncrement(x: IntX) returns (r: Result<IntX>)
    requires x.Valid() && x.length != Constants.MaxUInt32Value
    modifies x
    ensures r.Failure? ==> r.error == Argument && old(x.length) == Constants.MaxIntValue && unchanged(x)
    ensures r.Success? ==> x.Valid() && x.Value() == old(OpHelper.AddSubValue(x.negative, x.Magnitude(), false, [1], false))
    ensures r.Success? && old(x.Normal()) ==> x.Normal() && x.Value() == if old(x.length == 0 && x.negative) then -1 else old(x.Value()) + 1
    ensures r.Success? ==> fresh(r.value) && r.value.Valid() && r.value.Value() == old(x.Value())
  {
    var temp := new IntX.Copy(x);
    var one := new IntX.FromInt32(1);
    assert one.Magnitude() == [1];
    var s := AddAssign(x, one, false);
    if s.Failure? {
      return Failure(s.error);
    }
    return Success(temp);
  }

  /**
   * --x: x -= 1, and the new value is returned. An x with a zero limb on
   * top can wrap, as in OpHelper.UntrimmedAddSub.
   */
  method PreDecrement(x: IntX) returns (r: Result<IntX>)
    requires x.Valid() && x.length != Constants.MaxUInt32Value
    modifies x
    ensures r.Failure? ==> r.error == Argument && old(x.length) == Constants.MaxIntValue && unchanged(x)
    ensures r.Success? ==> x.Valid() && x.Value() == old(OpHelper.AddSubValue(x.negative, x.Magnitude(), false, [1], true))
    ensures r.Success? && old(x.Normal()) ==> x.Normal() && x.Value() == old(x.Value()) - 1
    ensures r.Success? ==> fresh(r.value) && r.value.Valid() && r.value.Value() == x.Value()
  {
    var one := new IntX.FromInt32(1);
    assert one.Magnitude() == [1];
    r := AddAssign(x, one, true);
  }

  /** x--: x -= 1, and a copy of the old value is returned. */
  method PostDecrement(x: IntX) returns (r: Result<IntX>)
    requires x.Valid() && x.length != Constants.MaxUInt32Value
    modifies x
    ensures r.Failure? ==> r.error == Argument && old(x.length) == Constants.MaxIntValue && unchanged(x)
    ensures r.Success? ==> x.Valid() && x.Value() == old(OpHelper.AddSubValue(x.negative, x.Magnitude(), false, [1], true))
    ensures r.Success? && old(x.Normal()) ==> x.Normal() && x.Value() == old(x.Value()) - 1
    ensures r.Success? ==> fresh(r.value) && r.value.Valid() && r.value.Value() == old(x.Value())
  {
    var temp := new IntX.Copy(x);
    var one := new IntX.FromInt32(1);
    assert one.Magnitude() == [1];
    var s := AddAssign(x, one, true);
    if s.Failure? {
      return Failure(s.error);
    }
    return Success(temp);
  }
}
