/**
 * Multiplication of two big integers over a limb kernel: the zero cases, the
 * length check, the sign rule, and the schoolbook kernel filling a fresh
 * zeroed buffer.
 */
module MultiplierBase {
  import opened Limbs
  import opened Errors
  import opened BigInteger
  import ClassicMultiplier

  /**
   * int1 * int2. Fails with an ArgumentException when the two lengths add up
   * to 2^32 limbs or more; a zero operand gives a fresh zero.
   */
  method Multiply(int1: IntX, int2: IntX) returns (r: Result<IntX>)
    requires int1.Valid() && int2.Valid()
    ensures r.Failure? <==> int1.length != 0 && int2.length != 0 && int1.length + int2.length >= BASE
    ensures r.Failure? ==> r.error == Argument
    ensures r.Success? ==> fresh(r.value) && r.value.Valid()
    ensures r.Success? ==> r.value.Value() == int1.Value() * int2.Value()
    ensures r.Success? && int1.length != 0 && int2.length != 0 ==> r.value.negative == (int1.negative != int2.negative)
    ensures r.Success? && int1.Normal() && int2.Normal() ==> r.value.Normal()
  {
    if int1.length == 0 || int2.length == 0 {
      var zero := new IntX();
      assert int1.Value() == 0 || int2.Value() == 0;
      return Success(zero);
    }
    var newLength := int1.length + int2.length;
    if newLength >= BASE {
      return Failure(Argument);
    }
    var newInt := MultiplyMagnitudes(int1.Magnitude(), int2.Magnitude(), int1.negative != int2.negative);
    SignedMul(int1.negative, Val(int1.Magnitude()), int2.negative, Val(int2.Magnitude()));
    return Success(newInt);
  }

  /** The product of two non-empty magnitudes in a fresh object with the given sign. */
  method MultiplyMagnitudes(a: seq<uint32>, b: seq<uint32>, neg: bool) returns (r: IntX)
    requires |a| >= 1 && |b| >= 1 && |a| + |b| < BASE
    ensures fresh(r) && r.Valid() && r.negative == neg
    ensures Val(r.Magnitude()) == Val(a) * Val(b)
    ensures Trimmed(a) && Trimmed(b) ==> Trimmed(r.Magnitude())
  {
    r := new IntX.WithLength(|a| + |b|, neg);
    var digits, len := ProductDigits(a, b);
    r.digits, r.length := digits, len;
    assert r.Magnitude() == digits[..len];
  }

  /** The schoolbook kernel run on a fresh zeroed buffer of |a| + |b| limbs: the buffer and its used length. */
  method ProductDigits(a: seq<uint32>, b: seq<uint32>) returns (digits: seq<uint32>, len: nat)
    requires |a| >= 1 && |b| >= 1
    ensures |digits| == |a| + |b| && len <= |digits|
    ensures Val(digits[..len]) == Val(a) * Val(b)
    ensures Trimmed(a) && Trimmed(b) ==> Trimmed(digits[..len])
  {
    var buf := ZeroDigits(|a| + |b|);
    assert AllZero(buf[Max(|a|, |b|)..|a| + |b|]);
    len := ClassicMultiplier.Multiply(a, b, buf);
    digits := buf[..];
  }
}
