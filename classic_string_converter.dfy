/**
 * The classic string converter: after the power-of-two shortcut, the number
 * is divided by the base over and over, each remainder being the next digit,
 * least significant first, until nothing is left.
 */
module ClassicStringConverter {
  import opened Limbs
  import opened Radix
  import Bits
  import DigitOpHelper
  import StringConverterBase

  /**
   * The digits of the trimmed number digits[..length] in base numberBase,
   * least significant first: the first newLength entries of the result are
   * exactly its canonical digits. outputLength is the estimate, big enough
   * that numberBase^outputLength reaches 2^(32 length).
   */
  method Convert(digits: seq<uint32>, length: nat, numberBase: uint32, outputLength: nat)
    returns (outputArray: seq<uint32>, newLength: nat)
    requires 1 <= length <= |digits| && Trimmed(digits[..length]) && numberBase >= 2
    requires Pow(length) <= IntPow(numberBase, outputLength)
    ensures newLength <= |outputArray|
    ensures outputArray[..newLength] == ToDigits(Val(digits[..length]), numberBase)
  {
    outputArray, newLength := StringConverterBase.Convert(digits, length, numberBase, outputLength);
    if |outputArray| != 0 {
      assert outputArray[..newLength] == outputArray;
      return;
    }
    var output: array<uint32>;
    output, newLength := Divide(digits, length, numberBase, outputLength);
    outputArray := output[..];
    ghost var v := Val(digits[..length]);
    assert forall i :: 0 <= i < newLength ==> outputArray[..newLength][i] == output[i];
    CanonicalDigits(outputArray[..newLength], v, numberBase);
  }

  /**
   * The division loop: divides a copy of the number by the base until
   * nothing is left, the remainders filling the output from digit 0 on.
   */
  method Divide(digits: seq<uint32>, length: nat, numberBase: uint32, outputLength: nat)
    returns (output: array<uint32>, outputIndex: nat)
    requires 1 <= length <= |digits| && Trimmed(digits[..length]) && numberBase >= 2
    requires Pow(length) <= IntPow(numberBase, outputLength)
    ensures outputIndex <= output.Length
    ensures Val(digits[..length]) < IntPow(numberBase, outputIndex)
    ensures outputIndex == 0 || IntPow(numberBase, outputIndex - 1) <= Val(digits[..length])
    ensures forall i :: 0 <= i < outputIndex ==> output[i] == Val(digits[..length]) / IntPow(numberBase, i) % numberBase
  {
    ghost var v := Val(digits[..length]);
    ValTrimmedRange(digits[..length]);
    output := new uint32[outputLength + 1];
    var digitsCopy := new uint32[|digits|](i requires 0 <= i < |digits| => digits[i]);
    assert digitsCopy[..length] == digits[..length];
    outputIndex := Remainders(output, digitsCopy, length, numberBase, outputLength, v);
  }

  /**
   * The loop of Divide: the working copy digitsCopy[..length] worth v is
   * divided by the base until nothing is left, remainder i going to output[i].
   */
  method Remainders(output: array<uint32>, digitsCopy: array<uint32>, length: nat, numberBase: uint32,
                    outputLength: nat, ghost v: nat) returns (outputIndex: nat)
    requires output != digitsCopy && numberBase >= 2 && output.Length == outputLength + 1
    requires length <= digitsCopy.Length && Trimmed(digitsCopy[..length]) && Val(digitsCopy[..length]) == v
    requires v < Pow(length) <= IntPow(numberBase, outputLength)
    modifies output, digitsCopy
    ensures outputIndex <= outputLength
    ensures v < IntPow(numberBase, outputIndex)
    ensures outputIndex == 0 || IntPow(numberBase, outputIndex - 1) <= v
    ensures forall i :: 0 <= i < outputIndex ==> output[i] == v / IntPow(numberBase, i) % numberBase
  {
    outputIndex := 0;
    var lengthCopy: nat := length;
    while lengthCopy > 0
      invariant lengthCopy <= digitsCopy.Length && Trimmed(digitsCopy[..lengthCopy])
      invariant Val(digitsCopy[..lengthCopy]) == v / IntPow(numberBase, outputIndex)
      invariant outputIndex == 0 || IntPow(numberBase, outputIndex - 1) <= v
      invariant outputIndex <= outputLength
      invariant forall i :: 0 <= i < outputIndex ==> output[i] == v / IntPow(numberBase, i) % numberBase
      decreases Val(digitsCopy[..lengthCopy])
    {
      var nextIndex := outputIndex + 1;
      lengthCopy := NextDigit(output, digitsCopy, lengthCopy, numberBase, outputIndex, nextIndex, outputLength, length, v);
      outputIndex := nextIndex;
    }
    assert v < IntPow(numberBase, outputIndex) by {
      assert digitsCopy[..lengthCopy] == [];
      ZeroQuotient(v, IntPow(numberBase, outputIndex));
    }
  }

  /**
   * One turn of the main loop: digit outputIndex of v goes to the output and
   * the working copy is divided by the base once more.
   */
  method NextDigit(output: array<uint32>, digitsCopy: array<uint32>, lengthCopy: nat, numberBase: uint32,
                   outputIndex: nat, nextIndex: nat, outputLength: nat, length: nat, ghost v: nat) returns (newLength: nat)
    requires output != digitsCopy && numberBase >= 2 && outputIndex <= outputLength < output.Length
    requires nextIndex == outputIndex + 1
    requires 1 <= lengthCopy <= digitsCopy.Length && Trimmed(digitsCopy[..lengthCopy])
    requires Val(digitsCopy[..lengthCopy]) == v / IntPow(numberBase, outputIndex)
    requires v < Pow(length) <= IntPow(numberBase, outputLength)
    requires forall i :: 0 <= i < outputIndex ==> output[i] == v / IntPow(numberBase, i) % numberBase
    modifies output, digitsCopy
    ensures newLength <= lengthCopy && Trimmed(digitsCopy[..newLength])
    ensures Val(digitsCopy[..newLength]) == v / IntPow(numberBase, nextIndex) < old(Val(digitsCopy[..lengthCopy]))
    ensures IntPow(numberBase, nextIndex - 1) <= v && nextIndex <= outputLength
    ensures forall i :: 0 <= i < nextIndex ==> output[i] == v / IntPow(numberBase, i) % numberBase
  {
    ValTrimmedRange(digitsCopy[..lengthCopy]);
    IndexRoom(v, numberBase, outputIndex, outputLength, length);
    var d;
    newLength, d := DivideOnce(digitsCopy, lengthCopy, numberBase, v, outputIndex);
    ghost var rest := digitsCopy[..newLength];
    StoreDigit(output, outputIndex, d, v, numberBase);
    assert digitsCopy[..newLength] == rest;
  }

  /**
   * One division in place: the trimmed number v / b^i in the low limbs
   * becomes the trimmed v / b^(i+1), and the remainder is digit i of v.
   */
  method DivideOnce(digitsCopy: array<uint32>, lengthCopy: nat, numberBase: uint32, ghost v: nat, ghost i: nat)
    returns (newLength: nat, d: uint32)
    requires 1 <= lengthCopy <= digitsCopy.Length && numberBase >= 2 && Trimmed(digitsCopy[..lengthCopy])
    requires Val(digitsCopy[..lengthCopy]) == v / IntPow(numberBase, i)
    modifies digitsCopy
    ensures newLength <= lengthCopy && Trimmed(digitsCopy[..newLength])
    ensures Val(digitsCopy[..newLength]) == v / IntPow(numberBase, i + 1) < old(Val(digitsCopy[..lengthCopy]))
    ensures d == v / IntPow(numberBase, i) % numberBase
  {
    ghost var q := Val(digitsCopy[..lengthCopy]);
    ValTrimmedRange(digitsCopy[..lengthCopy]);
    var a := digitsCopy[..lengthCopy];
    newLength, d := DigitOpHelper.DivMod(a, numberBase, digitsCopy, 0);
    ghost var qs := digitsCopy[..lengthCopy];
    assert qs[..newLength] == digitsCopy[0..newLength];
    assert qs[lengthCopy - 1] == digitsCopy[0 + |a| - 1];
    QuotientTrimmed(a, qs, newLength, numberBase);
    assert digitsCopy[..newLength] == qs[..newLength];
    NextQuotient(v, numberBase, i, q);
    DivLess(q, numberBase);
  }

  /** Writes digit i of v into the buffer, which then holds digits 0 to i. */
  method StoreDigit(output: array<uint32>, i: nat, d: uint32, ghost v: nat, ghost b: nat)
    requires i < output.Length && b >= 2 && d == v / IntPow(b, i) % b
    requires forall j :: 0 <= j < i ==> output[j] == v / IntPow(b, j) % b
    modifies output
    ensures forall j :: 0 <= j <= i ==> output[j] == v / IntPow(b, j) % b
  {
    output[i] := d;
  }

  /** A value whose quotient by p is zero is below p. */
  lemma {:induction false} ZeroQuotient(v: nat, p: nat)
    requires p >= 1 && v / p == 0
    ensures v < p
  {
  }

  /**
   * While something is left, another digit is due and there is room for it:
   * b^i <= v < 2^(32 length) <= b^outputLength.
   */
  lemma {:induction false} IndexRoom(v: nat, b: nat, i: nat, outputLength: nat, length: nat)
    requires b >= 2 && v / IntPow(b, i) >= 1 && v < Pow(length) <= IntPow(b, outputLength)
    ensures IntPow(b, i) <= v && i < outputLength
  {
    QuotientPositive(v, IntPow(b, i));
    if i >= outputLength {
      IntPowMonotone(b, outputLength, i);
    }
  }

  /** A positive quotient v / p means p <= v. */
  lemma {:induction false} QuotientPositive(v: nat, p: nat)
    requires p >= 1 && v / p >= 1
    ensures p <= v
  {
    DivModUnique(v, p, v / p, v % p);
    MulLe(1, v / p, p);
  }

  /** Dividing v / b^i by b gives v / b^(i+1), and the remainder is digit i. */
  lemma {:induction false} NextQuotient(v: nat, b: nat, i: nat, q: nat)
    requires b >= 2 && q == v / IntPow(b, i)
    ensures q / b == v / IntPow(b, i + 1)
  {
    DivDiv(v, IntPow(b, i), b);
    assert IntPow(b, i + 1) == b * IntPow(b, i);
  }

  /**
   * The quotient of a trimmed number by a one-limb divisor, with its top
   * limb dropped when that is zero, is trimmed again.
   */
  lemma {:induction false} QuotientTrimmed(a: seq<uint32>, q: seq<uint32>, n: nat, d: uint32)
    requires Trimmed(a) && |a| >= 1 && |q| == |a| && d >= 1
    requires n == |a| - (if q[|a| - 1] == 0 then 1 else 0) && Val(q[..n]) == Val(a) / d
    ensures Trimmed(q[..n])
  {
    if q[|a| - 1] == 0 && n >= 1 {
      ValTrimmedRange(a);
      assert Pow(n) == BASE * Pow(n - 1);
      DivAtLeast(Val(a), d, Pow(n - 1));
      TopLimbNonzero(q[..n]);
    }
  }

  /** d p <= x gives x / d >= p. */
  lemma {:induction false} DivAtLeast(x: nat, d: nat, p: nat)
    requires 1 <= d <= BASE && BASE * p <= x
    ensures x / d >= p
  {
    MulLe(d, BASE, p);
    var k := x / d;
    DivModUnique(x, d, k, x % d);
    if k < p {
      MulLe(k + 1, p, d);
    }
  }
}
