/**
 * What every string converter shares: the power-of-two shortcut at the digit
 * level, the estimate of how many output digits a number of a given length
 * needs, and the assembly of the string from the digits, most significant
 * first, with a minus sign in front and, per digit, either its alphabet
 * character or, for a base bigger than the alphabet, a "{c}" group.
 */
module StringConverterBase {
  import opened Limbs
  import opened Radix
  import Bits
  import Constants
  import Pow2StringConverter

  // ---------------------------------------------------------------------------
  // Estimates

  /** The least n >= from with b^n >= target, counting up from p == b^from. */
  function LeastExponent(b: nat, target: nat, from: nat, p: nat): (n: nat)
    requires b >= 2 && p == IntPow(b, from)
    ensures n >= from && IntPow(b, n) >= target
    ensures n == from || IntPow(b, n - 1) < target
    decreases target - p
  {
    if p >= target then from
    else
      assert p * b == IntPow(b, from + 1) && p * b > p;
      LeastExponent(b, target, from + 1, p * b)
  }

  /**
   * The digits reserved for a number of length limbs in base b,
   * ceil(length log(2^32) / log(b)): the least n with b^n >= 2^(32 length).
   */
  function OutputLength(length: nat, numberBase: nat): (n: nat)
    requires numberBase >= 2
    ensures IntPow(numberBase, n) >= Pow(length)
    ensures n == 0 || IntPow(numberBase, n - 1) < Pow(length)
  {
    LeastExponent(numberBase, Pow(length), 0, 1)
  }

  /** ceil(log10(b)): the least k with b <= 10^k. */
  function CeilLog10(b: nat): (k: nat)
    ensures b <= IntPow(10, k) && (k == 0 || IntPow(10, k - 1) < b)
  {
    LeastExponent(10, b, 0, 1)
  }

  /** The characters one digit may take: 1, or ceil(log10(b)) + 2 for a base bigger than the alphabet. */
  function LengthCoef(numberBase: nat, alphabetLength: nat): (c: nat)
    ensures numberBase > alphabetLength ==> c == CeilLog10(numberBase) + 2
    ensures numberBase <= alphabetLength ==> c == 1
  {
    if numberBase > alphabetLength then CeilLog10(numberBase) + 2 else 1
  }

  /** The string a number of length limbs could need does not fit the 2^31 - 1 characters of a string. */
  predicate TooBig(length: nat, numberBase: nat, alphabetLength: nat)
    requires numberBase >= 2
  {
    OutputLength(length, numberBase) * LengthCoef(numberBase, alphabetLength) + 1 > Constants.MaxIntValue
  }

  // ---------------------------------------------------------------------------
  // The digit-level default

  /**
   * The conversion every converter tries first: a power-of-two base goes to
   * the power-of-two converter; for any other base nothing is converted, the
   * result is empty and outputLength is kept.
   */
  method Convert(digits: seq<uint32>, length: nat, numberBase: uint32, outputLength: nat)
    returns (outputArray: seq<uint32>, newLength: nat)
    requires 1 <= length <= |digits| && numberBase >= 2
    ensures numberBase != Pow2(Bits.Msb(numberBase)) ==> outputArray == [] && newLength == outputLength
    ensures numberBase == Pow2(Bits.Msb(numberBase)) ==> newLength == |outputArray|
    ensures numberBase == Pow2(Bits.Msb(numberBase)) ==>
      forall i :: 0 <= i < |outputArray| ==> outputArray[i] == Val(digits[..length]) / IntPow(numberBase, i) % numberBase
    ensures numberBase == Pow2(Bits.Msb(numberBase)) && Trimmed(digits[..length]) ==>
      |outputArray| >= 1 && outputArray == ToDigits(Val(digits[..length]), numberBase)
  {
    if numberBase == Pow2(Bits.Msb(numberBase)) {
      outputArray, newLength := Pow2StringConverter.Convert(digits, length, numberBase);
      if Trimmed(digits[..length]) {
        assert digits[..length][length - 1] == digits[length - 1];
        Pow2StringConverter.Canonical(digits, length, numberBase, outputArray);
      }
    } else {
      outputArray, newLength := [], outputLength;
    }
  }

  /** A positive number has at least one digit. */
  lemma {:induction false} NonZeroDigits(v: nat, b: nat)
    requires b >= 2 && v >= 1
    ensures |ToDigits(v, b)| >= 1
  {
  }

  // ---------------------------------------------------------------------------
  // The text

  /** `(char)(d + '0')`: the low eight bits of d + 48. */
  function DigitChar(d: nat): char
  {
    ((d + 48) % 256) as char
  }

  /** One digit: its alphabet character, or '{', the character d + '0', '}' in a big base. */
  function DigitText(d: nat, isBigBase: bool, alphabet: string): (s: string)
    requires !isBigBase ==> d < |alphabet|
    ensures |s| == if isBigBase then 3 else 1
  {
    if isBigBase then [Constants.DigitOpeningBracet, DigitChar(d), Constants.DigitClosingBracet]
    else [alphabet[d]]
  }

  /** Every digit has a character in the alphabet unless the base is big. */
  predicate Writable(ds: seq<nat>, isBigBase: bool, alphabet: string)
  {
    !isBigBase ==> forall i :: 0 <= i < |ds| ==> ds[i] < |alphabet|
  }

  /** The digits ds, stored least significant first, written most significant first. */
  function DigitsText(ds: seq<nat>, isBigBase: bool, alphabet: string): (s: string)
    requires Writable(ds, isBigBase, alphabet)
    ensures |s| == |ds| * (if isBigBase then 3 else 1)
  {
    if |ds| == 0 then []
    else DigitText(ds[|ds| - 1], isBigBase, alphabet) + DigitsText(ds[..|ds| - 1], isBigBase, alphabet)
  }

  /** A new lowest digit is written last. */
  lemma {:induction false} DigitsTextCons(d: nat, ds: seq<nat>, isBigBase: bool, alphabet: string)
    requires Writable([d] + ds, isBigBase, alphabet)
    ensures Writable(ds, isBigBase, alphabet) && (!isBigBase ==> d < |alphabet|)
    ensures DigitsText([d] + ds, isBigBase, alphabet) == DigitsText(ds, isBigBase, alphabet) + DigitText(d, isBigBase, alphabet)
    decreases |ds|
  {
    assert forall i :: 0 <= i < |ds| ==> ds[i] == ([d] + ds)[i + 1];
    assert ([d] + ds)[0] == d;
    if |ds| > 0 {
      var n := |ds| - 1;
      assert ([d] + ds)[..|ds|] == [d] + ds[..n];
      DigitsTextCons(d, ds[..n], isBigBase, alphabet);
    } else {
      assert ([d] + ds)[..0] == [];
    }
  }

  /** The sign: "-" for a negative number. */
  function SignText(negative: bool): string
  {
    if negative then [Constants.DigitsMinusChar] else []
  }

  /**
   * The assembly: the sign and the first outputLength digits, most
   * significant first, written into a buffer of outputLength lengthCoef + 1
   * characters, which is then cut to the characters written.
   */
  method Build(negative: bool, outputArray: seq<uint32>, outputLength: nat, numberBase: uint32, alphabet: string)
    returns (s: string)
    requires outputLength <= |outputArray| && numberBase >= 2
    requires Writable(outputArray[..outputLength], numberBase > |alphabet|, alphabet)
    ensures s == SignText(negative) + DigitsText(outputArray[..outputLength], numberBase > |alphabet|, alphabet)
  {
    var isBigBase := numberBase > |alphabet|;
    var lengthCoef := LengthCoef(numberBase, |alphabet|);
    ghost var w := if isBigBase then 3 else 1;
    assert outputLength * w <= outputLength * lengthCoef by {
      CoefWidth(numberBase, |alphabet|);
      MulLe(w, lengthCoef, outputLength);
    }
    var outputBuilder := new char[outputLength * lengthCoef + 1](_ => '\0');
    var outputIdx: nat := 0;
    if negative {
      outputBuilder[outputIdx] := Constants.DigitsMinusChar;
      outputIdx := outputIdx + 1;
    }
    assert outputBuilder[..outputIdx] == SignText(negative);
    outputIdx := WriteDigits(outputBuilder, outputIdx, outputArray, outputLength, isBigBase, alphabet, SignText(negative), w);
    s := outputBuilder[..outputIdx];
  }

  /**
   * The loop of the assembly: the digits from the most significant down,
   * written after the sign already in the buffer.
   */
  method WriteDigits(outputBuilder: array<char>, start: nat, outputArray: seq<uint32>, outputLength: nat,
                     isBigBase: bool, alphabet: string, ghost sign: string, ghost w: nat) returns (outputIdx: nat)
    requires outputLength <= |outputArray| && w == (if isBigBase then 3 else 1)
    requires Writable(outputArray[..outputLength], isBigBase, alphabet)
    requires start + outputLength * w <= outputBuilder.Length && outputBuilder[..start] == sign
    modifies outputBuilder
    ensures outputIdx <= outputBuilder.Length
    ensures outputBuilder[..outputIdx] == sign + DigitsText(outputArray[..outputLength], isBigBase, alphabet)
  {
    outputIdx := start;
    var i: nat := outputLength;
    assert outputArray[i..outputLength] == [];
    while i > 0
      invariant i <= outputLength && outputIdx + i * w <= outputBuilder.Length
      invariant Writable(outputArray[i..outputLength], isBigBase, alphabet)
      invariant outputBuilder[..outputIdx] == sign + DigitsText(outputArray[i..outputLength], isBigBase, alphabet)
    {
      i := i - 1;
      assert !isBigBase ==> outputArray[i] < |alphabet| by {
        assert outputArray[i] == outputArray[..outputLength][i];
      }
      assert outputIdx + w + i * w <= outputBuilder.Length by { MulSucc(i, w); }
      ghost var pre := outputBuilder[..outputIdx];
      outputIdx := PutDigit(outputBuilder, outputIdx, outputArray[i], isBigBase, alphabet);
      BuildStep(outputArray, i, outputLength, isBigBase, alphabet, sign, pre, outputBuilder[..outputIdx]);
    }
    assert outputArray[..outputLength] == outputArray[0..outputLength];
  }

  /** A digit takes at least one character, and at least three in a big base. */
  lemma {:induction false} CoefWidth(numberBase: nat, alphabetLength: nat)
    requires numberBase >= 2
    ensures (if numberBase > alphabetLength then 3 else 1) <= LengthCoef(numberBase, alphabetLength)
  {
    if numberBase > alphabetLength {
      assert IntPow(10, 0) == 1;
    }
  }

  /** The text grows by the next lower digit. */
  lemma {:induction false} BuildStep(a: seq<uint32>, i: nat, n: nat, isBigBase: bool, alphabet: string, sign: string, pre: string, post: string)
    requires i < n <= |a| && (!isBigBase ==> a[i] < |alphabet|)
    requires Writable(a[i + 1..n], isBigBase, alphabet) && pre == sign + DigitsText(a[i + 1..n], isBigBase, alphabet)
    requires post == pre + DigitText(a[i], isBigBase, alphabet)
    ensures Writable(a[i..n], isBigBase, alphabet) && post == sign + DigitsText(a[i..n], isBigBase, alphabet)
  {
    assert a[i..n] == [a[i]] + a[i + 1..n];
    DigitsTextCons(a[i], a[i + 1..n], isBigBase, alphabet);
  }

  /**
   * One digit of the assembly: its character, or its three characters in a
   * big base, written at outputIdx; returns the index after them.
   */
  method PutDigit(outputBuilder: array<char>, outputIdx: nat, d: uint32, isBigBase: bool, alphabet: string)
    returns (next: nat)
    requires !isBigBase ==> d < |alphabet|
    requires outputIdx + (if isBigBase then 3 else 1) <= outputBuilder.Length
    modifies outputBuilder
    ensures next == outputIdx + (if isBigBase then 3 else 1)
    ensures outputBuilder[..next] == old(outputBuilder[..outputIdx]) + DigitText(d, isBigBase, alphabet)
  {
    next := outputIdx;
    if !isBigBase {
      outputBuilder[next] := alphabet[d];
    } else {
      outputBuilder[next] := Constants.DigitOpeningBracet;
      next := next + 1;
      outputBuilder[next] := DigitChar(d);
      next := next + 1;
      outputBuilder[next] := Constants.DigitClosingBracet;
    }
    next := next + 1;
  }

  /** (n + 1) w == n w + w */
  lemma {:induction false} MulSucc(n: nat, w: nat)
    ensures (n + 1) * w == n * w + w
  {
  }
}
