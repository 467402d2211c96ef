/**
 * Library-wide constants: the standard digit alphabet, the limb geometry and
 * the length windows in which the fast algorithms are used.
 */
module Constants {
  import opened Limbs
  import opened Errors
  import opened StrRepHelper

  const BaseUpperChars: string := "0123456789ABCDEF"
  const BaseLowerChars: string := "0123456789abcdef"

  const DigitOpeningBracet: char := '{'
  const DigitClosingBracet: char := '}'
  const DigitsMinusChar: char := '-'

  const AutoFhtLengthLowerBound: nat := 512
  const AutoFhtLengthUpperBound: nat := 67108864
  const FhtValidityCheckDigitCount: nat := 10
  const AutoNewtonLengthLowerBound: nat := 8192
  const AutoNewtonLengthUpperBound: nat := 67108864
  const FastParseLengthLowerBound: nat := 32
  const FastParseLengthUpperBound: nat := 4294967295
  const FastConvertLengthLowerBound: nat := 16
  const FastConvertLengthUpperBound: nat := 4294967295

  /** Bits in one limb. */
  const DigitBitCount: nat := 32
  /** Most bits an IntX may hold: (2^32 - 1) limbs of 32 bits. */
  const MaxBitCount: nat := 137438953440
  /** 2^DigitBitCount. */
  const BitCountStepOf2: nat := 4294967296

  const MinIntValue: int := -2147483648
  const MaxIntValue: int := 2147483647
  const MinInt64Value: int := -9223372036854775808
  const MaxInt64Value: int := 9223372036854775807
  const MaxUInt32Value: nat := 4294967295
  const MaxUInt64Value: nat := 18446744073709551615

  /** The limb geometry constants agree with each other. */
  lemma {:induction false} GeometryConstants()
    ensures BitCountStepOf2 == Pow2(DigitBitCount) == BASE
    ensures MaxBitCount == MaxUInt32Value * DigitBitCount
    ensures MaxUInt32Value == BASE - 1
    ensures MaxIntValue + 1 == -MinIntValue == Pow2(31)
    ensures MaxInt64Value + 1 == -MinInt64Value
    ensures MaxUInt64Value == BASE * BASE - 1
  {
    Pow2Small();
  }

  /**
   * The standard char->digit dictionary: the upper-case hexadecimal alphabet
   * for base 16, then the lower-case letters a-f added with their values.
   */
  method FillBaseCharToDigits() returns (baseCharToDigits: Dictionary)
    ensures Standard(baseCharToDigits)
  {
    StandardAlphabets();
    var r := CharDictionaryFromAlphabet(BaseUpperChars, 16);
    baseCharToDigits := r.value;
    var i := 10;
    while i < |BaseLowerChars|
      invariant 10 <= i <= 16 && Filled(baseCharToDigits, i)
    {
      FilledStep(baseCharToDigits, i);
      baseCharToDigits := baseCharToDigits[BaseLowerChars[i] := i];
      i := i + 1;
    }
    assert BaseLowerChars[..i] == BaseLowerChars;
  }

  /**
   * The standard dictionary: the 22 characters 0-9, A-F and a-f, each worth
   * its position in the upper- or lower-case alphabet.
   */
  ghost predicate Standard(d: Dictionary)
  {
    (forall c :: c in d <==> c in BaseUpperChars || c in BaseLowerChars) &&
    (forall i :: 0 <= i < 16 ==> d[BaseUpperChars[i]] == i) &&
    (forall i :: 0 <= i < 16 ==> d[BaseLowerChars[i]] == i) &&
    |d| == 22
  }

  /** The standard dictionary once the lower-case letters before position i are in. */
  ghost predicate Filled(d: Dictionary, i: nat)
    requires i <= 16
  {
    (forall c :: c in d <==> c in BaseUpperChars || c in BaseLowerChars[..i]) &&
    (forall k :: 0 <= k < 16 ==> d[BaseUpperChars[k]] == k) &&
    (forall k :: 0 <= k < i ==> d[BaseLowerChars[k]] == k) &&
    |d| == i + 6
  }

  /** Adding the lower-case letter at position i adds one new entry. */
  lemma {:induction false} FilledStep(d: Dictionary, i: nat)
    requires 10 <= i < 16 && Filled(d, i)
    ensures Filled(d[BaseLowerChars[i] := i], i + 1)
  {
    LowerLetterIsNew(i);
    assert BaseLowerChars[i] !in d;
    assert BaseLowerChars[..i + 1] == BaseLowerChars[..i] + [BaseLowerChars[i]];
  }

  /** The letters a-f are neither upper-case digits nor earlier lower-case ones. */
  lemma {:induction false} LowerLetterIsNew(i: nat)
    requires 10 <= i < 16
    ensures BaseLowerChars[i] !in BaseUpperChars
    ensures BaseLowerChars[i] !in BaseLowerChars[..i]
  {
  }

  lemma {:induction false} StandardAlphabets()
    ensures AlphabetError(BaseUpperChars, 16) == None
    ensures forall i :: 0 <= i < 10 ==> BaseLowerChars[i] == BaseUpperChars[i]
    ensures BaseUpperChars[..16] == BaseUpperChars
  {
    CharCodes();
    assert Distinct(BaseUpperChars);
  }

  /** The character codes of the two standard alphabets, position by position. */
  lemma {:induction false} CharCodes()
    ensures |BaseUpperChars| == |BaseLowerChars| == 16
    ensures forall i :: 0 <= i < 16 ==> BaseUpperChars[i] as int == (if i < 10 then '0' as int + i else 'A' as int + i - 10)
    ensures forall i :: 0 <= i < 16 ==> BaseLowerChars[i] as int == (if i < 10 then '0' as int + i else 'a' as int + i - 10)
  {
  }

  /** Which characters the standard dictionary accepts, and what they are worth. */
  lemma {:induction false} StandardDigits(d: Dictionary, c: char)
    requires Standard(d)
    ensures c in d <==> ('0' <= c <= '9' || 'A' <= c <= 'F' || 'a' <= c <= 'f')
    ensures '0' <= c <= '9' ==> d[c] == c as int - '0' as int
    ensures 'A' <= c <= 'F' ==> d[c] == c as int - 'A' as int + 10
    ensures 'a' <= c <= 'f' ==> d[c] == c as int - 'a' as int + 10
  {
    CharCodes();
    if '0' <= c <= '9' {
      assert BaseUpperChars[c as int - '0' as int] == c;
    } else if 'A' <= c <= 'F' {
      assert BaseUpperChars[c as int - 'A' as int + 10] == c;
    } else if 'a' <= c <= 'f' {
      assert BaseLowerChars[c as int - 'a' as int + 10] == c;
    }
  }
}
