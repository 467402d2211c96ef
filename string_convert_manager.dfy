/**
 * Turning an IntX into text: the checks every converter makes (the base, the
 * zero special case, the size of the string), the digit conversion of the
 * selected mode, and the assembly of the characters.
 */
module StringConvertManager {
  import opened Limbs
  import opened Errors
  import opened Radix
  import opened BigInteger
  import Constants
  import DigitHelper
  import StrRepHelper
  import StringConverterBase
  import ClassicStringConverter
  import FastStringConverter

  /** The conversion modes: divide and conquer, or plain repeated division. */
  datatype ToStringMode = Fast | Classic

  /**
   * The text of v in base numberBase with the given alphabet: "0" for zero,
   * otherwise a minus sign for a negative number followed by the canonical
   * digits of |v|, most significant first.
   */
  function Text(v: int, numberBase: nat, alphabet: string): string
    requires numberBase >= 2
  {
    if v == 0 then "0"
    else
      var ds := ToDigits(DigitHelper.Abs(v), numberBase);
      ToDigitsBelow(DigitHelper.Abs(v), numberBase);
      assert StringConverterBase.Writable(ds, numberBase > |alphabet|, alphabet);
      StringConverterBase.SignText(v < 0) + StringConverterBase.DigitsText(ds, numberBase > |alphabet|, alphabet)
  }

  /** The base is one the converters accept. */
  predicate BaseInRange(numberBase: nat)
  {
    2 <= numberBase <= 65536
  }

  /** The conversion refuses the base, or the string a number of length limbs could need is too long. */
  predicate Rejected(length: nat, numberBase: nat, alphabetLength: nat)
  {
    !BaseInRange(numberBase) || (length != 0 && StringConverterBase.TooBig(length, numberBase, alphabetLength))
  }

  /**
   * The conversion of a normalised IntX: it fails with Argument exactly when
   * the base is outside [2, 65536] or the string could exceed 2^31 - 1
   * characters; otherwise the text is Text of its value, whatever the mode.
   */
  method ToString(intX: IntX, numberBase: uint32, alphabet: string, mode: ToStringMode) returns (r: Result<string>)
    requires intX.Normal()
    ensures r.Failure? <==> Rejected(intX.length, numberBase, |alphabet|)
    ensures r.Failure? ==> r.error == Argument
    ensures r.Success? ==> r.value == Text(intX.Value(), numberBase, alphabet)
  {
    if numberBase < 2 || numberBase > 65536 {
      return Failure(Argument);
    }
    if intX.length == 0 {
      return Success("0");
    }
    var outputLength := StringConverterBase.OutputLength(intX.length, numberBase);
    var lengthCoef := StringConverterBase.LengthCoef(numberBase, |alphabet|);
    if outputLength * lengthCoef + 1 > Constants.MaxIntValue {
      return Failure(Argument);
    }
    MulLe(1, lengthCoef, outputLength);
    var outputArray: seq<uint32>, newLength: nat;
    assert intX.digits[..intX.length] == intX.Magnitude();
    match mode {
      case Fast =>
        outputArray, newLength := FastStringConverter.Convert(intX.digits, intX.length, numberBase, outputLength);
      case Classic =>
        outputArray, newLength := ClassicStringConverter.Convert(intX.digits, intX.length, numberBase, outputLength);
    }
    var s := Assemble(intX, outputArray, newLength, numberBase, alphabet);
    return Success(s);
  }

  /** The characters of a non-zero IntX from its canonical digits. */
  method Assemble(intX: IntX, outputArray: seq<uint32>, newLength: nat, numberBase: uint32, alphabet: string)
    returns (s: string)
    requires intX.Normal() && intX.length != 0 && numberBase >= 2
    requires newLength <= |outputArray| && outputArray[..newLength] == ToDigits(Val(intX.Magnitude()), numberBase)
    ensures s == Text(intX.Value(), numberBase, alphabet)
  {
    ghost var m := Val(intX.Magnitude());
    ValTrimmedRange(intX.Magnitude());
    assert intX.Value() < 0 <==> intX.negative;
    assert DigitHelper.Abs(intX.Value()) == m;
    ToDigitsBelow(m, numberBase);
    s := StringConverterBase.Build(intX.negative, outputArray, newLength, numberBase, alphabet);
  }

  /** The decimal text, in upper case. */
  method Decimal(intX: IntX, mode: ToStringMode) returns (r: Result<string>)
    requires intX.Normal()
    ensures r.Failure? <==> Rejected(intX.length, 10, 16)
    ensures r.Failure? ==> r.error == Argument
    ensures r.Success? ==> r.value == Text(intX.Value(), 10, Constants.BaseUpperChars)
  {
    r := InBase(intX, 10, mode);
  }

  /** The text in a base, with upper-case letters. */
  method InBase(intX: IntX, numberBase: uint32, mode: ToStringMode) returns (r: Result<string>)
    requires intX.Normal()
    ensures r.Failure? <==> Rejected(intX.length, numberBase, 16)
    ensures r.Failure? ==> r.error == Argument
    ensures r.Success? ==> r.value == Text(intX.Value(), numberBase, Constants.BaseUpperChars)
  {
    r := WithCase(intX, numberBase, true, mode);
  }

  /** The text in a base, with the upper- or lower-case standard alphabet. */
  method WithCase(intX: IntX, numberBase: uint32, upperCase: bool, mode: ToStringMode) returns (r: Result<string>)
    requires intX.Normal()
    ensures r.Failure? <==> Rejected(intX.length, numberBase, 16)
    ensures r.Failure? ==> r.error == Argument
    ensures r.Success? ==> r.value == Text(intX.Value(), numberBase, if upperCase then Constants.BaseUpperChars else Constants.BaseLowerChars)
  {
    var alphabet := if upperCase then Constants.BaseUpperChars else Constants.BaseLowerChars;
    r := ToString(intX, numberBase, alphabet, mode);
  }

  /**
   * The text with a custom alphabet: the alphabet is checked first (empty,
   * shorter than the base, or with a repeated character), then converted.
   */
  method WithAlphabet(intX: IntX, numberBase: uint32, alphabet: string, mode: ToStringMode) returns (r: Result<string>)
    requires intX.Normal()
    ensures StrRepHelper.AlphabetError(alphabet, numberBase).Some? ==> r == Failure(StrRepHelper.AlphabetError(alphabet, numberBase).value)
    ensures StrRepHelper.AlphabetError(alphabet, numberBase).None? ==>
      (r.Failure? <==> Rejected(intX.length, numberBase, |alphabet|))
    ensures r.Success? ==> r.value == Text(intX.Value(), numberBase, alphabet)
  {
    var err := StrRepHelper.AssertAlphabet(alphabet, numberBase);
    if err.Some? {
      return Failure(err.value);
    }
    r := ToString(intX, numberBase, alphabet, mode);
  }

  /** The text of a positive value is the text of its canonical digits. */
  lemma {:induction false} TextOfDigits(v: nat, numberBase: nat, alphabet: string, ds: seq<nat>)
    requires v > 0 && numberBase >= 2 && ds == ToDigits(v, numberBase) && numberBase <= |alphabet|
    ensures StringConverterBase.Writable(ds, false, alphabet)
    ensures Text(v, numberBase, alphabet) == StringConverterBase.DigitsText(ds, false, alphabet)
  {
    ToDigitsBelow(v, numberBase);
  }

  /** 19 is 10011 in binary. */
  lemma {:induction false} BinaryText()
    ensures Text(19, 2, Constants.BaseUpperChars) == "10011"
  {
    BinaryTextDigits();
    BinaryTextChars();
    TextOfDigits(19, 2, Constants.BaseUpperChars, [1, 1, 0, 0, 1]);
  }

  /** The digits of 19 in base 2, least significant first. */
  lemma {:induction false} BinaryTextDigits()
    ensures ToDigits(19, 2) == [1, 1, 0, 0, 1]
  {
    ToDigitsStep(1, 2, 0, 1);
    ToDigitsStep(2, 2, 1, 0);
    ToDigitsStep(4, 2, 2, 0);
    ToDigitsStep(9, 2, 4, 1);
    ToDigitsStep(19, 2, 9, 1);
  }

  /** The characters of those digits, most significant first. */
  lemma {:induction false} BinaryTextChars()
    ensures StringConverterBase.DigitsText([1, 1, 0, 0, 1], false, Constants.BaseUpperChars) == "10011"
  {
    assert StringConverterBase.DigitsText([1], false, Constants.BaseUpperChars) == "1";
    assert [1, 1][..1] == [1];
    assert StringConverterBase.DigitsText([1, 1], false, Constants.BaseUpperChars) == "11";
    assert [1, 1, 0][..2] == [1, 1];
    assert StringConverterBase.DigitsText([1, 1, 0], false, Constants.BaseUpperChars) == "011";
    assert [1, 1, 0, 0][..3] == [1, 1, 0];
    assert StringConverterBase.DigitsText([1, 1, 0, 0], false, Constants.BaseUpperChars) == "0011";
    assert [1, 1, 0, 0, 1][..4] == [1, 1, 0, 0];
  }

  /** 100 is 144 in octal. */
  lemma {:induction false} OctalText()
    ensures Text(100, 8, Constants.BaseUpperChars) == "144"
  {
    ToDigitsStep(1, 8, 0, 1);
    ToDigitsStep(12, 8, 1, 4);
    ToDigitsStep(100, 8, 12, 4);
    StringConverterBase.DigitsTextCons(4, [4, 1], false, Constants.BaseUpperChars);
    StringConverterBase.DigitsTextCons(4, [1], false, Constants.BaseUpperChars);
    StringConverterBase.DigitsTextCons(1, [], false, Constants.BaseUpperChars);
    TextOfDigits(100, 8, Constants.BaseUpperChars, [4, 4, 1]);
  }

  /** 901 is 1605 in octal. */
  lemma {:induction false} OctalText2()
    ensures Text(901, 8, Constants.BaseUpperChars) == "1605"
  {
    OctalText2Digits();
    OctalText2Chars();
    TextOfDigits(901, 8, Constants.BaseUpperChars, [5, 0, 6, 1]);
  }

  /** The digits of 901 in base 8, least significant first. */
  lemma {:induction false} OctalText2Digits()
    ensures ToDigits(901, 8) == [5, 0, 6, 1]
  {
    ToDigitsStep(1, 8, 0, 1);
    ToDigitsStep(14, 8, 1, 6);
    ToDigitsStep(112, 8, 14, 0);
    ToDigitsStep(901, 8, 112, 5);
  }

  /** The characters of those digits, most significant first. */
  lemma {:induction false} OctalText2Chars()
    ensures StringConverterBase.DigitsText([5, 0, 6, 1], false, Constants.BaseUpperChars) == "1605"
  {
    assert StringConverterBase.DigitsText([5], false, Constants.BaseUpperChars) == "5";
    assert [5, 0][..1] == [5];
    assert StringConverterBase.DigitsText([5, 0], false, Constants.BaseUpperChars) == "05";
    assert [5, 0, 6][..2] == [5, 0];
    assert StringConverterBase.DigitsText([5, 0, 6], false, Constants.BaseUpperChars) == "605";
    assert [5, 0, 6, 1][..3] == [5, 0, 6];
  }

  /** 0xABCDEF is ABCDEF in upper-case hexadecimal. */
  lemma {:induction false} HexText()
    ensures Text(0xABCDEF, 16, Constants.BaseUpperChars) == "ABCDEF"
  {
    HexTextDigits();
    HexTextChars();
    TextOfDigits(11259375, 16, Constants.BaseUpperChars, [15, 14, 13, 12, 11, 10]);
  }

  /** The digits of 11259375 in base 16, least significant first. */
  lemma {:induction false} HexTextDigits()
    ensures ToDigits(11259375, 16) == [15, 14, 13, 12, 11, 10]
  {
    ToDigitsStep(10, 16, 0, 10);
    ToDigitsStep(171, 16, 10, 11);
    ToDigitsStep(2748, 16, 171, 12);
    ToDigitsStep(43981, 16, 2748, 13);
    ToDigitsStep(703710, 16, 43981, 14);
    ToDigitsStep(11259375, 16, 703710, 15);
  }

  /** The characters of those digits, most significant first. */
  lemma {:induction false} HexTextChars()
    ensures StringConverterBase.DigitsText([15, 14, 13, 12, 11, 10], false, Constants.BaseUpperChars) == "ABCDEF"
  {
    assert StringConverterBase.DigitsText([15], false, Constants.BaseUpperChars) == "F";
    assert [15, 14][..1] == [15];
    assert StringConverterBase.DigitsText([15, 14], false, Constants.BaseUpperChars) == "EF";
    assert [15, 14, 13][..2] == [15, 14];
    assert StringConverterBase.DigitsText([15, 14, 13], false, Constants.BaseUpperChars) == "DEF";
    assert [15, 14, 13, 12][..3] == [15, 14, 13];
    assert StringConverterBase.DigitsText([15, 14, 13, 12], false, Constants.BaseUpperChars) == "CDEF";
    assert [15, 14, 13, 12, 11][..4] == [15, 14, 13, 12];
    assert StringConverterBase.DigitsText([15, 14, 13, 12, 11], false, Constants.BaseUpperChars) == "BCDEF";
    assert [15, 14, 13, 12, 11, 10][..5] == [15, 14, 13, 12, 11];
  }

  /** In a base larger than the alphabet each digit is written in braces: -144 is -{1}{4} in base 140. */
  lemma {:induction false} BigBaseText()
    ensures Text(-144, 140, Constants.BaseUpperChars) == "-{1}{4}"
  {
    assert ToDigits(144, 140) == [4, 1] by {
      assert ToDigits(1, 140) == [1];
    }
  }
}
