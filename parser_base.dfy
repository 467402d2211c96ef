/**
 * The front end every parser shares. It checks the arguments, skips the
 * blanks around the number, reads a sign or (in the standard format) a `$`,
 * `0x` or `0` base prefix, skips leading zeros, and hands the remaining
 * characters to the range parser of the chosen strategy, which fills a zeroed
 * limb buffer.
 */
module ParserBase {
  import opened Limbs
  import opened Errors
  import opened Radix
  import opened Bits
  import opened StrRepHelper
  import opened BigInteger
  import opened Parsers
  import ClassicParser
  import FastParser
  import Constants

  /** The range parser behind the front end. */
  datatype Strategy = Classic | Fast

  // ---------------------------------------------------------------------------
  // The front end as functions

  /** The character at i; reading at the end of the string gives its terminating NUL. */
  function CharAt(value: string, i: nat): char
    requires i <= |value|
  {
    if i < |value| then value[i] else '\0'
  }

  /** The first index from i on, and below hi, that does not hold c. */
  function SkipChar(value: string, i: nat, hi: nat, c: char): (j: nat)
    requires hi <= |value|
    ensures i <= j && (i <= hi ==> j <= hi)
    ensures i <= hi ==> forall k :: i <= k < j ==> value[k] == c
    ensures j < hi ==> value[j] != c
    decreases if i < hi then hi - i else 0
  {
    if i < hi && value[i] == c then SkipChar(value, i + 1, hi, c) else i
  }

  /** The last index from e down, and not below lo, that does not hold a blank; lo - 1 if there is none. */
  function TrimEnd(value: string, lo: nat, e: int): (j: int)
    requires lo - 1 <= e < |value|
    ensures lo - 1 <= j <= e
    ensures forall k :: j < k <= e ==> value[k] == ' '
    ensures j >= lo ==> value[j] != ' '
    decreases e - lo + 1
  {
    if e >= lo && value[e] == ' ' then TrimEnd(value, lo, e - 1) else e
  }

  /** What precedes the digits: the sign, the base a prefix selects, and how many characters they take. */
  datatype Lead = Lead(negative: bool, numberBase: uint32, matchLength: nat, stringNotEmpty: bool)

  /**
   * The sign or base prefix at value[start]. '-' and '+' are signs. With
   * checkFormat, "$" and "0x"/"0X" select base 16 and a leading "0" base 8,
   * and the "0" itself already makes the number non-empty; without
   * checkFormat a leading '$' or '0' is a format error.
   */
  function ReadLead(value: string, start: nat, numberBase: uint32, checkFormat: bool): (r: Result<Lead>)
    requires start <= |value|
    ensures r.Failure? <==> !checkFormat && CharAt(value, start) in "$0"
    ensures r.Failure? ==> r.error == Format
    ensures r.Success? ==> r.value.matchLength <= 2 && start + r.value.matchLength <= |value|
    ensures r.Success? ==> (r.value.negative <==> CharAt(value, start) == '-')
    ensures r.Success? && r.value.numberBase != numberBase ==> checkFormat && r.value.numberBase in {8, 16}
  {
    var firstPart := CharAt(value, start);
    if firstPart == '$' || firstPart == '0' then
      if !checkFormat then Failure(Format)
      else if firstPart == '$' then Success(Lead(false, 16, 1, false))
      else if CharAt(value, start + 1) == 'x' || CharAt(value, start + 1) == 'X' then Success(Lead(false, 16, 2, false))
      else Success(Lead(false, 8, 1, true))
    else if firstPart == '-' || firstPart == '+' then Success(Lead(firstPart == '-', numberBase, 1, false))
    else Success(Lead(false, numberBase, 0, false))
  }

  /**
   * Where the digits are: the sign, the base, and the range
   * value[startIndex..endIndex] left once the blanks, the sign or prefix and
   * the leading zeros are gone (empty when startIndex > endIndex).
   */
  datatype Span = Span(negative: bool, numberBase: uint32, startIndex: nat, endIndex: int)

  /**
   * The front end up to the digits. It fails, with a format error, on a
   * prefix without checkFormat and when nothing is left after the sign or
   * prefix (a lone octal "0" excepted).
   */
  function Front(value: string, numberBase: uint32, checkFormat: bool): (r: Result<Span>)
    requires |value| >= 1
    ensures r.Failure? ==> r.error == Format
    ensures r.Success? ==> -1 <= r.value.endIndex < |value|
    ensures r.Success? && r.value.startIndex as int <= r.value.endIndex ==>
      value[r.value.startIndex] != '0' && value[r.value.endIndex] != ' '
  {
    var start := SkipChar(value, 0, |value|, ' ');
    var end := TrimEnd(value, start, |value| - 1);
    match ReadLead(value, start, numberBase, checkFormat)
    case Failure(e) => Failure(e)
    case Success(lead) =>
      var first := start + lead.matchLength;
      if first as int > end && !lead.stringNotEmpty then Failure(Format)
      else Success(Span(lead.negative, lead.numberBase, SkipChar(value, first, end + 1, '0'), end))
  }

  /**
   * The number a string denotes, or the error parsing it raises: an empty
   * string or dictionary is a null argument, a base outside [2, |dictionary|]
   * a bad argument, and anything else that goes wrong a format error.
   */
  function ParseValue(value: string, numberBase: uint32, charToDigits: Dictionary, checkFormat: bool): (r: Result<int>)
    ensures r.Failure? && r.error == ArgumentNull <==> |value| == 0 || |charToDigits| == 0
    ensures r.Failure? && r.error == Argument <==>
      |value| > 0 && |charToDigits| > 0 && (numberBase < 2 || numberBase as int > |charToDigits|)
    ensures r.Failure? ==> r.error in {ArgumentNull, Argument, Format}
  {
    if |value| == 0 || |charToDigits| == 0 then Failure(ArgumentNull)
    else if numberBase < 2 || numberBase as int > |charToDigits| then Failure(Argument)
    else match Front(value, numberBase, checkFormat)
      case Failure(e) => Failure(e)
      case Success(sp) =>
        if sp.startIndex as int > sp.endIndex then Success(0)
        else match DigitsOf(value[sp.startIndex..sp.endIndex + 1], charToDigits, sp.numberBase)
          case Failure(e) => Failure(e)
          case Success(ds) => Success(Signed(sp.negative, Horner(ds, sp.numberBase)))
  }

  /** Only the character '0' stands for the digit zero, as in the standard dictionary. */
  predicate ZeroIsZeroChar(charToDigits: Dictionary)
  {
    forall c :: c in charToDigits && charToDigits[c] == 0 ==> c == '0'
  }

  // ---------------------------------------------------------------------------
  // The front end as the library runs it

  /**
   * The limbs reserved for n digits of a base: ceil(n ceil(log2 base) / 32),
   * never fewer than the digits can need.
   */
  function DigitsLength(n: nat, numberBase: uint32): (len: nat)
    requires numberBase >= 2
    ensures RoomFor(n, numberBase, len) && len <= n
  {
    var c := CeilLog2(numberBase);
    DigitsLengthRoom(n, numberBase, c);
    LimbsForBits(n * c)
  }

  lemma {:induction false} DigitsLengthRoom(n: nat, numberBase: uint32, c: nat)
    requires numberBase >= 2 && c == CeilLog2(numberBase)
    ensures RoomFor(n, numberBase, LimbsForBits(n * c)) && LimbsForBits(n * c) <= n
  {
    var len := LimbsForBits(n * c);
    assert RoomFor(n, numberBase, len) by {
      calc {
        IntPow(numberBase, n);
      <= { IntPowBaseMonotone(numberBase, Pow2(c), n); }
        IntPow(Pow2(c), n);
      == { IntPowOfPow2(c, n); }
        Pow2(c * n);
      <= { Pow2Monotone(c * n, 32 * len); }
        Pow2(32 * len);
      == { PowIsPow2(len); }
        Pow(len);
      }
    }
    assert len <= n by {
      assert c <= 32;
      MulLe(c, 32, n);
      assert n * c <= 32 * n;
      LimbsWithin(n * c, n);
    }
  }

  /**
   * Parses a string into a new IntX with the range parser of the strategy.
   * The result is the number ParseValue gives, or its error; when only '0'
   * stands for zero it is normalized, so a minus sign means a negative value.
   */
  method Parse(value: string, numberBase: uint32, charToDigits: Dictionary, checkFormat: bool, strategy: Strategy)
    returns (r: Result<IntX>)
    requires |value| <= Constants.MaxIntValue
    ensures r.Failure? <==> ParseValue(value, numberBase, charToDigits, checkFormat).Failure?
    ensures r.Failure? ==> r.error == ParseValue(value, numberBase, charToDigits, checkFormat).error
    ensures r.Success? ==> r.value.Valid() && r.value.Value() == ParseValue(value, numberBase, charToDigits, checkFormat).value
    ensures r.Success? && ZeroIsZeroChar(charToDigits) ==>
      r.value.Normal() && (r.value.negative ==> r.value.Value() < 0)
  {
    if |value| == 0 || |charToDigits| == 0 {
      return Failure(ArgumentNull);
    }
    if numberBase < 2 || numberBase as int > |charToDigits| {
      return Failure(Argument);
    }
    var span := FindDigits(value, numberBase, checkFormat);
    if span.Failure? {
      return Failure(span.error);
    }
    var negative, base, startIndex, endIndex := span.value.negative, span.value.numberBase, span.value.startIndex, span.value.endIndex;
    if startIndex as int > endIndex {
      var zero := new IntX();
      return Success(zero);
    }
    r := ParseDigits(value, startIndex, endIndex, base, charToDigits, negative, strategy);
    SpanValue(value, numberBase, charToDigits, checkFormat, span.value);
    if r.Success? && ZeroIsZeroChar(charToDigits) {
      LeadingDigit(value, startIndex, endIndex, charToDigits, base);
    }
  }

  /** Past the front end, ParseValue is the signed Horner value of the digits in the span, or their error. */
  lemma {:induction false} SpanValue(value: string, numberBase: uint32, charToDigits: Dictionary, checkFormat: bool, sp: Span)
    requires |value| > 0 && |charToDigits| > 0 && 2 <= numberBase && numberBase as int <= |charToDigits|
    requires Front(value, numberBase, checkFormat) == Success(sp) && sp.startIndex as int <= sp.endIndex
    ensures sp.endIndex < |value|
    ensures ParseValue(value, numberBase, charToDigits, checkFormat).Failure? <==>
      RangeDigits(value, sp.startIndex, sp.endIndex, charToDigits, sp.numberBase).Failure?
    ensures RangeDigits(value, sp.startIndex, sp.endIndex, charToDigits, sp.numberBase).Failure? ==>
      ParseValue(value, numberBase, charToDigits, checkFormat).error ==
      RangeDigits(value, sp.startIndex, sp.endIndex, charToDigits, sp.numberBase).error
    ensures RangeDigits(value, sp.startIndex, sp.endIndex, charToDigits, sp.numberBase).Success? ==>
      ParseValue(value, numberBase, charToDigits, checkFormat).value ==
      Signed(sp.negative, Horner(RangeDigits(value, sp.startIndex, sp.endIndex, charToDigits, sp.numberBase).value, sp.numberBase))
  {
  }

  /**
   * Skips the blanks, reads the sign or prefix and skips the leading zeros,
   * as the loops of the front end do.
   */
  method FindDigits(value: string, numberBase: uint32, checkFormat: bool) returns (r: Result<Span>)
    requires 1 <= |value|
    ensures r == Front(value, numberBase, checkFormat)
  {
    var startIndex, endIndex := TrimBlanks(value);
    var lead := ReadPrefix(value, startIndex, numberBase, checkFormat);
    if lead.Failure? {
      return Failure(lead.error);
    }
    startIndex := startIndex + lead.value.matchLength;
    if startIndex > endIndex && !lead.value.stringNotEmpty {
      return Failure(Format);
    }
    startIndex := SkipZeros(value, startIndex, endIndex);
    return Success(Span(lead.value.negative, lead.value.numberBase, startIndex, endIndex));
  }

  /** The two loops that move the ends of the range past the blanks. */
  method TrimBlanks(value: string) returns (startIndex: nat, endIndex: int)
    requires 1 <= |value|
    ensures startIndex == SkipChar(value, 0, |value|, ' ')
    ensures endIndex == TrimEnd(value, startIndex, |value| - 1)
  {
    startIndex := 0;
    while startIndex < |value| && value[startIndex] == ' '
      invariant startIndex <= |value|
      invariant SkipChar(value, startIndex, |value|, ' ') == SkipChar(value, 0, |value|, ' ')
    {
      startIndex := startIndex + 1;
    }
    endIndex := |value| - 1;
    while endIndex >= startIndex && value[endIndex] == ' '
      invariant startIndex - 1 <= endIndex < |value|
      invariant TrimEnd(value, startIndex, endIndex) == TrimEnd(value, startIndex, |value| - 1)
    {
      endIndex := endIndex - 1;
    }
  }

  /** The sign and the base prefix at value[startIndex], as the front end reads them. */
  method ReadPrefix(value: string, startIndex: nat, numberBase: uint32, checkFormat: bool) returns (r: Result<Lead>)
    requires startIndex <= |value|
    ensures r == ReadLead(value, startIndex, numberBase, checkFormat)
  {
    var negative := false;
    var stringNotEmpty := false;
    var matchLength := 0;
    var base := numberBase;
    var firstPart := CharAt(value, startIndex);
    if firstPart == '-' {
      negative := true;
      matchLength := matchLength + 1;
    } else if firstPart == '+' {
      negative := false;
      matchLength := matchLength + 1;
    }
    if firstPart == '$' || firstPart == '0' {
      var hold := CharAt(value, startIndex + 1);
      if firstPart == '$' {
        if checkFormat {
          base := 16;
          matchLength := matchLength + 1;
        } else {
          return Failure(Format);
        }
      } else if hold == 'x' || hold == 'X' {
        if checkFormat {
          base := 16;
          matchLength := matchLength + 2;
        } else {
          return Failure(Format);
        }
      } else if firstPart == '0' {
        if checkFormat {
          base := 8;
          matchLength := matchLength + 1;
        } else {
          return Failure(Format);
        }
        stringNotEmpty := true;
      }
    }
    return Success(Lead(negative, base, matchLength, stringNotEmpty));
  }

  /** The loop that moves the start of the range past the leading zeros. */
  method SkipZeros(value: string, first: nat, endIndex: int) returns (startIndex: nat)
    requires -1 <= endIndex < |value|
    ensures startIndex == SkipChar(value, first, endIndex + 1, '0')
  {
    startIndex := first;
    while startIndex as int <= endIndex && value[startIndex] == '0'
      invariant first <= startIndex && (first <= endIndex + 1 ==> startIndex <= endIndex + 1)
      invariant SkipChar(value, startIndex, endIndex + 1, '0') == SkipChar(value, first, endIndex + 1, '0')
    {
      startIndex := startIndex + 1;
    }
  }

  /**
   * Reserves the limbs for the digits of value[startIndex..endIndex] in an IntX
   * with the sign, and lets the range parser of the strategy fill them.
   */
  method ParseDigits(value: string, startIndex: nat, endIndex: nat, numberBase: uint32, charToDigits: Dictionary,
                     negative: bool, strategy: Strategy) returns (r: Result<IntX>)
    requires startIndex <= endIndex < |value| <= Constants.MaxIntValue && numberBase >= 2
    ensures r.Success? <==> RangeDigits(value, startIndex, endIndex, charToDigits, numberBase).Success?
    ensures r.Failure? ==> r.error == RangeDigits(value, startIndex, endIndex, charToDigits, numberBase).error
    ensures r.Success? ==> r.value.Valid() && r.value.negative == negative
    ensures r.Success? ==>
      Val(r.value.Magnitude()) == Horner(RangeDigits(value, startIndex, endIndex, charToDigits, numberBase).value, numberBase)
    ensures r.Success? ==>
      (numberBase != Pow2(Msb(numberBase)) || LeadingNonZero(RangeDigits(value, startIndex, endIndex, charToDigits, numberBase))) ==>
      r.value.Normal()
  {
    var valueLength := endIndex - startIndex + 1;
    var digitsLength := DigitsLength(valueLength, numberBase);
    var newInt := new IntX.WithLength(digitsLength, negative);
    var digitsRes := new uint32[digitsLength](_ => 0);
    var len: Result<nat>;
    if strategy == Classic {
      len := ClassicParser.Parse(value, startIndex, endIndex, numberBase, charToDigits, digitsRes);
    } else {
      len := FastParser.Parse(value, startIndex, endIndex, numberBase, charToDigits, digitsRes);
    }
    if len.Failure? {
      return Failure(len.error);
    }
    newInt.digits, newInt.length := digitsRes[..], len.value;
    assert newInt.Magnitude() == digitsRes[..len.value];
    return Success(newInt);
  }

  /**
   * After the leading '0' characters are skipped, a dictionary in which only
   * '0' is zero gives a non-zero first digit, so the value is not zero.
   */
  lemma {:induction false} LeadingDigit(value: string, startIndex: nat, endIndex: nat, charToDigits: Dictionary, numberBase: uint32)
    requires startIndex <= endIndex < |value| && value[startIndex] != '0' && ZeroIsZeroChar(charToDigits)
    requires RangeDigits(value, startIndex, endIndex, charToDigits, numberBase).Success?
    ensures LeadingNonZero(RangeDigits(value, startIndex, endIndex, charToDigits, numberBase))
    ensures Horner(RangeDigits(value, startIndex, endIndex, charToDigits, numberBase).value, numberBase) > 0
  {
    var s := value[startIndex..endIndex + 1];
    var ds := DigitsOf(s, charToDigits, numberBase).value;
    DigitsOfHead(s, charToDigits, numberBase);
    HornerLeading(ds, numberBase);
    MulLe(1, ds[0], IntPow(numberBase, |ds| - 1));
  }

  // ---------------------------------------------------------------------------
  // The standard format on concrete strings

  /** Only blanks are trimmed, at both ends. */
  lemma {:induction false} ParseBlanks(d: Dictionary)
    requires Constants.Standard(d)
    ensures ParseValue("  7 ", 10, d, true) == Success(7)
  {
    var v := "  7 ";
    assert SkipChar(v, 0, 4, ' ') == 2 by {
      assert SkipChar(v, 2, 4, ' ') == 2;
    }
    assert TrimEnd(v, 2, 3) == 2;
    assert SkipChar(v, 2, 3, '0') == 2;
    assert Front(v, 10, true) == Success(Span(false, 10, 2, 2));
    assert v[2..3] == "7";
    assert GetDigit(d, '7', 10) == Success(7) by { Constants.StandardDigits(d, '7'); }
    SingleDigit(d, '7', 7, 10);
  }

  /** A leading '-' or '+' gives the sign. */
  lemma {:induction false} ParseSigns(d: Dictionary)
    requires Constants.Standard(d)
    ensures ParseValue("-7", 10, d, true) == Success(-7)
    ensures ParseValue("+7", 10, d, true) == Success(7)
  {
    var m, p := "-7", "+7";
    assert SkipChar(m, 0, 2, ' ') == 0 && SkipChar(p, 0, 2, ' ') == 0;
    assert TrimEnd(m, 0, 1) == 1 && TrimEnd(p, 0, 1) == 1;
    assert SkipChar(m, 1, 2, '0') == 1 && SkipChar(p, 1, 2, '0') == 1;
    assert m[1..2] == "7" && p[1..2] == "7";
    assert GetDigit(d, '7', 10) == Success(7) by { Constants.StandardDigits(d, '7'); }
    SingleDigit(d, '7', 7, 10);
  }

  /** The digits of a one-character string, and their value. */
  lemma {:induction false} SingleDigit(d: Dictionary, c: char, v: uint32, b: nat)
    requires GetDigit(d, c, b) == Success(v)
    ensures DigitsOf([c], d, b) == Success([v]) && Horner([v], b) == v
  {
    var e: seq<uint32> := [];
    var z: string := [];
    DigitsOfSnoc(z, c, d, b);
    assert z + [c] == [c];
    assert e + [v] == [v];
    HornerSnoc([], v, b);
    assert [] + [v as nat] == [v as nat];
  }

  /** The argument errors come first, whatever the string holds. */
  lemma {:induction false} ParseArgumentErrors(d: Dictionary)
    requires Constants.Standard(d)
    ensures ParseValue("", 10, d, true) == Failure(ArgumentNull)
    ensures ParseValue("7", 10, map[], true) == Failure(ArgumentNull)
    ensures ParseValue("7", 1, d, true) == Failure(Argument)
    ensures ParseValue("7", 23, d, true) == Failure(Argument)
  {
  }

  /**
   * A lone "0" is octal zero in the standard format, but without checkFormat
   * a leading '0' (or '$') is a format error; "-0" is zero.
   */
  lemma {:induction false} ParseZeros(d: Dictionary)
    requires Constants.Standard(d)
    ensures ParseValue("0", 10, d, true) == Success(0)
    ensures ParseValue("0", 10, d, false) == Failure(Format)
    ensures ParseValue("$f", 16, d, false) == Failure(Format)
    ensures ParseValue("-0", 10, d, false) == Success(0)
  {
    var z, m := "0", "-0";
    assert SkipChar(z, 0, 1, ' ') == 0 && TrimEnd(z, 0, 0) == 0 && SkipChar(z, 1, 1, '0') == 1;
    assert SkipChar(m, 0, 2, ' ') == 0 && TrimEnd(m, 0, 1) == 1;
    assert SkipChar(m, 1, 2, '0') == 2 by {
      assert SkipChar(m, 2, 2, '0') == 2;
    }
    assert SkipChar("$f", 0, 2, ' ') == 0;
  }

  /** Nothing but a sign, a prefix or blanks is a format error. */
  lemma {:induction false} ParseNoDigits(d: Dictionary)
    requires Constants.Standard(d)
    ensures ParseValue("-", 10, d, true) == Failure(Format)
    ensures ParseValue("0x", 10, d, true) == Failure(Format)
    ensures ParseValue("   ", 10, d, true) == Failure(Format)
  {
    assert SkipChar("-", 0, 1, ' ') == 0 && TrimEnd("-", 0, 0) == 0;
    assert SkipChar("0x", 0, 2, ' ') == 0 && TrimEnd("0x", 0, 1) == 1;
    var b := "   ";
    assert SkipChar(b, 0, 3, ' ') == 3 by {
      assert SkipChar(b, 3, 3, ' ') == 3;
      assert SkipChar(b, 2, 3, ' ') == 3;
      assert SkipChar(b, 1, 3, ' ') == 3;
    }
    assert TrimEnd(b, 3, 2) == 2;
  }

  /** A first character that is not a digit of the base fails the whole string with its error. */
  lemma {:induction false} FirstDigitFails(s: string, d: Dictionary, b: nat)
    requires |s| >= 1 && GetDigit(d, s[0], b).Failure?
    ensures DigitsOf(s, d, b) == Failure(GetDigit(d, s[0], b).error)
  {
    assert s[..0] == [];
    DigitsOfStops(s, d, b, 0);
  }

  /** Letters are no decimal digits, and 9 is no binary digit. */
  lemma {:induction false} ParseBadDigits(d: Dictionary)
    requires Constants.Standard(d)
    ensures ParseValue("abc", 10, d, true) == Failure(Format)
    ensures ParseValue("987", 2, d, false) == Failure(Format)
  {
    var a, n := "abc", "987";
    assert SkipChar(a, 0, 3, ' ') == 0 && TrimEnd(a, 0, 2) == 2 && SkipChar(a, 0, 3, '0') == 0;
    assert SkipChar(n, 0, 3, ' ') == 0 && TrimEnd(n, 0, 2) == 2 && SkipChar(n, 0, 3, '0') == 0;
    assert a[0..3] == a && n[0..3] == n;
    assert GetDigit(d, 'a', 10) == Failure(Format) by { Constants.StandardDigits(d, 'a'); }
    assert GetDigit(d, '9', 2) == Failure(Format) by { Constants.StandardDigits(d, '9'); }
    FirstDigitFails(a, d, 10);
    FirstDigitFails(n, d, 2);
  }

  /** The digits of a three-character string, and their value. */
  lemma {:induction false} ThreeDigits(d: Dictionary, s: string, v0: uint32, v1: uint32, v2: uint32, b: nat)
    requires |s| == 3
    requires GetDigit(d, s[0], b) == Success(v0) && GetDigit(d, s[1], b) == Success(v1) && GetDigit(d, s[2], b) == Success(v2)
    ensures DigitsOf(s, d, b) == Success([v0, v1, v2]) && Horner([v0, v1, v2], b) == (v0 * b + v1) * b + v2
  {
    SingleDigit(d, s[0], v0, b);
    DigitsOfSnoc([s[0]], s[1], d, b);
    assert [s[0]] + [s[1]] == s[..2] && [v0] + [v1] == [v0, v1];
    DigitsOfSnoc(s[..2], s[2], d, b);
    assert s[..2] + [s[2]] == s && [v0, v1] + [v2] == [v0, v1, v2];
    HornerSnoc([v0], v1, b);
    HornerSnoc([v0, v1], v2, b);
    assert [v0 as nat] + [v1 as nat] == [v0 as nat, v1 as nat];
    assert [v0 as nat, v1 as nat] + [v2 as nat] == [v0 as nat, v1 as nat, v2 as nat];
  }

  /** A leading "0" makes the rest octal in the standard format. */
  lemma {:induction false} ParseOctal(d: Dictionary)
    requires Constants.Standard(d)
    ensures ParseValue("0100", 10, d, true) == Success(64)
  {
    assert GetDigit(d, '1', 8) == Success(1) by { Constants.StandardDigits(d, '1'); }
    assert GetDigit(d, '0', 8) == Success(0) by { Constants.StandardDigits(d, '0'); }
    OctalDigits(d);
  }

  lemma {:induction false} OctalDigits(d: Dictionary)
    requires |d| >= 10 && GetDigit(d, '1', 8) == Success(1) && GetDigit(d, '0', 8) == Success(0)
    ensures ParseValue("0100", 10, d, true) == Success(64)
  {
    var v := "0100";
    assert SkipChar(v, 0, 4, ' ') == 0 && TrimEnd(v, 0, 3) == 3 && SkipChar(v, 1, 4, '0') == 1;
    assert ReadLead(v, 0, 10, true) == Success(Lead(false, 8, 1, true));
    assert v[1..4] == "100";
    ThreeDigits(d, "100", 1, 0, 0, 8);
  }

  /** A character after the digits that is not a digit fails the parse. */
  lemma {:induction false} ParseTrailingSign(d: Dictionary)
    requires Constants.Standard(d)
    ensures ParseValue("-123-", 10, d, true) == Failure(Format)
  {
    assert GetDigit(d, '1', 10) == Success(1) && GetDigit(d, '2', 10) == Success(2) &&
      GetDigit(d, '3', 10) == Success(3) && GetDigit(d, '-', 10) == Failure(Format) by {
      Constants.StandardDigits(d, '1');
      Constants.StandardDigits(d, '2');
      Constants.StandardDigits(d, '3');
      Constants.StandardDigits(d, '-');
    }
    TrailingSignDigits(d);
  }

  lemma {:induction false} TrailingSignDigits(d: Dictionary)
    requires |d| >= 10 && GetDigit(d, '-', 10) == Failure(Format)
    requires GetDigit(d, '1', 10) == Success(1) && GetDigit(d, '2', 10) == Success(2) && GetDigit(d, '3', 10) == Success(3)
    ensures ParseValue("-123-", 10, d, true) == Failure(Format)
  {
    var v := "-123-";
    assert SkipChar(v, 0, 5, ' ') == 0 && TrimEnd(v, 0, 4) == 4 && SkipChar(v, 1, 5, '0') == 1;
    var s := v[1..5];
    assert s == "123-" && s[..3] == "123";
    ThreeDigits(d, "123", 1, 2, 3, 10);
    DigitsOfStops(s, d, 10, 3);
  }
}
