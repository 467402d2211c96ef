/**
 * The parsers. `ParserBase.Parse` is the front end: it trims blanks, reads the
 * sign and the base prefixes, skips leading zeros and hands the remaining
 * character range to a range parser. `Pow2Parse` places each character's bits
 * directly, `ClassicParse` multiplies by the base character by character
 * (Horner's rule), and `FastParse` merges neighbouring runs pairwise. Each range
 * parser is proved to produce the limbs of the Horner value of the digits.
 */
module Parsers {
  import opened Limbs
  import opened Errors
  import opened BitOps
  import opened Bits
  import opened Radix
  import opened StrRepHelper
  import opened BigInteger
  import Constants

  // ---------------------------------------------------------------------------
  // Characters to digits

  /**
   * The digits of s in order; the first character that is not a digit of the
   * base decides the error.
   */
  function DigitsOf(s: string, charToDigits: Dictionary, numberBase: nat): (r: Result<seq<uint32>>)
    ensures r.Success? ==> |r.value| == |s| && DigitsBelow(r.value, numberBase)
    ensures r.Failure? && |charToDigits| > 0 ==> r.error == Format
  {
    if |s| == 0 then Success([])
    else
      var p := s[..|s| - 1];
      match DigitsOf(p, charToDigits, numberBase)
      case Failure(e) => Failure(e)
      case Success(ds) =>
        match GetDigit(charToDigits, s[|s| - 1], numberBase)
        case Failure(e) => Failure(e)
        case Success(d) => Success(ds + [d])
  }

  /** Once a prefix has a bad character, the whole string fails with its error. */
  lemma {:induction false} DigitsOfPrefixFails(s: string, charToDigits: Dictionary, numberBase: nat, i: nat)
    requires i <= |s| && DigitsOf(s[..i], charToDigits, numberBase).Failure?
    ensures DigitsOf(s, charToDigits, numberBase) == DigitsOf(s[..i], charToDigits, numberBase)
    decreases |s| - i
  {
    if i < |s| {
      var p := s[..|s| - 1];
      assert p[..i] == s[..i];
      DigitsOfPrefixFails(p, charToDigits, numberBase, i);
    } else {
      assert s[..i] == s;
    }
  }

  /** The first digit is the first character's. */
  lemma {:induction false} DigitsOfHead(s: string, charToDigits: Dictionary, numberBase: nat)
    requires |s| >= 1 && DigitsOf(s, charToDigits, numberBase).Success?
    ensures s[0] in charToDigits && DigitsOf(s, charToDigits, numberBase).value[0] == charToDigits[s[0]]
  {
    var p := s[..|s| - 1];
    if |p| >= 1 {
      DigitsOfHead(p, charToDigits, numberBase);
      assert p[0] == s[0];
    } else {
      assert p == [];
    }
  }

  /** Extending a good prefix by one character. */
  lemma {:induction false} DigitsOfStep(s: string, charToDigits: Dictionary, numberBase: nat, i: nat)
    requires i < |s| && DigitsOf(s[..i], charToDigits, numberBase).Success?
    ensures DigitsOf(s[..i + 1], charToDigits, numberBase) ==
      match GetDigit(charToDigits, s[i], numberBase)
      case Failure(e) => Failure(e)
      case Success(d) => Success(DigitsOf(s[..i], charToDigits, numberBase).value + [d])
  {
    assert s[..i + 1][..i] == s[..i];
  }

  /** One more character after a good run of digits. */
  lemma {:induction false} DigitsOfSnoc(s: string, c: char, charToDigits: Dictionary, numberBase: nat)
    requires DigitsOf(s, charToDigits, numberBase).Success?
    ensures DigitsOf(s + [c], charToDigits, numberBase) ==
      match GetDigit(charToDigits, c, numberBase)
      case Failure(e) => Failure(e)
      case Success(d) => Success(DigitsOf(s, charToDigits, numberBase).value + [d])
  {
    assert (s + [c])[..|s|] == s;
  }

  /** A character that is not a digit of the base ends the digits with its error. */
  lemma {:induction false} DigitsOfStops(s: string, charToDigits: Dictionary, numberBase: nat, k: nat)
    requires k < |s| && DigitsOf(s[..k], charToDigits, numberBase).Success?
    requires GetDigit(charToDigits, s[k], numberBase).Failure?
    ensures DigitsOf(s, charToDigits, numberBase).Failure?
    ensures DigitsOf(s, charToDigits, numberBase).error == GetDigit(charToDigits, s[k], numberBase).error
  {
    DigitsOfStep(s, charToDigits, numberBase, k);
    DigitsOfPrefixFails(s, charToDigits, numberBase, k + 1);
  }

  /** A digit of the base extends the digits, and their Horner value by one step. */
  lemma {:induction false} DigitsOfGoesOn(s: string, charToDigits: Dictionary, numberBase: nat, k: nat, h: nat)
    requires k < |s| && DigitsOf(s[..k], charToDigits, numberBase).Success?
    requires h == Horner(DigitsOf(s[..k], charToDigits, numberBase).value, numberBase)
    requires GetDigit(charToDigits, s[k], numberBase).Success?
    ensures DigitsOf(s[..k + 1], charToDigits, numberBase).Success?
    ensures Horner(DigitsOf(s[..k + 1], charToDigits, numberBase).value, numberBase) ==
      h * numberBase + GetDigit(charToDigits, s[k], numberBase).value
  {
    DigitsOfStep(s, charToDigits, numberBase, k);
    HornerSnoc(DigitsOf(s[..k], charToDigits, numberBase).value, GetDigit(charToDigits, s[k], numberBase).value, numberBase);
  }

  /**
   * Reads the digit at value[i] in a loop over value[startIndex..endIndex]: a
   * bad character fails the whole range with its error, a good one extends the
   * digits read so far and their Horner value by one step.
   */
  method ReadDigit(value: string, startIndex: nat, endIndex: nat, i: nat, next: nat, charToDigits: Dictionary,
                   numberBase: uint32, ghost h: nat) returns (g: Result<uint32>, ghost h2: nat)
    requires startIndex <= i <= endIndex < |value| && next == i + 1
    requires DigitsOf(value[startIndex..endIndex + 1][..i - startIndex], charToDigits, numberBase).Success?
    requires h == Horner(DigitsOf(value[startIndex..endIndex + 1][..i - startIndex], charToDigits, numberBase).value, numberBase)
    ensures g == GetDigit(charToDigits, value[i], numberBase)
    ensures g.Failure? ==>
      var ds := DigitsOf(value[startIndex..endIndex + 1], charToDigits, numberBase);
      ds.Failure? && ds.error == g.error
    ensures g.Success? ==>
      var ds := DigitsOf(value[startIndex..endIndex + 1][..next - startIndex], charToDigits, numberBase);
      ds.Success? && h2 == Horner(ds.value, numberBase) && h2 == h * numberBase + g.value
  {
    ghost var s := value[startIndex..endIndex + 1];
    ghost var k := i - startIndex;
    assert s[k] == value[i];
    g := GetDigit(charToDigits, value[i], numberBase);
    if g.Failure? {
      DigitsOfStops(s, charToDigits, numberBase, k);
      h2 := 0;
    } else {
      DigitsOfGoesOn(s, charToDigits, numberBase, k, h);
      h2 := Horner(DigitsOf(s[..k + 1], charToDigits, numberBase).value, numberBase);
    }
  }

  /** ReadDigit for a loop that keeps the digits themselves rather than their value. */
  method ReadDigitOf(value: string, startIndex: nat, endIndex: nat, i: nat, charToDigits: Dictionary,
                     numberBase: uint32, ghost ds: seq<uint32>) returns (g: Result<uint32>)
    requires startIndex <= i <= endIndex < |value|
    requires DigitsOf(value[startIndex..endIndex + 1][..i - startIndex], charToDigits, numberBase) == Success(ds)
    ensures g == GetDigit(charToDigits, value[i], numberBase)
    ensures g.Failure? ==>
      var r := DigitsOf(value[startIndex..endIndex + 1], charToDigits, numberBase);
      r.Failure? && r.error == g.error
    ensures g.Success? ==>
      DigitsOf(value[startIndex..endIndex + 1][..i + 1 - startIndex], charToDigits, numberBase) == Success(ds + [g.value])
  {
    ghost var s := value[startIndex..endIndex + 1];
    ghost var k := i - startIndex;
    assert s[k] == value[i];
    g := GetDigit(charToDigits, value[i], numberBase);
    if g.Failure? {
      DigitsOfStops(s, charToDigits, numberBase, k);
    } else {
      DigitsOfStep(s, charToDigits, numberBase, k);
    }
  }

  /** Appending one digit multiplies by the base and adds it. */
  lemma {:induction false} HornerSnoc(ds: seq<nat>, d: nat, b: nat)
    ensures Horner(ds + [d], b) == Horner(ds, b) * b + d
  {
    assert (ds + [d])[..|ds|] == ds;
  }

  // ---------------------------------------------------------------------------
  // Pow2Parser

  /** ceil(x / 32): the limbs that x bits occupy. */
  function LimbsForBits(x: nat): (n: nat)
    ensures x <= 32 * n < x + 32
  {
    x / 32 + (if x % 32 == 0 then 0 else 1)
  }

  /** The limbs n characters of a 2^k base occupy, at least one. */
  function Pow2ParseLength(n: nat, numberBase: uint32): (len: nat)
    requires n >= 1 && numberBase >= 2
    ensures len >= 1
  {
    MulLe(1, n, Msb(numberBase));
    LimbsForBits(n * Msb(numberBase))
  }

  /** A power-of-two base of a word has 1 to 31 bits per character. */
  lemma {:induction false} BitsInChar(numberBase: uint32)
    requires numberBase >= 2 && numberBase == Pow2(Msb(numberBase))
    ensures 1 <= Msb(numberBase) < 32
  {
    assert Pow2(0) == 1;
  }

  /**
   * Parses value[startIndex..endIndex] in a base 2^k: every character gives k
   * bits, OR-ed into the zeroed buffer from the top down. The result is the
   * length ceil(n k / 32), less one when the top limb came out zero.
   */
  method Pow2Parse(value: string, startIndex: nat, endIndex: nat, numberBase: uint32,
                   charToDigits: Dictionary, digitsRes: array<uint32>) returns (r: Result<nat>)
    requires startIndex <= endIndex < |value|
    requires numberBase >= 2 && numberBase == Pow2(Msb(numberBase))
    requires AllZero(digitsRes[..])
    requires Pow2ParseLength(endIndex + 1 - startIndex, numberBase) <= digitsRes.Length
    modifies digitsRes
    ensures var ds := DigitsOf(value[startIndex..endIndex + 1], charToDigits, numberBase);
      (r.Success? <==> ds.Success?) && (r.Failure? ==> r.error == ds.error)
    ensures r.Success? ==>
      var len := Pow2ParseLength(endIndex + 1 - startIndex, numberBase);
      r.value == len - (if digitsRes[len - 1] == 0 then 1 else 0) &&
      AllZero(digitsRes[len..]) &&
      Val(digitsRes[..r.value]) == Horner(DigitsOf(value[startIndex..endIndex + 1], charToDigits, numberBase).value, numberBase)
  {
    var bitsInChar := Msb(numberBase);
    BitsInChar(numberBase);
    var valueLength := endIndex + 1 - startIndex;
    var valueBitLength := valueLength * bitsInChar;
    var digitsLength: nat := valueBitLength / 32 + 1;
    var digitIndex: nat := digitsLength - 1;
    var initialShift: nat := valueBitLength % 32;
    if initialShift == 0 {
      digitsLength := digitsLength - 1;
    }
    assert digitsLength == Pow2ParseLength(valueLength, numberBase);
    var err := Pow2Fill(value, startIndex, endIndex, numberBase, charToDigits, digitsRes,
                        digitsLength, digitIndex, initialShift);
    if err.Some? {
      return Failure(err.value);
    }
    TopLimbs(digitsRes[..], digitsLength);
    assert digitsRes[..][..digitsLength] == digitsRes[..digitsLength];
    assert digitsRes[..][..digitsLength - 1] == digitsRes[..digitsLength - 1];
    assert digitsRes[..][digitsLength..] == digitsRes[digitsLength..];
    if digitsRes[digitsLength - 1] == 0 {
      digitsLength := digitsLength - 1;
    }
    return Success(digitsLength);
  }

  /**
   * The character loop of the power-of-two parser: the characters from
   * startIndex on are placed from bit 32 digitIndex + initialShift downwards.
   */
  method Pow2Fill(value: string, startIndex: nat, endIndex: nat, numberBase: uint32,
                  charToDigits: Dictionary, digitsRes: array<uint32>,
                  digitsLength: nat, digitIndex: nat, initialShift: nat) returns (err: Option<Error>)
    requires startIndex <= endIndex < |value|
    requires numberBase >= 2 && numberBase == Pow2(Msb(numberBase))
    requires initialShift < 32 && 32 * digitIndex + initialShift == Msb(numberBase) * (endIndex + 1 - startIndex)
    requires 32 * digitIndex + initialShift <= 32 * digitsLength && digitsLength <= digitsRes.Length
    requires AllZero(digitsRes[..])
    modifies digitsRes
    ensures var ds := DigitsOf(value[startIndex..endIndex + 1], charToDigits, numberBase);
      (err.None? <==> ds.Success?) && (err.Some? ==> err.value == ds.error)
    ensures err.None? ==>
      Val(digitsRes[..]) == Horner(DigitsOf(value[startIndex..endIndex + 1], charToDigits, numberBase).value, numberBase) &&
      forall j :: digitsLength <= j < digitsRes.Length ==> digitsRes[j] == 0
  {
    BitsInChar(numberBase);
    var bitsInChar: nat := Msb(numberBase);
    var digitIndex: nat, initialShift: nat := digitIndex, initialShift;
    ghost var s := value[startIndex..endIndex + 1];
    ghost var h: nat := 0;
    ghost var rem: nat := endIndex + 1 - startIndex;
    assert s[..0] == [];
    ValAllZero(digitsRes[..]);
    assert digitIndex < digitsRes.Length ==> digitsRes[digitIndex] % Pow2(initialShift) == 0 by {
      if digitIndex < digitsRes.Length {
        assert digitsRes[..][digitIndex] == 0;
        MultipleOf(0, Pow2(initialShift));
      }
    }
    var i := startIndex;
    while i <= endIndex
      invariant startIndex <= i <= endIndex + 1 && rem == endIndex + 1 - i
      invariant DigitsOf(s[..i - startIndex], charToDigits, numberBase).Success?
      invariant h == Horner(DigitsOf(s[..i - startIndex], charToDigits, numberBase).value, numberBase)
      invariant Placed(digitsRes[..], h, digitIndex, initialShift, bitsInChar, rem, digitsLength)
    {
      var g: Result<uint32>;
      ghost var h2: nat;
      var next := i + 1;
      g, h2 := ReadDigit(value, startIndex, endIndex, i, next, charToDigits, numberBase, h);
      if g.Failure? {
        return Some(g.error);
      }
      var digit := g.value;
      ghost var rem2 := rem - 1;
      digitIndex, initialShift := PlaceNext(digitsRes, digitIndex, initialShift, digit, bitsInChar, numberBase, h, h2, rem, rem2, digitsLength);
      h := h2;
      rem := rem2;
      i := next;
    }
    assert s[..|s|] == s;
    assert Val(digitsRes[..]) == h by {
      AllPlaced(Val(digitsRes[..]), h, bitsInChar, rem, 32 * digitIndex + initialShift);
    }
    return None;
  }

  /**
   * The state of the power-of-two parser with rem characters to go: the value
   * h read so far sits at bit 32 digitIndex + initialShift == k rem, the bits
   * below it are clear, and nothing is written from digitsLength on.
   */
  ghost predicate Placed(a: seq<uint32>, h: nat, digitIndex: nat, initialShift: nat, k: nat, rem: nat, digitsLength: nat)
  {
    initialShift < 32 && 32 * digitIndex + initialShift == k * rem &&
    32 * digitIndex + initialShift <= 32 * digitsLength && digitsLength <= |a| &&
    Val(a) == h * Pow2(32 * digitIndex + initialShift) &&
    (forall j :: 0 <= j < digitIndex && j < |a| ==> a[j] == 0) &&
    (digitIndex < |a| ==> a[digitIndex] % Pow2(initialShift) == 0) &&
    (forall j :: digitsLength <= j < |a| ==> a[j] == 0)
  }

  /**
   * One more character of a 2^k base: the value so far moves up by k bits and
   * the digit fills the k bits freed below it.
   */
  method PlaceNext(digitsRes: array<uint32>, digitIndex: nat, initialShift: nat, digit: uint32, bitsInChar: nat,
                   numberBase: nat, ghost h: nat, ghost h2: nat, ghost rem: nat, ghost rem2: nat, ghost digitsLength: nat)
    returns (newIndex: nat, newShift: nat)
    requires 1 <= bitsInChar < 32 && numberBase == Pow2(bitsInChar) && digit < numberBase
    requires h2 == h * numberBase + digit && rem >= 1 && rem2 == rem - 1
    requires Placed(digitsRes[..], h, digitIndex, initialShift, bitsInChar, rem, digitsLength)
    modifies digitsRes
    ensures Placed(digitsRes[..], h2, newIndex, newShift, bitsInChar, rem2, digitsLength)
  {
    ghost var v0 := Val(digitsRes[..]);
    ghost var pos := 32 * digitIndex + initialShift;
    MulPred(bitsInChar, rem);
    newIndex, newShift := PlaceDigit(digitsRes, digitIndex, initialShift, digit, bitsInChar);
    PlaceValue(v0, Val(digitsRes[..]), h, digit, numberBase, bitsInChar, 32 * newIndex + newShift, pos);
  }

  /** With no characters left, the value sits at bit 0. */
  lemma {:induction false} AllPlaced(v: nat, h: nat, b: nat, rem: nat, pos: nat)
    requires rem == 0 && pos == b * rem && v == h * Pow2(pos)
    ensures v == h
  {
  }

  /** b (r - 1) == b r - b */
  lemma {:induction false} MulPred(b: nat, r: nat)
    requires r >= 1
    ensures b * (r - 1) == b * r - b && b <= b * r
  {
  }

  /** Placing d at bit p below H placed at bit p + k gives H 2^k + d at bit p. */
  lemma {:induction false} PlaceValue(v0: nat, v1: nat, h: nat, d: nat, b: nat, k: nat, p: nat, q: nat)
    requires q == p + k && v0 == h * Pow2(q) && v1 == v0 + d * Pow2(p) && b == Pow2(k)
    ensures v1 == (h * b + d) * Pow2(p)
  {
    var c := Pow2(p);
    Pow2Sum(k, p, q);
    MulAssoc(h, b, c);
  }

  /**
   * The limbs at and above len are zero, so the first len limbs hold the value,
   * and so do the first len - 1 when limb len - 1 is zero too.
   */
  lemma {:induction false} TopLimbs(a: seq<uint32>, len: nat)
    requires 1 <= len <= |a| && forall j :: len <= j < |a| ==> a[j] == 0
    ensures AllZero(a[len..]) && Val(a[..len]) == Val(a)
    ensures a[len - 1] == 0 ==> Val(a[..len - 1]) == Val(a)
  {
    ValZeroTop(a, len);
    if a[len - 1] == 0 {
      ValZeroTop(a, len - 1);
    }
  }

  /**
   * One character of a 2^k base placed just below bit position
   * 32 digitIndex + initialShift: inside one limb, or split over two when it
   * straddles a limb boundary. The bits it lands on are clear, so OR adds.
   */
  method PlaceDigit(digitsRes: array<uint32>, digitIndex: nat, initialShift: nat, digit: uint32, bitsInChar: nat)
    returns (newIndex: nat, newShift: nat)
    requires 1 <= bitsInChar < 32 && digit < Pow2(bitsInChar)
    requires initialShift < 32 && bitsInChar <= 32 * digitIndex + initialShift <= 32 * digitsRes.Length
    requires forall j :: 0 <= j < digitIndex && j < digitsRes.Length ==> digitsRes[j] == 0
    requires digitIndex < digitsRes.Length ==> digitsRes[digitIndex] % Pow2(initialShift) == 0
    modifies digitsRes
    ensures 32 * newIndex + newShift + bitsInChar == 32 * digitIndex + initialShift
    ensures newShift < 32 && newIndex < digitsRes.Length
    ensures Val(digitsRes[..]) == old(Val(digitsRes[..])) + digit * Pow2(32 * newIndex + newShift)
    ensures forall j :: 0 <= j < newIndex ==> digitsRes[j] == 0
    ensures digitsRes[newIndex] % Pow2(newShift) == 0
    ensures forall j :: 0 <= j < digitsRes.Length && 32 * j >= 32 * digitIndex + initialShift ==> digitsRes[j] == old(digitsRes[j])
  {
    var index: int := digitIndex;
    var shift: int := initialShift;
    if shift == 0 {
      shift := 32 - bitsInChar;
      index := index - 1;
    } else {
      shift := shift - bitsInChar;
    }
    if shift >= 0 {
      // The character fits in limb `index`, below bit shift + bitsInChar.
      assert digitsRes[index] % Pow2(shift + bitsInChar) == 0 by {
        if initialShift == 0 {
          assert digitsRes[index] == 0;
        }
      }
      PlaceWithin(digitsRes, index, shift, digit, bitsInChar);
    } else {
      // The top bits go to limb `index`, the low ones to the limb below.
      PlaceSplit(digitsRes, index - 1, -shift, digit, bitsInChar);
      shift := shift + 32;
      index := index - 1;
    }
    newIndex, newShift := index, shift;
  }

  /** The character lands inside limb j, at bit s. */
  method PlaceWithin(digitsRes: array<uint32>, j: nat, s: nat, digit: uint32, bitsInChar: nat)
    requires j < digitsRes.Length && s + bitsInChar <= 32 && digit < Pow2(bitsInChar)
    requires digitsRes[j] % Pow2(s + bitsInChar) == 0
    modifies digitsRes
    ensures Val(digitsRes[..]) == old(Val(digitsRes[..])) + digit * Pow2(32 * j + s)
    ensures digitsRes[j] % Pow2(s) == 0
    ensures forall i :: 0 <= i < digitsRes.Length && i != j ==> digitsRes[i] == old(digitsRes[i])
  {
    ghost var a := digitsRes[..];
    PlaceInLimb(a, j, s, digit, bitsInChar);
    digitsRes[j] := Or32(digitsRes[j], Shl32(digit, s));
    assert digitsRes[..] == a[j := Or32(a[j], Shl32(digit, s))];
  }

  /** The character straddles limbs j + 1 and j: its low t bits go to the top of limb j. */
  method PlaceSplit(digitsRes: array<uint32>, j: nat, t: nat, digit: uint32, bitsInChar: nat)
    requires j + 1 < digitsRes.Length && 1 <= t < bitsInChar < 32 && digit < Pow2(bitsInChar)
    requires digitsRes[j] == 0 && digitsRes[j + 1] % Pow2(bitsInChar - t) == 0
    modifies digitsRes
    ensures Val(digitsRes[..]) == old(Val(digitsRes[..])) + digit * Pow2(32 * j + (32 - t))
    ensures digitsRes[j] % Pow2(32 - t) == 0
    ensures forall i :: 0 <= i < digitsRes.Length && i != j && i != j + 1 ==> digitsRes[i] == old(digitsRes[i])
  {
    ghost var a := digitsRes[..];
    PlaceAcross(a, j, t, digit, bitsInChar);
    digitsRes[j + 1] := Or32(digitsRes[j + 1], Shr32(digit, t));
    digitsRes[j] := Or32(digitsRes[j], Shl32(digit, 32 - t));
    assert digitsRes[..] == a[j + 1 := Or32(a[j + 1], Shr32(digit, t))][j := Or32(0, Shl32(digit, 32 - t))];
  }

  /** A k-bit digit OR-ed in at bit s of a limb whose bits below s + k are clear. */
  lemma {:induction false} PlaceInLimb(a: seq<uint32>, j: nat, s: nat, d: uint32, k: nat)
    requires j < |a| && s + k <= 32 && d < Pow2(k) && a[j] % Pow2(s + k) == 0
    ensures Val(a[j := Or32(a[j], Shl32(d, s))]) == Val(a) + d * Pow2(32 * j + s)
    ensures Or32(a[j], Shl32(d, s)) % Pow2(s) == 0
  {
    ShlFits(d, s, k);
    var y := Shl32(d, s);
    OrIntoClear(a[j], y, s + k);
    ClearBelow(a[j], d, s, k);
    ValAddAt(a, j, y);
    LimbPosition(d, s, j, y);
  }

  /**
   * A k-bit digit split at bit t: its top k - t bits OR-ed into the clear
   * bottom of limb j + 1, its low t bits at the top of the zero limb j.
   */
  lemma {:induction false} PlaceAcross(a: seq<uint32>, j: nat, t: nat, d: uint32, k: nat)
    requires j + 1 < |a| && 1 <= t < k < 32 && d < Pow2(k)
    requires a[j] == 0 && a[j + 1] % Pow2(k - t) == 0
    ensures var hi := Or32(a[j + 1], Shr32(d, t));
      var lo := Or32(0, Shl32(d, 32 - t));
      Val(a[j + 1 := hi][j := lo]) == Val(a) + d * Pow2(32 * j + 32 - t) &&
      lo % Pow2(32 - t) == 0
  {
    var high := Shr32(d, t);
    ShrFits(d, t, k);
    OrIntoClear(a[j + 1], high, k - t);
    ValAddAt(a, j + 1, high);
    var a1 := a[j + 1 := a[j + 1] + high];
    var low := Shl32(d, 32 - t);
    ShlWraps(d, t);
    OrZero(low);
    BitwiseSymmetric(OrOp, 0, low);
    ValAddAt(a1, j, low);
    assert a1[j := a1[j] + low] == a[j + 1 := Or32(a[j + 1], high)][j := Or32(0, low)];
    SplitPosition(d, t, j, high, low);
    MultipleOf(d % Pow2(t), Pow2(32 - t));
  }

  /** A multiple of p leaves no remainder. */
  lemma {:induction false} MultipleOf(r: nat, p: nat)
    requires p > 0
    ensures (r * p) % p == 0
  {
    ModAddMultiple(0, p, r);
  }

  /** x | y == x + y when y lies below bit m and x has no bits there. */
  lemma {:induction false} OrIntoClear(x: uint32, y: uint32, m: nat)
    requires x % Pow2(m) == 0 && y < Pow2(m)
    ensures Or32(x, y) == x + y
  {
    var pm := Pow2(m);
    var q := x / pm;
    DivMulBack(x, pm);
    OrDisjoint(y, q, m);
    BitwiseSymmetric(OrOp, x, y);
  }

  /** a c < b c for 0 <= a < b and c > 0. */
  lemma {:induction false} MulStrict(a: int, b: int, c: int)
    requires 0 <= a < b && c > 0
    ensures a * c < b * c
  {
    MulLe(a + 1, b, c);
  }

  /** 2^n fits in a word's range for n <= 32. */
  lemma {:induction false} WordBound(n: nat)
    requires n <= 32
    ensures Pow2(n) <= BASE
  {
    Pow2Monotone(n, 32);
    Pow2Small();
  }

  /** A digit of k bits shifted left by s stays within the word when s + k <= 32. */
  lemma {:induction false} ShlFits(d: uint32, s: nat, k: nat)
    requires d < Pow2(k) && s + k <= 32
    ensures Shl32(d, s) == d * Pow2(s) < Pow2(s + k)
  {
    Pow2Sum(k, s, s + k);
    WordBound(s + k);
    ScaledFits(d, Pow2(s), Pow2(k), Pow2(s + k));
  }

  /** d ps stays below pk ps, so it stays below the word base. */
  lemma {:induction false} ScaledFits(d: nat, ps: nat, pk: nat, psk: nat)
    requires d < pk && ps > 0 && pk * ps == psk <= BASE
    ensures (d * ps) % BASE == d * ps < psk
  {
    MulStrict(d, pk, ps);
    ModSmall(d * ps, BASE);
  }

  /** d < q p implies d / p < q. */
  lemma {:induction false} QuotientBelow(d: nat, p: nat, q: nat)
    requires p > 0 && d < q * p
    ensures d / p < q
  {
    var h := d / p;
    if h >= q {
      MulLe(q, h, p);
      assert false;
    }
  }

  /** The top k - t bits of a k-bit digit. */
  lemma {:induction false} ShrFits(d: uint32, t: nat, k: nat)
    requires d < Pow2(k) && t <= k
    ensures Shr32(d, t) < Pow2(k - t)
  {
    var pt, pkt := Pow2(t), Pow2(k - t);
    Pow2Sum(k - t, t, k);
    QuotientBelow(d, pt, pkt);
  }

  /** (q p + r) u == q (p u) + r u */
  lemma {:induction false} WrapSplit(d: int, q: int, r: int, p: int, u: int)
    requires d == q * p + r
    ensures d * u == q * (p * u) + r * u
  {
    MulAssoc(q, p, u);
  }

  /** Shifting left by 32 - t keeps the low t bits of the digit, at the top of the word. */
  lemma {:induction false} ShlWraps(d: uint32, t: nat)
    requires 1 <= t <= 32
    ensures Shl32(d, 32 - t) == (d % Pow2(t)) * Pow2(32 - t)
  {
    Pow2Sum(t, 32 - t, 32);
    WordExact(Pow2(t) * Pow2(32 - t));
    KeepLowBits(d, Pow2(t), Pow2(32 - t));
  }

  /** (d u) % (p u) == (d % p) u: multiplying by u keeps the residue modulo p, scaled. */
  lemma {:induction false} KeepLowBits(d: nat, pt: nat, pu: nat)
    requires pt > 0 && pu > 0
    ensures (d * pu) % (pt * pu) == (d % pt) * pu
  {
    var q, r := d / pt, d % pt;
    DivMulBack(d, pt);
    WrapSplit(d, q, r, pt, pu);
    MulStrict(r, pt, pu);
    DivModUnique(d * pu, pt * pu, q, r * pu);
  }

  /** 2^32 is the word base. */
  lemma {:induction false} WordExact(p: nat)
    requires p == Pow2(32)
    ensures p == BASE
  {
    Pow2Small();
  }

  /** (x + m a) % a == 0 when x is a multiple of a b. */
  lemma {:induction false} MultipleStep(x: nat, m: nat, a: nat, b: nat)
    requires a > 0 && b > 0 && x % (a * b) == 0
    ensures (x + m * a) % a == 0
  {
    var q := x / (a * b);
    assert x == (a * b) * q;
    MulAssoc(a, b, q);
    var c := b * q + m;
    assert x + m * a == a * c;
    ModAddMultiple(0, a, c);
  }

  /** A limb with no bits below s + k keeps none below s after a digit is added at s. */
  lemma {:induction false} ClearBelow(x: nat, d: nat, s: nat, k: nat)
    requires x % Pow2(s + k) == 0
    ensures (x + d * Pow2(s)) % Pow2(s) == 0
  {
    Pow2Sum(s, k, s + k);
    MultipleStep(x, d, Pow2(s), Pow2(k));
  }

  /** A digit at bit s of limb j sits at bit 32 j + s of the number. */
  lemma {:induction false} LimbPosition(d: nat, s: nat, j: nat, y: nat)
    requires y == d * Pow2(s)
    ensures y * Pow(j) == d * Pow2(32 * j + s)
  {
    PowIsPow2(j);
    Pow2Sum(s, 32 * j, 32 * j + s);
    MulAssoc(d, Pow2(s), Pow2(32 * j));
  }

  /** The two halves of a split digit add back up: h pj1 + low pj == d p. */
  lemma {:induction false} SplitArith(d: int, h: int, r: int, low: int, pt: int, pu: int, pj: int, pj1: int, p: int)
    requires d == h * pt + r && low == r * pu && p == pj * pu && pj1 == p * pt
    ensures h * pj1 + low * pj == d * p
  {
    MulAssoc(h, p, pt);
    MulAssoc(r, pu, pj);
  }

  /** A digit split at bit t over limbs j + 1 and j sits at bit 32 j + 32 - t. */
  lemma {:induction false} SplitPosition(d: nat, t: nat, j: nat, high: nat, low: nat)
    requires 1 <= t <= 32 && high == d / Pow2(t) && low == (d % Pow2(t)) * Pow2(32 - t)
    ensures high * Pow(j + 1) + low * Pow(j) == d * Pow2(32 * j + 32 - t)
  {
    PowIsPow2(j);
    PowIsPow2(j + 1);
    Pow2Sum(32 * j + 32 - t, t, 32 * (j + 1));
    Pow2Sum(32 * j, 32 - t, 32 * j + 32 - t);
    SplitDivided(d, high, low, Pow2(t), Pow2(32 - t), Pow(j), Pow(j + 1), Pow2(32 * j + 32 - t));
  }

  /** The quotient and the shifted remainder by pt recombine into d at p. */
  lemma {:induction false} SplitDivided(d: nat, h: nat, low: nat, pt: nat, pu: nat, pj: nat, pj1: nat, p: nat)
    requires pt > 0 && h == d / pt && low == (d % pt) * pu && p == pj * pu && pj1 == p * pt
    ensures h * pj1 + low * pj == d * p
  {
    DivMulBack(d, pt);
    SplitArith(d, h, d % pt, low, pt, pu, pj, pj1, p);
  }

  // ---------------------------------------------------------------------------
  // The default range parser

  /** The digits of value[startIndex..endIndex], the character range a range parser reads. */
  function RangeDigits(value: string, startIndex: nat, endIndex: nat, charToDigits: Dictionary, numberBase: nat): (r: Result<seq<uint32>>)
    requires startIndex <= endIndex < |value|
    ensures r.Success? ==> |r.value| == endIndex + 1 - startIndex
  {
    DigitsOf(value[startIndex..endIndex + 1], charToDigits, numberBase)
  }

  /** The digits were read and the first of them is not zero. */
  predicate LeadingNonZero(ds: Result<seq<uint32>>)
  {
    ds.Success? && |ds.value| >= 1 && ds.value[0] != 0
  }

  /**
   * With a non-zero leading digit the bit packer's result needs all its
   * ceil(n k / 32) limbs but possibly the top one, so dropping a zero top limb
   * leaves no zero limb on top.
   */
  lemma {:induction false} Pow2LeadingTrimmed(a: seq<uint32>, len: nat, r: nat, ds: seq<uint32>, numberBase: uint32)
    requires numberBase >= 2 && numberBase == Pow2(Msb(numberBase)) && |ds| >= 1 && ds[0] != 0
    requires len == Pow2ParseLength(|ds|, numberBase) && len <= |a|
    requires r == len - (if a[len - 1] == 0 then 1 else 0) && Val(a[..r]) == Horner(ds, numberBase)
    ensures Trimmed(a[..r])
  {
    var k := Msb(numberBase);
    var n := |ds|;
    BitsInChar(numberBase);
    HornerLeading(ds, numberBase);
    MulLe(1, ds[0], IntPow(numberBase, n - 1));
    IntPowOfPow2(k, n - 1);
    assert len == LimbsForBits(n * k);
    TopLimbNotZero(a[..r], Horner(ds, numberBase), k, n, len);
  }

  /** A value of at least 2^(k(n-1)) keeps a non-zero limb at index ceil(n k / 32) - 2. */
  lemma {:induction false} TopLimbNotZero(s: seq<uint32>, v: nat, k: nat, n: nat, len: nat)
    requires 1 <= k < 32 && n >= 1 && len == LimbsForBits(n * k) && len - 1 <= |s| <= len
    requires |s| == len ==> s[len - 1] != 0
    requires v == Val(s) && v >= Pow2(k * (n - 1))
    ensures Trimmed(s)
  {
    var m := |s|;
    if m > 0 && s[m - 1] == 0 {
      assert Val(s) == Val(s[..m - 1]);
      ValBound(s[..m - 1]);
      PowIsPow2(m - 1);
      assert 32 * (m - 1) < k * (n - 1) by {
        assert 32 * len < n * k + 32;
        MulPred(k, n);
      }
      Pow2Monotone(32 * (m - 1), k * (n - 1));
    } else if m == 0 {
      assert Val(s) == 0;
    }
  }

  /** A length result fails exactly when the digits do, and with the same error. */
  predicate Agrees(r: Result<nat>, ds: Result<seq<uint32>>)
  {
    (r.Success? <==> ds.Success?) && (r.Failure? ==> r.error == ds.error)
  }

  /** b^n fits in len limbs: the buffer a range parser writes is big enough for n digits. */
  predicate RoomFor(n: nat, numberBase: nat, len: nat)
  {
    IntPow(numberBase, n) <= Pow(len)
  }

  /** For a base 2^k, room for n digits is room for the ceil(n k / 32) limbs the bit packer uses. */
  lemma {:induction false} Pow2Room(n: nat, numberBase: uint32, len: nat)
    requires n >= 1 && numberBase >= 2 && numberBase == Pow2(Msb(numberBase))
    requires RoomFor(n, numberBase, len)
    ensures Pow2ParseLength(n, numberBase) <= len
  {
    var k := Msb(numberBase);
    BitsInChar(numberBase);
    RoomForBits(n, k, len);
    assert Pow2ParseLength(n, numberBase) == LimbsForBits(n * k);
  }

  lemma {:induction false} RoomForBits(n: nat, k: nat, len: nat)
    requires IntPow(Pow2(k), n) <= Pow(len)
    ensures LimbsForBits(n * k) <= len
  {
    IntPowOfPow2(k, n);
    assert Pow(len) == Pow2(32 * len) by { IntPowIsPow(len); Pow2Small(); IntPowOfPow2(32, len); }
    Pow2Order(k * n, 32 * len);
    assert n * k == k * n;
    LimbsWithin(k * n, len);
  }

  lemma {:induction false} Pow2Order(a: nat, b: nat)
    requires Pow2(a) <= Pow2(b)
    ensures a <= b
  {
    if a > b {
      Pow2Monotone(b + 1, a);
    }
  }

  lemma {:induction false} LimbsWithin(x: nat, len: nat)
    requires x <= 32 * len
    ensures LimbsForBits(x) <= len
  {
  }

  /**
   * The range parser every strategy starts with: a base that is a power of two
   * goes to the bit packer, any other base reports length 0 and leaves the
   * buffer alone.
   */
  method ParseRange(value: string, startIndex: nat, endIndex: nat, numberBase: uint32,
                    charToDigits: Dictionary, digitsRes: array<uint32>) returns (r: Result<nat>)
    requires startIndex <= endIndex < |value| && numberBase >= 2
    requires AllZero(digitsRes[..]) && RoomFor(endIndex + 1 - startIndex, numberBase, digitsRes.Length)
    modifies digitsRes
    ensures numberBase != Pow2(Msb(numberBase)) ==> r == Success(0) && digitsRes[..] == old(digitsRes[..])
    ensures numberBase == Pow2(Msb(numberBase)) ==>
      Agrees(r, RangeDigits(value, startIndex, endIndex, charToDigits, numberBase))
    ensures r.Success? ==> r.value <= digitsRes.Length && AllZero(digitsRes[r.value..])
    ensures r.Success? && numberBase == Pow2(Msb(numberBase)) ==>
      Val(digitsRes[..r.value]) == Horner(RangeDigits(value, startIndex, endIndex, charToDigits, numberBase).value, numberBase)
    ensures r.Success? && numberBase == Pow2(Msb(numberBase)) ==>
      LeadingNonZero(RangeDigits(value, startIndex, endIndex, charToDigits, numberBase)) ==> Trimmed(digitsRes[..r.value])
  {
    if numberBase == Pow2(Msb(numberBase)) {
      Pow2Room(endIndex + 1 - startIndex, numberBase, digitsRes.Length);
      r := Pow2Parse(value, startIndex, endIndex, numberBase, charToDigits, digitsRes);
      if r.Success? {
        var len := Pow2ParseLength(endIndex + 1 - startIndex, numberBase);
        assert digitsRes[r.value..] == [digitsRes[len - 1]] + digitsRes[len..] || r.value == len;
        var ds := RangeDigits(value, startIndex, endIndex, charToDigits, numberBase);
        if LeadingNonZero(ds) {
          Pow2LeadingTrimmed(digitsRes[..], len, r.value, ds.value, numberBase);
        }
      }
    } else {
      r := Success(0);
    }
  }
}
