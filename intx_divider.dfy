/**
 * Division of whole numbers: the special cases every divider handles on
 * signed values (a zero divisor, a zero dividend, a divisor of magnitude one,
 * a dividend not larger than the divisor), then the limb-level division of
 * the chosen strategy, and the entry points Divide, Modulo and DivideModulo.
 *
 * The quotient is truncated toward zero and the remainder takes the sign of
 * the dividend, as in C++: -16 / 5 == -3 and -16 % 5 == -1.
 */
module IntXDivider {
  import opened Limbs
  import opened Errors
  import opened BigInteger
  import DigitOpHelper
  import DividerBase
  import ClassicDivider
  import AutoNewtonDivider
  import OpHelper

  /** The divider strategies: Newton's method on long operands, or Knuth's algorithm D always. */
  datatype DivideMode = AutoNewton | Classic

  function Abs(x: int): nat
  {
    if x < 0 then -x else x
  }

  /** Truncating division: q * b + r == a, |r| < |b|, and a non-zero r has the sign of a. */
  predicate TruncatedDivision(a: int, b: int, q: int, r: int)
  {
    q * b + r == a && Abs(r) < Abs(b) && (r == 0 || (r < 0 <==> a < 0))
  }

  /** The quotient rounded toward zero. */
  function Quotient(a: int, b: int): int
    requires b != 0
  {
    var q: int := Abs(a) / Abs(b);
    if (a < 0) != (b < 0) then -q else q
  }

  /** The remainder of Quotient, with the sign of the dividend. */
  function Remainder(a: int, b: int): int
    requires b != 0
  {
    var r: int := Abs(a) % Abs(b);
    if a < 0 then -r else r
  }

  /** Quotient and Remainder are a truncating division. */
  lemma {:induction false} QuotientRemainder(a: int, b: int)
    requires b != 0
    ensures TruncatedDivision(a, b, Quotient(a, b), Remainder(a, b))
  {
    var x: int, y: int := Abs(a), Abs(b);
    var q: int, r: int := x / y, x % y;
    SignedFromMagnitudes(a, b, x, y, q, r, Quotient(a, b), Remainder(a, b));
  }

  /** The magnitudes' division with the signs put back is a truncating division. */
  lemma {:induction false} SignedFromMagnitudes(a: int, b: int, x: int, y: int, q: int, r: int, sq: int, sr: int)
    requires x == Abs(a) && y == Abs(b) && y > 0
    requires q == x / y && r == x % y
    requires sq == (if (a < 0) != (b < 0) then -q else q)
    requires sr == (if a < 0 then -r else r)
    ensures TruncatedDivision(a, b, sq, sr)
  {
    assert q * y + r == x && 0 <= r < y;
    if a < 0 {
      assert sq * b == -(q * y);
    } else {
      assert sq * b == q * y;
    }
  }

  /** Conversely, a truncating division can only be Quotient and Remainder. */
  lemma {:induction false} TruncatedIsQuotient(a: int, b: int, q: int, r: int)
    requires TruncatedDivision(a, b, q, r)
    ensures q == Quotient(a, b) && r == Remainder(a, b)
  {
    var x: int, y: int := Abs(a), Abs(b);
    var qx: int := if (a < 0) != (b < 0) then -q else q;
    var rx: int := if a < 0 then -r else r;
    MagnitudeDivision(a, b, q, r, x, y, qx, rx);
    DivModUnique(x, y, qx, rx);
  }

  /** Dropping the signs of a truncating division leaves the division of the magnitudes. */
  lemma {:induction false} MagnitudeDivision(a: int, b: int, q: int, r: int, x: int, y: int, qx: int, rx: int)
    requires TruncatedDivision(a, b, q, r)
    requires x == Abs(a) && y == Abs(b)
    requires qx == (if (a < 0) != (b < 0) then -q else q)
    requires rx == (if a < 0 then -r else r)
    ensures x == qx * y + rx && 0 <= rx < y
  {
    if a < 0 {
      assert q * b == -(qx * y);
    } else {
      assert q * b == qx * y;
    }
  }

  /** The signed values of two magnitudes divide as their magnitudes do, with the signs applied. */
  lemma {:induction false} SignedQuotient(n1: bool, v1: nat, n2: bool, v2: nat)
    requires v2 >= 1
    ensures Quotient(Signed(n1, v1), Signed(n2, v2)) == Signed(n1 != n2, v1 / v2)
    ensures Remainder(Signed(n1, v1), Signed(n2, v2)) == Signed(n1, v1 % v2)
  {
    if v1 == 0 {
      DivZero(0, v2);
    }
  }

  /**
   * Divides int1 by int2 with the divider `mode` selects. A zero divisor
   * fails with DivideByZero (before the zero dividend is looked at, so 0 / 0
   * fails too). Otherwise the quotient, if requested, is Quotient(a, b) and
   * the remainder, if requested, Remainder(a, b); a result not requested is
   * a fresh zero. The remainder is built with the dividend's sign and only
   * normalised when autoNormalize is set, so an exact division of a
   * negative dividend leaves a zero whose sign is set.
   */
  method DivMod(int1: IntX, int2: IntX, flags: DividerBase.ResultFlags, mode: DivideMode, autoNormalize: bool)
    returns (r: Result<(IntX, IntX)>)
    requires int1.Normal() && int2.Normal() && int1.length + 2 < BASE
    requires mode == AutoNewton && !AutoNewtonDivider.IsClassicAlgorithmNeeded(int1.length, int2.length)
             && DividerBase.NeedsGeneral(int1.Magnitude(), int2.Magnitude())
             ==> AutoNewtonDivider.NewtonAccurate(int1.Magnitude(), int2.Magnitude())
    ensures r.Failure? <==> int2.length == 0
    ensures r.Failure? ==> r.error == DivideByZero
    ensures r.Success? ==> fresh(r.value.0) && fresh(r.value.1) && r.value.0.Normal() && r.value.1.Normal()
    ensures r.Success? ==> r.value.0.Value() == (if flags.divNeeded then Quotient(int1.Value(), int2.Value()) else 0)
    ensures r.Success? ==> r.value.1.Value() == (if flags.modNeeded then Remainder(int1.Value(), int2.Value()) else 0)
    ensures r.Success? && flags.modNeeded && int1.length != 0 && !IsUnit(int2) && int1.Magnitude() != int2.Magnitude() ==>
      r.value.1.negative == (int1.negative && (r.value.1.length != 0 || !autoNormalize))
    ensures r.Success? && !flags.modNeeded ==> !r.value.1.negative
  {
    if int2.length == 0 {
      return Failure(DivideByZero);
    }
    NormalNonZero(int2);
    var q, m := DivModNonZero(int1, int2, flags, mode, autoNormalize);
    r := Success((q, m));
  }

  /** The divisor is one or minus one: a single limb of value 1. */
  predicate IsUnit(x: IntX)
    reads x
    requires x.Valid()
  {
    x.length == 1 && x.digits[0] == 1
  }

  /** DivMod past the zero-divisor check, on magnitudes and signs. */
  method DivModNonZero(int1: IntX, int2: IntX, flags: DividerBase.ResultFlags, mode: DivideMode, autoNormalize: bool)
    returns (q: IntX, m: IntX)
    requires int1.Normal() && int2.Normal() && int1.length + 2 < BASE && int2.length >= 1
    requires Val(int2.Magnitude()) >= 1
    requires mode == AutoNewton && !AutoNewtonDivider.IsClassicAlgorithmNeeded(int1.length, int2.length)
             && DividerBase.NeedsGeneral(int1.Magnitude(), int2.Magnitude())
             ==> AutoNewtonDivider.NewtonAccurate(int1.Magnitude(), int2.Magnitude())
    ensures fresh(q) && fresh(m) && q.Normal() && m.Normal()
    ensures q.Value() == (if flags.divNeeded then Quotient(int1.Value(), int2.Value()) else 0)
    ensures m.Value() == (if flags.modNeeded then Remainder(int1.Value(), int2.Value()) else 0)
    ensures flags.modNeeded && int1.length != 0 && !IsUnit(int2) && int1.Magnitude() != int2.Magnitude() ==>
      m.negative == (int1.negative && (m.length != 0 || !autoNormalize))
    ensures !flags.modNeeded ==> !m.negative
  {
    var a, b := int1.Magnitude(), int2.Magnitude();
    SignedQuotient(int1.negative, Val(a), int2.negative, Val(b));
    if int1.length == 0 {
      DivZero(0, Val(b));
      q := new IntX();
      m := new IntX();
      return;
    }
    if IsUnit(int2) {
      q := UnitDivisor(int1, int2, flags.divNeeded);
      m := new IntX();
      return;
    }
    q, m := DivideCompared(int1, int2, flags, mode, autoNormalize);
  }

  /**
   * A non-zero dividend and a divisor other than one: compare the
   * magnitudes; a smaller dividend is the remainder, an equal one gives a
   * quotient of one with the result's sign, a larger one the general case.
   */
  method DivideCompared(int1: IntX, int2: IntX, flags: DividerBase.ResultFlags, mode: DivideMode, autoNormalize: bool)
    returns (q: IntX, m: IntX)
    requires int1.Normal() && int2.Normal() && int1.length + 2 < BASE && int2.length >= 1 && int1.length >= 1
    requires Val(int2.Magnitude()) >= 1
    requires mode == AutoNewton && !AutoNewtonDivider.IsClassicAlgorithmNeeded(int1.length, int2.length)
             && DividerBase.NeedsGeneral(int1.Magnitude(), int2.Magnitude())
             ==> AutoNewtonDivider.NewtonAccurate(int1.Magnitude(), int2.Magnitude())
    ensures fresh(q) && fresh(m) && q.Normal() && m.Normal()
    ensures q.Value() == (if flags.divNeeded then Quotient(int1.Value(), int2.Value()) else 0)
    ensures m.Value() == (if flags.modNeeded then Remainder(int1.Value(), int2.Value()) else 0)
    ensures flags.modNeeded && int1.Magnitude() != int2.Magnitude() ==>
      m.negative == (int1.negative && (m.length != 0 || !autoNormalize))
    ensures !flags.modNeeded ==> !m.negative
  {
    var a, b := int1.Magnitude(), int2.Magnitude();
    SignedQuotient(int1.negative, Val(a), int2.negative, Val(b));
    var resultNegative := int1.negative != int2.negative;
    var compareResult := DigitOpHelper.Cmp(a, b);
    if compareResult < 0 {
      DivZero(Val(a), Val(b));
      ModSmall(Val(a), Val(b));
      q := new IntX();
      m := new IntX();
      if flags.modNeeded {
        m := new IntX.Copy(int1);
      }
    } else if compareResult == 0 {
      ValInjective(a, b);
      DivModUnique(Val(a), Val(b), 1, 0);
      q := new IntX();
      if flags.divNeeded {
        q := new IntX.FromInt32(if resultNegative then -1 else 1);
      }
      m := new IntX();
    } else {
      q, m := DivideGeneral(int1, int2, flags, mode, autoNormalize);
    }
  }

  /** Division by one or minus one: the dividend, negated for minus one. */
  method UnitDivisor(int1: IntX, int2: IntX, divNeeded: bool) returns (q: IntX)
    requires int1.Normal() && int2.Valid() && IsUnit(int2)
    ensures fresh(q) && q.Normal()
    ensures q.Value() == (if divNeeded then Quotient(int1.Value(), int2.Value()) else 0)
  {
    ValSingle(1);
    assert int2.Magnitude() == [1];
    SignedQuotient(int1.negative, Val(int1.Magnitude()), int2.negative, 1);
    q := new IntX();
    if divNeeded {
      q := new IntX.Copy(int1);
      if int2.negative {
        var _ := q.Negate();
      }
    }
  }

  /**
   * The general case, past the special ones: the quotient is built in a
   * buffer of len1 - len2 + 2 limbs with the sign of the result, the
   * remainder in one of len1 + 2 limbs with the dividend's sign; the
   * limb-level division fills them and sets their lengths.
   */
  method DivideGeneral(int1: IntX, int2: IntX, flags: DividerBase.ResultFlags, mode: DivideMode, autoNormalize: bool)
    returns (q: IntX, m: IntX)
    requires int1.Normal() && int2.Normal() && int1.length + 2 < BASE
    requires int2.length >= 1 && Val(int1.Magnitude()) > Val(int2.Magnitude())
    requires mode == AutoNewton && !AutoNewtonDivider.IsClassicAlgorithmNeeded(int1.length, int2.length)
             && DividerBase.NeedsGeneral(int1.Magnitude(), int2.Magnitude())
             ==> AutoNewtonDivider.NewtonAccurate(int1.Magnitude(), int2.Magnitude())
    ensures fresh(q) && fresh(m) && q.Normal() && m.Normal()
    ensures q.Value() == (if flags.divNeeded then Quotient(int1.Value(), int2.Value()) else 0)
    ensures m.Value() == (if flags.modNeeded then Remainder(int1.Value(), int2.Value()) else 0)
    ensures flags.modNeeded ==> m.negative == (int1.negative && (m.length != 0 || !autoNormalize))
    ensures !flags.modNeeded ==> !m.negative
  {
    var a, b := int1.Magnitude(), int2.Magnitude();
    SignedQuotient(int1.negative, Val(a), int2.negative, Val(b));
    var n1, n2 := int1.negative, int2.negative;
    var qDigits, qLength, mDigits, mLength := DivideLimbs(a, b, flags, mode);
    q := new IntX();
    if flags.divNeeded {
      q := Built(qDigits, qLength, n1 != n2, autoNormalize);
    }
    m := new IntX();
    if flags.modNeeded {
      m := Built(mDigits, mLength, n1, autoNormalize);
    }
  }

  /**
   * The limb-level division on the buffers the general case allocates: a
   * quotient buffer of len1 - len2 + 2 limbs when the quotient is needed,
   * a remainder buffer of len1 + 2 limbs when the remainder is, and no
   * divisor buffer (the divider allocates one).
   */
  method DivideLimbs(a: seq<uint32>, b: seq<uint32>, flags: DividerBase.ResultFlags, mode: DivideMode)
    returns (qDigits: seq<uint32>, qLength: nat, mDigits: seq<uint32>, mLength: nat)
    requires Trimmed(a) && Trimmed(b) && |b| >= 1 && |a| + 2 < BASE && Val(a) > Val(b)
    requires mode == AutoNewton && !AutoNewtonDivider.IsClassicAlgorithmNeeded(|a|, |b|) && DividerBase.NeedsGeneral(a, b)
             ==> AutoNewtonDivider.NewtonAccurate(a, b)
    ensures flags.divNeeded ==> |qDigits| == |a| - |b| + 2
    ensures flags.modNeeded ==> |mDigits| == |a| + 2
    ensures flags.divNeeded ==> qLength <= |qDigits| && Val(qDigits[..qLength]) == Val(a) / Val(b) && Trimmed(qDigits[..qLength])
    ensures flags.modNeeded ==> mLength <= |mDigits| && Val(mDigits[..mLength]) == Val(a) % Val(b) && Trimmed(mDigits[..mLength])
  {
    assert |b| <= |a| by {
      if |a| < |b| {
        ValLengthOrder(a, b);
      }
    }
    var divDigits := new uint32[if flags.divNeeded then |a| - |b| + 2 else 0](_ => 0);
    var modDigits := new uint32[if flags.modNeeded then |a| + 2 else 0](_ => 0);
    var divisorBuffer := new uint32[0];
    var remainder: array<uint32>;
    if mode == Classic {
      qLength, mLength, remainder := ClassicDivider.DivModBuffers(a, modDigits, b, divisorBuffer, divDigits, flags, 1);
    } else {
      qLength, mLength, remainder := AutoNewtonDivider.DivModBuffers(a, modDigits, b, divisorBuffer, divDigits, flags, 1);
    }
    qDigits, mDigits := divDigits[..], remainder[..];
  }

  /**
   * A result object as the general case leaves it: the buffer as storage,
   * the length the divider returned, the sign it was created with, and
   * TryNormalize applied.
   */
  method Built(ds: seq<uint32>, len: nat, neg: bool, autoNormalize: bool) returns (x: IntX)
    requires len <= |ds| && |ds| < BASE && Trimmed(ds[..len])
    ensures fresh(x) && x.Normal() && x.length == len
    ensures x.Value() == Signed(neg, Val(ds[..len]))
    ensures x.negative == (neg && (len != 0 || !autoNormalize))
  {
    x := new IntX.WithLength(|ds|, neg);
    x.digits, x.length := ds, len;
    assert x.Magnitude() == ds[..len];
    x.TryNormalize(autoNormalize);
  }

  /** IntX::Divide: the quotient alone. */
  method Divide(int1: IntX, int2: IntX, mode: DivideMode, autoNormalize: bool) returns (r: Result<IntX>)
    requires int1.Normal() && int2.Normal() && int1.length + 2 < BASE
    requires mode == AutoNewton && !AutoNewtonDivider.IsClassicAlgorithmNeeded(int1.length, int2.length)
             && DividerBase.NeedsGeneral(int1.Magnitude(), int2.Magnitude())
             ==> AutoNewtonDivider.NewtonAccurate(int1.Magnitude(), int2.Magnitude())
    ensures r.Failure? <==> int2.length == 0
    ensures r.Failure? ==> r.error == DivideByZero
    ensures r.Success? ==> fresh(r.value) && r.value.Normal() && r.value.Value() == Quotient(int1.Value(), int2.Value())
  {
    var res := DivMod(int1, int2, DividerBase.ResultFlags(true, false), mode, autoNormalize);
    if res.Failure? {
      return Failure(res.error);
    }
    r := Success(res.value.0);
  }

  /** IntX::Modulo: the remainder alone, with the dividend's sign. */
  method Modulo(int1: IntX, int2: IntX, mode: DivideMode, autoNormalize: bool) returns (r: Result<IntX>)
    requires int1.Normal() && int2.Normal() && int1.length + 2 < BASE
    requires mode == AutoNewton && !AutoNewtonDivider.IsClassicAlgorithmNeeded(int1.length, int2.length)
             && DividerBase.NeedsGeneral(int1.Magnitude(), int2.Magnitude())
             ==> AutoNewtonDivider.NewtonAccurate(int1.Magnitude(), int2.Magnitude())
    ensures r.Failure? <==> int2.length == 0
    ensures r.Failure? ==> r.error == DivideByZero
    ensures r.Success? ==> fresh(r.value) && r.value.Normal() && r.value.Value() == Remainder(int1.Value(), int2.Value())
    ensures r.Success? && int1.length != 0 && !IsUnit(int2) && int1.Magnitude() != int2.Magnitude() ==>
      r.value.negative == (int1.negative && (r.value.length != 0 || !autoNormalize))
  {
    var res := DivMod(int1, int2, DividerBase.ResultFlags(false, true), mode, autoNormalize);
    if res.Failure? {
      return Failure(res.error);
    }
    r := Success(res.value.1);
  }

  /** IntX::DivideModulo: both results, which together are a truncating division. */
  method DivideModulo(int1: IntX, int2: IntX, mode: DivideMode, autoNormalize: bool) returns (r: Result<(IntX, IntX)>)
    requires int1.Normal() && int2.Normal() && int1.length + 2 < BASE
    requires mode == AutoNewton && !AutoNewtonDivider.IsClassicAlgorithmNeeded(int1.length, int2.length)
             && DividerBase.NeedsGeneral(int1.Magnitude(), int2.Magnitude())
             ==> AutoNewtonDivider.NewtonAccurate(int1.Magnitude(), int2.Magnitude())
    ensures r.Failure? <==> int2.length == 0
    ensures r.Failure? ==> r.error == DivideByZero
    ensures r.Success? ==> fresh(r.value.0) && fresh(r.value.1) && r.value.0.Normal() && r.value.1.Normal()
    ensures r.Success? ==> TruncatedDivision(int1.Value(), int2.Value(), r.value.0.Value(), r.value.1.Value())
  {
    r := DivMod(int1, int2, DividerBase.ResultFlags(true, true), mode, autoNormalize);
    if r.Success? {
      QuotientRemainder(int1.Value(), int2.Value());
    }
  }

  /**
   * DivMod with both results normalised whatever the settings say, so that
   * a zero result never carries a sign, as Normalize and the limb-vector
   * constructor keep it everywhere else.
   */
  method DivModNormalized(int1: IntX, int2: IntX, flags: DividerBase.ResultFlags, mode: DivideMode)
    returns (r: Result<(IntX, IntX)>)
    requires int1.Normal() && int2.Normal() && int1.length + 2 < BASE
    requires mode == AutoNewton && !AutoNewtonDivider.IsClassicAlgorithmNeeded(int1.length, int2.length)
             && DividerBase.NeedsGeneral(int1.Magnitude(), int2.Magnitude())
             ==> AutoNewtonDivider.NewtonAccurate(int1.Magnitude(), int2.Magnitude())
    ensures r.Failure? <==> int2.length == 0
    ensures r.Failure? ==> r.error == DivideByZero
    ensures r.Success? ==> fresh(r.value.0) && fresh(r.value.1) && r.value.0.Normal() && r.value.1.Normal()
    ensures r.Success? ==> r.value.0.Value() == (if flags.divNeeded then Quotient(int1.Value(), int2.Value()) else 0)
    ensures r.Success? ==> r.value.1.Value() == (if flags.modNeeded then Remainder(int1.Value(), int2.Value()) else 0)
    ensures r.Success? ==> (r.value.0.negative ==> r.value.0.Value() < 0) && (r.value.1.negative ==> r.value.1.Value() < 0)
  {
    r := DivMod(int1, int2, flags, mode, false);
    if r.Success? {
      SignedZeroCleared(r.value.0);
      SignedZeroCleared(r.value.1);
    }
  }

  /** Normalize on a normal number: the value stays, and a sign is left only on a number below zero. */
  method SignedZeroCleared(x: IntX)
    requires x.Normal()
    modifies x
    ensures x.Normal() && x.Value() == old(x.Value())
    ensures x.negative ==> x.Value() < 0
  {
    x.Normalize();
    NormalNonZero(x);
  }

  /**
   * -10 % 5 as the library computes it by default: a zero remainder that is
   * negative. Adding 3 to it then gives -3; with the normalised division the
   * sum is 3.
   */
  method NegativeZeroRemainder() returns (zero: IntX, sum: Result<IntX>, fixed: Result<IntX>)
    ensures zero.Normal() && zero.length == 0 && zero.negative && zero.Value() == 0
    ensures sum.Success? && sum.value.Valid() && sum.value.Value() == -3
    ensures fixed.Success? && fixed.value.Valid() && fixed.value.Value() == 3
  {
    var three := new IntX.FromInt32(3);
    zero := MinusTenModFive(false);
    sum := OpHelper.AddSub(zero, three, false);
    var fixedZero := MinusTenModFive(true);
    fixed := OpHelper.AddSub(fixedZero, three, false);
  }

  /** The remainder of -10 by 5, from DivMod as the library runs it or normalised. */
  method MinusTenModFive(normalized: bool) returns (zero: IntX)
    ensures zero.Normal() && zero.length == 0 && zero.Value() == 0
    ensures zero.negative == !normalized
  {
    var minusTen := new IntX.FromInt32(-10);
    var five := new IntX.FromInt32(5);
    ValSingle(10);
    ValSingle(5);
    assert minusTen.Magnitude() == [10] && five.Magnitude() == [5];
    var flags := DividerBase.ResultFlags(false, true);
    var res;
    if normalized {
      res := DivModNormalized(minusTen, five, flags, Classic);
    } else {
      res := DivMod(minusTen, five, flags, Classic, false);
    }
    zero := res.value.1;
    NormalNonZero(zero);
  }
}
