/**
 * The divider that uses Newton's reciprocal for operands of medium size.
 * When both lengths lie in [AutoNewtonLengthLowerBound,
 * AutoNewtonLengthUpperBound] the quotient is computed as the dividend times
 * an estimate of 2^rightShift / divisor, shifted right by rightShift bits and
 * rounded on the highest lost bit, then corrected downwards once if the
 * product with the divisor overshoots the dividend; the remainder is the
 * dividend minus that product. Outside the window the classic divider runs.
 *
 * The accuracy of the Newton estimate (that the rounded quotient is the true
 * quotient or one above it) is not proved here; the Newton path takes it as
 * the hypothesis NewtonAccurate and everything after it is proved.
 */
module AutoNewtonDivider {
  import opened Limbs
  import Bits
  import BitOps
  import Constants
  import DigitHelper
  import DigitOpHelper
  import ClassicMultiplier
  import DividerBase
  import ClassicDivider
  import NewtonHelper
  import OpHelper
  import Radix

  /** The classic algorithm is used when either length lies outside the Newton window. */
  predicate IsClassicAlgorithmNeeded(length1: nat, length2: nat)
  {
    length1 < Constants.AutoNewtonLengthLowerBound || length2 < Constants.AutoNewtonLengthLowerBound ||
    length1 > Constants.AutoNewtonLengthUpperBound || length2 > Constants.AutoNewtonLengthUpperBound
  }

  /** p shifted right by rs bits, plus the highest bit shifted out. */
  function Rounded(p: int, rs: nat): int
    requires rs >= 1
  {
    p / Pow2(rs) + (p / Pow2(rs - 1)) % 2
  }

  /** The opposite NewtonHelper computes for the divisor b when the dividend has |a| limbs. */
  ghost function NewtonOpposite(a: seq<uint32>, b: seq<uint32>): int
    requires Trimmed(b) && |b| >= 2 && 1 <= |a| < BASE
  {
    NewtonHelper.NormalizedDivisor(b);
    NewtonHelper.Estimate(NewtonHelper.ShiftedValue(b), NewtonHelper.ShiftedLength(b), Bits.CeilLog2(|a| as uint32) + 5)
  }

  /** The right shift that goes with that opposite. */
  function NewtonShift(a: seq<uint32>, b: seq<uint32>): nat
    requires 1 <= |a| < BASE
  {
    Bits.BitLength(Val(b)) + NewtonHelper.EstimateBits(Bits.CeilLog2(|a| as uint32) + 5)
  }

  /**
   * The hypothesis the Newton path rests on: the opposite of b, multiplied
   * by a and rounded at its right shift, is the quotient a / b or one above
   * it.
   */
  ghost predicate NewtonAccurate(a: seq<uint32>, b: seq<uint32>)
    requires Trimmed(b) && |b| >= 2 && 1 <= |a| < BASE
  {
    AccurateFor(Val(a), Val(b), NewtonOpposite(a, b), NewtonShift(a, b))
  }

  /** The opposite o with right shift rs gives the quotient x / y or one above it. */
  predicate AccurateFor(x: nat, y: nat, o: int, rs: nat)
  {
    o >= 0 && rs >= 1 && y >= 1 && x / y <= Rounded(o * x, rs) <= x / y + 1
  }

  // ---------------------------------------------------------------------------
  // Limbs of a number

  /** Limb i of x. */
  function LimbOf(x: nat, i: nat): uint32
  {
    (x / Pow(i)) % BASE
  }

  /** The n low limbs of x, least significant first. */
  function ToLimbs(x: nat, n: nat): (s: seq<uint32>)
    ensures |s| == n
    ensures forall i :: 0 <= i < n ==> s[i] == LimbOf(x, i)
    ensures Val(s) == x % Pow(n)
  {
    if n == 0 then []
    else
      var low := ToLimbs(x, n - 1);
      ValAppend(low, LimbOf(x, n - 1));
      ModSplit(x, Pow(n - 1), BASE);
      assert Pow(n) == Pow(n - 1) * BASE;
      low + [LimbOf(x, n - 1)]
  }

  /** x modulo p k: x modulo p, plus the next digit in base k weighted by p. */
  lemma {:induction false} ModSplit(x: nat, p: nat, k: nat)
    requires p >= 1 && k >= 1
    ensures x % (p * k) == x % p + ((x / p) % k) * p
  {
    var y, lo := x / p, x % p;
    var hi, d := y / k, y % k;
    var r := lo + d * p;
    assert x == hi * (p * k) + r by {
      assert x == y * p + lo;
      assert y == hi * k + d;
      assert y * p == hi * (p * k) + d * p;
    }
    MulLe(d, k - 1, p);
    DivModUnique(x, p * k, hi, r);
  }

  /** A number of exactly n limbs written out in n limbs: its value, and no zero on top. */
  lemma {:induction false} ToLimbsExact(x: nat, n: nat)
    requires x < Pow(n) && (n == 0 || Pow(n - 1) <= x)
    ensures Val(ToLimbs(x, n)) == x && Trimmed(ToLimbs(x, n))
  {
    ModSmall(x, Pow(n));
    if n > 0 {
      TopLimbNonzero(ToLimbs(x, n));
    }
  }

  /** Limb i of a run is limb i of its value. */
  lemma {:induction false} LimbOfVal(s: seq<uint32>, i: nat)
    requires i < |s|
    ensures s[i] == LimbOf(Val(s), i)
  {
    NewtonHelper.TopRun(s, i);
    var t := s[i..];
    ValHead(t);
    assert t[1..] == s[i + 1..];
    DivModUnique(Val(t), BASE, Val(t[1..]), s[i]);
  }

  // ---------------------------------------------------------------------------
  // Bits of the product

  /** Bit j of limb i of a run is bit 32 i + j of its value. */
  lemma {:induction false} BitOfLimb(s: seq<uint32>, i: nat, j: nat, p: nat)
    requires i < |s| && j <= 31 && p == 32 * i + j
    ensures (s[i] / Pow2(j)) % 2 == (Val(s) / Pow2(p)) % 2
  {
    LimbOfVal(s, i);
    BitOfValue(Val(s), s[i], i, j);
  }

  /** Bit j of limb i of v is bit 32 i + j of v. */
  lemma {:induction false} BitOfValue(v: nat, d: nat, i: nat, j: nat)
    requires j <= 31 && d == (v / Pow(i)) % BASE
    ensures (d / Pow2(j)) % 2 == (v / Pow2(32 * i + j)) % 2
  {
    var y := v / Pow(i);
    ShiftSplit(v, i, j);
    LimbBit(y, j);
  }

  /** Bit j of the low limb of y is bit j of y. */
  lemma {:induction false} LimbBit(y: nat, j: nat)
    requires j <= 31
    ensures ((y % BASE) / Pow2(j)) % 2 == (y / Pow2(j)) % 2
  {
    var m, k := Pow2(j), Pow2(32 - j);
    assert m * k == BASE by {
      Pow2Add(j, 32 - j);
      Pow2Small();
    }
    assert k % 2 == 0 by {
      assert k == 2 * Pow2(31 - j);
      DivModUnique(k, 2, Pow2(31 - j), 0);
    }
    ModThenBit(y, m, k);
  }

  /** Reducing modulo m k, k even, keeps bit 0 of the quotient by m. */
  lemma {:induction false} ModThenBit(y: nat, m: nat, k: nat)
    requires m >= 1 && k >= 2 && k % 2 == 0
    ensures ((y % (m * k)) / m) % 2 == (y / m) % 2
  {
    var q, r := y / (m * k), y % (m * k);
    assert y == (q * k + r / m) * m + r % m by {
      assert y == q * (m * k) + r;
      assert r == (r / m) * m + r % m;
    }
    DivModUnique(y, m, q * k + r / m, r % m);
    assert q * k + r / m == (q * (k / 2) + (r / m) / 2) * 2 + (r / m) % 2;
    DivModUnique(q * k + r / m, 2, q * (k / 2) + (r / m) / 2, (r / m) % 2);
  }

  /**
   * The source's read of the highest lost bit: with s the product and rs a
   * positive right shift, bit 31 of limb rs / 32 - 1 when rs is a multiple
   * of 32, else bit rs % 32 - 1 of limb rs / 32; either way bit rs - 1 of
   * the product.
   */
  lemma {:induction false} LostBit(s: seq<uint32>, rs: nat)
    requires rs >= 1 && rs <= 32 * |s|
    ensures rs % 32 == 0 ==> 1 <= rs / 32 <= |s| && Shr32(s[rs / 32 - 1], 31) == (Val(s) / Pow2(rs - 1)) % 2
    ensures rs % 32 != 0 ==> rs / 32 < |s| && BitOps.And32(Shr32(s[rs / 32], rs % 32 - 1), 1) == (Val(s) / Pow2(rs - 1)) % 2
  {
    var off, cnt := rs / 32, rs % 32;
    var p := rs - 1;
    if cnt == 0 {
      assert 1 <= off <= |s| && 32 * (off - 1) + 31 == p;
      BitOfLimb(s, off - 1, 31, p);
      var m := Pow2(31);
      assert m == 0x8000_0000 by { Pow2Small(); }
      QuotientBelowTwo(s[off - 1], m);
    } else {
      assert off < |s| && 32 * off + (cnt - 1) == p;
      BitOfLimb(s, off, cnt - 1, p);
      assert Pow2(1) == 2;
      BitOps.AndMaskAt(Shr32(s[off], cnt - 1), 1, 1);
    }
  }

  lemma {:induction false} QuotientBelowTwo(x: nat, m: nat)
    requires m >= 1 && x < 2 * m
    ensures x / m == (x / m) % 2
  {
    QuotRangeLocal(x, m);
  }

  lemma {:induction false} QuotRangeLocal(x: nat, m: nat)
    requires m >= 1 && x < 2 * m
    ensures x / m < 2
  {
    assert (x / m) * m <= x;
    if x / m >= 2 {
      MulLe(2, x / m, m);
    }
  }

  /** Dropping off whole limbs and then cnt bits drops 32 off + cnt bits. */
  lemma {:induction false} ShiftSplit(p: nat, off: nat, cnt: nat)
    ensures (p / Pow(off)) / Pow2(cnt) == p / Pow2(32 * off + cnt)
  {
    PowIsPow2(off);
    Radix.DivDiv(p, Pow2(32 * off), Pow2(cnt));
    Pow2Add(32 * off, cnt);
  }

  /** A positive rounded quotient means the product reaches bit rs - 1. */
  lemma {:induction false} RoundedPositive(p: int, rs: nat)
    requires p >= 0 && rs >= 1 && Rounded(p, rs) >= 1
    ensures p >= Pow2(rs - 1)
  {
    if p < Pow2(rs - 1) {
      Pow2Add(rs - 1, 1);
      DivZero(p, Pow2(rs - 1));
      DivZero(p, Pow2(rs));
    }
  }

  /** The product p of |s| limbs reaching bit rs - 1 has at least rs bits of room. */
  lemma {:induction false} ProductRoom(s: seq<uint32>, rs: nat)
    requires rs >= 1 && Val(s) >= Pow2(rs - 1)
    ensures rs <= 32 * |s|
  {
    ValBound(s);
    PowIsPow2(|s|);
    if 32 * |s| <= rs - 1 {
      Pow2Monotone(32 * |s|, rs - 1);
    }
  }

  // ---------------------------------------------------------------------------
  // Quotient and remainder

  /**
   * A quotient estimate q0 that is the quotient or one above it: if q0 b
   * overshoots a, q0 - 1 is the quotient and q0 b - b its product with b,
   * otherwise q0 is the quotient.
   */
  lemma {:induction false} OneCorrection(a: nat, b: nat, q0: nat)
    requires 1 <= b <= a && a / b <= q0 <= a / b + 1
    ensures q0 >= 1 && (a / b) * b <= a && a - (a / b) * b == a % b
    ensures q0 * b > a ==> q0 - 1 == a / b && b <= q0 * b && q0 * b - b == (a / b) * b
    ensures q0 * b <= a ==> q0 == a / b
  {
    var q := a / b;
    assert a == q * b + a % b;
    DividerBase.DivAtLeast(a, b, 1);
    if q0 == q + 1 {
      assert q0 * b == q * b + b;
    } else {
      assert q0 * b == q * b;
    }
    MulLe(1, q0, b);
  }

  /** The quotient of an |a|-limb dividend by a trimmed |b|-limb divisor needs at most |a| - |b| + 1 limbs. */
  lemma {:induction false} QuotientLimbs(a: seq<uint32>, b: seq<uint32>, q: seq<uint32>)
    requires Trimmed(b) && |b| >= 1 && |b| <= |a| + 1 && Trimmed(q)
    requires Val(q) == Val(a) / Val(b)
    ensures |q| <= |a| - |b| + 1
  {
    var m := |a| - |b| + 1;
    ValBound(a);
    ValTrimmedRange(b);
    ValTrimmedRange(q);
    if |q| > m {
      PowMonotone(m, |q| - 1);
      PowAdd(m, |b| - 1);
      assert m + (|b| - 1) == |a|;
      ProductAtMost(Val(a), Val(b), Val(q), Pow(m), Pow(|b| - 1));
    }
  }

  /** A quotient q of x by y with q >= u and y >= w makes x at least u w. */
  lemma {:induction false} ProductAtMost(x: nat, y: nat, q: nat, u: nat, w: nat)
    requires y >= 1 && q == x / y && u <= q && w <= y
    ensures u * w <= x
  {
    assert q * y <= x by { assert x == q * y + x % y; }
    MulLe(u, q, y);
    MulLe(w, y, u);
  }

  /**
   * The quotient estimate: the product of opposite and a, shifted right by
   * rightShift bits, plus the highest bit the shift loses. The product is
   * assumed to reach that bit, which keeps every read inside it.
   */
  method RoundedQuotient(opposite: seq<uint32>, a: seq<uint32>, rightShift: nat)
    returns (quot: array<uint32>, quotLength: nat)
    requires Trimmed(opposite) && Trimmed(a) && |opposite| >= 1 && |a| >= 1 && rightShift >= 32
    requires Val(opposite) * Val(a) >= Pow2(rightShift - 1)
    ensures fresh(quot)
    ensures quotLength <= quot.Length && Val(quot[..quotLength]) == Rounded(Val(opposite) * Val(a), rightShift)
    ensures Trimmed(quot[..quotLength])
  {
    quot := new uint32[|opposite| + |a|](_ => 0);
    quotLength := ClassicMultiplier.Multiply(opposite, a, quot);
    ghost var p := Val(opposite) * Val(a);
    var highestLostBit := HighestLostBit(quot, quotLength, rightShift);
    quotLength := ShiftProduct(quot, quotLength, rightShift);
    if highestLostBit == 1 {
      quotLength := AddLostBit(quot, quotLength);
    }
  }

  /** The source's read of bit rightShift - 1 of the product in quot. */
  method HighestLostBit(quot: array<uint32>, quotLength: nat, rightShift: nat) returns (bit: uint32)
    requires quotLength <= quot.Length && rightShift >= 1 && Val(quot[..quotLength]) >= Pow2(rightShift - 1)
    ensures bit == (Val(quot[..quotLength]) / Pow2(rightShift - 1)) % 2
  {
    ProductRoom(quot[..quotLength], rightShift);
    LostBit(quot[..quotLength], rightShift);
    var shiftOffset := rightShift / 32;
    var shiftCount := rightShift % 32;
    if shiftCount == 0 {
      bit := Shr32(quot[shiftOffset - 1], 31);
    } else {
      bit := BitOps.And32(Shr32(quot[shiftOffset], shiftCount - 1), 1);
    }
  }

  /**
   * The product shifted right by rightShift bits in place: whole limbs by
   * starting the shift at limb rightShift / 32, the rest by the bit shift.
   */
  method ShiftProduct(quot: array<uint32>, quotLength: nat, rightShift: nat) returns (newLength: nat)
    requires quotLength <= quot.Length && rightShift >= 32 && Trimmed(quot[..quotLength])
    requires Val(quot[..quotLength]) >= Pow2(rightShift - 1)
    modifies quot
    ensures newLength < quot.Length && Trimmed(quot[..newLength])
    ensures Val(quot[..newLength]) == old(Val(quot[..quotLength])) / Pow2(rightShift)
  {
    ghost var s := quot[..quotLength];
    ProductRoom(s, rightShift);
    var shiftOffset := rightShift / 32;
    var shiftCount := rightShift % 32;
    var src := quot[shiftOffset..quotLength];
    assert src == s[shiftOffset..];
    assert Val(src) == Val(s) / Pow(shiftOffset) by { NewtonHelper.TopRun(s, shiftOffset); }
    newLength := DigitOpHelper.Shr(src, quot, 0, shiftCount, false);
    assert quot[..newLength] == quot[0..newLength];
    ShiftSplit(Val(s), shiftOffset, shiftCount);
  }

  /** The lost bit added back: one more on a trimmed run that leaves a limb of room. */
  method AddLostBit(quot: array<uint32>, quotLength: nat) returns (newLength: nat)
    requires quotLength < quot.Length && Trimmed(quot[..quotLength])
    modifies quot
    ensures newLength <= quot.Length && Val(quot[..newLength]) == old(Val(quot[..quotLength])) + 1
    ensures Trimmed(quot[..newLength])
  {
    var s := quot[..quotLength];
    ValSingle(1);
    newLength := DigitOpHelper.Add(s, [1], quot, 0);
    assert quot[..newLength] == quot[0..newLength];
    if !DigitOpHelper.AddCarries(s, [1]) {
      ValTrimmedRange(s);
      TopLimbNonzero(quot[..newLength]);
    }
  }

  /**
   * The correction: the estimate times the divisor, compared with the
   * dividend; on overshoot the estimate loses one and the product loses one
   * divisor. Returns the quotient's length and the product q b of the
   * corrected quotient q.
   */
  method Correct(quot: array<uint32>, quotLength: nat, a: seq<uint32>, b: seq<uint32>)
    returns (newLength: nat, quotDiv: array<uint32>, quotDivLength: nat)
    requires Trimmed(a) && Trimmed(b) && |b| >= 1 && Val(b) <= Val(a)
    requires quotLength <= quot.Length && Trimmed(quot[..quotLength])
    requires Val(a) / Val(b) <= Val(quot[..quotLength]) <= Val(a) / Val(b) + 1
    modifies quot
    ensures fresh(quotDiv)
    ensures newLength <= quot.Length && Val(quot[..newLength]) == Val(a) / Val(b) && Trimmed(quot[..newLength])
    ensures quotDivLength <= quotDiv.Length && Val(quotDiv[..quotDivLength]) == Val(a) / Val(b) * Val(b)
    ensures Trimmed(quotDiv[..quotDivLength]) && quotDivLength <= |a|
  {
    ValTrimmedRange(b);
    ValTrimmedRange(quot[..quotLength]);
    quotDiv := new uint32[quotLength + |b|](_ => 0);
    quotDivLength := ClassicMultiplier.Multiply(quot[..quotLength], b, quotDiv);
    newLength, quotDivLength := Adjust(quot, quotLength, quotDiv, quotDivLength, a, b);
  }

  /**
   * The comparison and the step back of the correction, on the estimate q0
   * in quot and its product q0 b in quotDiv.
   */
  method Adjust(quot: array<uint32>, quotLength: nat, quotDiv: array<uint32>, quotDivLength: nat, a: seq<uint32>, b: seq<uint32>)
    returns (newLength: nat, productLength: nat)
    requires quot != quotDiv
    requires Trimmed(a) && Trimmed(b) && |b| >= 1 && Val(b) <= Val(a)
    requires quotLength <= quot.Length && Trimmed(quot[..quotLength])
    requires Val(a) / Val(b) <= Val(quot[..quotLength]) <= Val(a) / Val(b) + 1
    requires quotDivLength <= quotDiv.Length && Trimmed(quotDiv[..quotDivLength])
    requires Val(quotDiv[..quotDivLength]) == Val(quot[..quotLength]) * Val(b)
    modifies quot, quotDiv
    ensures newLength <= quot.Length && Val(quot[..newLength]) == Val(a) / Val(b) && Trimmed(quot[..newLength])
    ensures productLength <= quotDiv.Length && Val(quotDiv[..productLength]) == Val(a) / Val(b) * Val(b)
    ensures Trimmed(quotDiv[..productLength]) && productLength <= |a|
  {
    ghost var va, vb, q0 := Val(a), Val(b), Val(quot[..quotLength]);
    OneCorrection(va, vb, q0);
    newLength, productLength := quotLength, quotDivLength;
    var cmpRes := DigitOpHelper.Cmp(quotDiv[..quotDivLength], a);
    if cmpRes > 0 {
      assert q0 * vb > va;
      newLength := DecrementQuotient(quot, quotLength);
      productLength := SubtractDivisor(quotDiv, quotDivLength, b);
    } else {
      assert q0 * vb <= va;
    }
    if productLength > |a| {
      ValLengthOrder(a, quotDiv[..productLength]);
    }
  }

  /** One subtracted from a positive trimmed quotient in place. */
  method DecrementQuotient(quot: array<uint32>, quotLength: nat) returns (newLength: nat)
    requires quotLength <= quot.Length && Trimmed(quot[..quotLength]) && Val(quot[..quotLength]) >= 1
    modifies quot
    ensures newLength <= quotLength && Val(quot[..newLength]) == old(Val(quot[..quotLength])) - 1
    ensures Trimmed(quot[..newLength])
  {
    ValTrimmedRange(quot[..quotLength]);
    ValSingle(1);
    newLength := DigitOpHelper.Sub(quot[..quotLength], [1], quot, 0);
    assert quot[..newLength] == quot[0..newLength];
  }

  /** The divisor b subtracted from a trimmed product at least b in place. */
  method SubtractDivisor(quotDiv: array<uint32>, quotDivLength: nat, b: seq<uint32>) returns (newLength: nat)
    requires quotDivLength <= quotDiv.Length && Trimmed(quotDiv[..quotDivLength]) && Trimmed(b)
    requires Val(b) <= Val(quotDiv[..quotDivLength])
    modifies quotDiv
    ensures newLength <= quotDivLength && Val(quotDiv[..newLength]) == old(Val(quotDiv[..quotDivLength])) - Val(b)
    ensures Trimmed(quotDiv[..newLength])
  {
    var qd := quotDiv[..quotDivLength];
    if quotDivLength < |b| {
      ValLengthOrder(qd, b);
    }
    newLength := DigitOpHelper.Sub(qd, b, quotDiv, 0);
    assert quotDiv[..newLength] == quotDiv[0..newLength];
  }

  /**
   * The Newton path for a dividend a and a divisor b with no special case:
   * the opposite of b (computed in buffer1), the rounded quotient, its
   * correction, then the remainder into buffer1 and the quotient into
   * digitsRes as the flags ask.
   */
  method NewtonDivMod(a: seq<uint32>, buffer1: array<uint32>, b: seq<uint32>, digitsRes: array<uint32>,
                      flags: DividerBase.ResultFlags)
    returns (resultLength: nat, length1: nat)
    requires Trimmed(a) && Trimmed(b) && DividerBase.NeedsGeneral(a, b) && |a| <= Constants.AutoNewtonLengthUpperBound
    requires |a| + 1 <= buffer1.Length
    requires flags.divNeeded ==> |a| + 2 <= digitsRes.Length + |b|
    requires buffer1 != digitsRes
    requires NewtonAccurate(a, b)
    modifies buffer1, digitsRes
    ensures flags.divNeeded ==>
      resultLength <= digitsRes.Length && Val(digitsRes[..resultLength]) == Val(a) / Val(b) && Trimmed(digitsRes[..resultLength])
    ensures !flags.divNeeded ==> resultLength == 0
    ensures flags.modNeeded ==>
      length1 <= buffer1.Length && Val(buffer1[..length1]) == Val(a) % Val(b) && Trimmed(buffer1[..length1])
    ensures !flags.modNeeded ==> length1 == |a|
  {
    ghost var va, vb := Val(a), Val(b);
    ClassicDivider.LongerDividend(a, b);
    var oppositeDigits, rightShift := OppositeDigits(a, b, buffer1);
    var quot, quotLength := RoundedQuotient(oppositeDigits, a, rightShift);
    var quotDiv, quotDivLength;
    quotLength, quotDiv, quotDivLength := Correct(quot, quotLength, a, b);

    length1 := |a|;
    if flags.modNeeded {
      length1 := WriteRemainder(a, b, quotDiv[..quotDivLength], buffer1);
    }

    if flags.divNeeded {
      resultLength := WriteQuotient(a, b, quot[..quotLength], digitsRes);
    } else {
      resultLength := 0;
    }
  }

  /** The remainder a - (a / b) b, written to buffer1 by the subtraction of the product. */
  method WriteRemainder(a: seq<uint32>, b: seq<uint32>, product: seq<uint32>, buffer1: array<uint32>) returns (length1: nat)
    requires 1 <= Val(b) <= Val(a) && |a| <= buffer1.Length
    requires |product| <= |a| && Val(product) == Val(a) / Val(b) * Val(b)
    modifies buffer1
    ensures length1 <= buffer1.Length && Val(buffer1[..length1]) == Val(a) % Val(b) && Trimmed(buffer1[..length1])
  {
    ghost var va, vb := Val(a), Val(b);
    OneCorrection(va, vb, va / vb);
    length1 := DigitOpHelper.Sub(a, product, buffer1, 0);
    assert buffer1[..length1] == buffer1[0..length1];
  }

  /** The quotient copied to the result buffer, which it fits. */
  method WriteQuotient(a: seq<uint32>, b: seq<uint32>, q: seq<uint32>, digitsRes: array<uint32>) returns (resultLength: nat)
    requires Trimmed(b) && |b| >= 1 && |b| <= |a| + 1 && Trimmed(q) && Val(q) == Val(a) / Val(b)
    requires |a| + 2 <= digitsRes.Length + |b|
    modifies digitsRes
    ensures resultLength <= digitsRes.Length && Val(digitsRes[..resultLength]) == Val(a) / Val(b)
    ensures Trimmed(digitsRes[..resultLength])
  {
    QuotientLimbs(a, b, q);
    DigitHelper.DigitsBlockCopy(q, digitsRes, 0, |q|);
    resultLength := |q|;
    assert digitsRes[..resultLength] == q;
  }

  /**
   * The opposite of b from NewtonHelper (computed in buffer1) written out
   * in limbs, with its right shift; under the accuracy hypothesis its
   * product with a, rounded at that shift, is a / b or one above.
   */
  method OppositeDigits(a: seq<uint32>, b: seq<uint32>, buffer1: array<uint32>)
    returns (oppositeDigits: seq<uint32>, rightShift: nat)
    requires Trimmed(a) && Trimmed(b) && DividerBase.NeedsGeneral(a, b) && |a| <= Constants.AutoNewtonLengthUpperBound
    requires |b| + 1 <= buffer1.Length
    requires NewtonAccurate(a, b)
    modifies buffer1
    ensures Trimmed(oppositeDigits) && |oppositeDigits| >= 1 && rightShift >= 32
    ensures Val(oppositeDigits) * Val(a) >= Pow2(rightShift - 1)
    ensures AccurateFor(Val(a), Val(b), Val(oppositeDigits), rightShift)
  {
    ValTrimmedRange(b);
    var opposite, oppositeLength;
    opposite, oppositeLength, rightShift := NewtonHelper.GetIntegerOpposite(b, |a| as uint32, buffer1);
    ghost var va, vb := Val(a), Val(b);
    assert AccurateFor(va, vb, opposite, rightShift) by {
      assert opposite == NewtonOpposite(a, b) && rightShift == NewtonShift(a, b);
    }
    assert opposite >= 1 && opposite * va >= Pow2(rightShift - 1) by {
      AccurateOpposite(va, vb, opposite, rightShift);
    }
    oppositeDigits := OppositeLimbs(opposite, oppositeLength);
    assert rightShift >= 32 by { ShiftAtLeastLimb(b, rightShift); }
  }

  /** The limbs of the opposite, as many as it needs. */
  method OppositeLimbs(opposite: nat, n: nat) returns (s: seq<uint32>)
    requires n == NewtonHelper.LimbCount(opposite)
    ensures |s| == n && Val(s) == opposite && Trimmed(s)
  {
    s := ToLimbs(opposite, n);
    ToLimbsExact(opposite, n);
  }

  /** What the accuracy hypothesis gives for a dividend above the divisor. */
  lemma {:induction false} AccurateOpposite(x: nat, y: nat, opposite: nat, rightShift: nat)
    requires 1 <= y < x && AccurateFor(x, y, opposite, rightShift)
    ensures opposite >= 1 && opposite * x >= Pow2(rightShift - 1)
  {
    ClassicDivider.QuotientPositive(x, y);
    MulLe(0, opposite, x);
    RoundedPositive(opposite * x, rightShift);
  }

  /** A divisor of at least two limbs has more than 32 bits, so the right shift is at least one limb. */
  lemma {:induction false} ShiftAtLeastLimb(b: seq<uint32>, rightShift: nat)
    requires Trimmed(b) && |b| >= 2 && rightShift >= Bits.BitLength(Val(b))
    ensures rightShift >= 32
  {
    ValTrimmedRange(b);
    PowIsPow2(|b| - 1);
    Bits.BitLengthBounds(Val(b));
    if rightShift < 32 {
      Pow2Monotone(Bits.BitLength(Val(b)), 32 * (|b| - 1));
    }
  }

  /**
   * Division of the limb runs a by b: the classic divider outside the
   * Newton window, else the common special cases, else the Newton path.
   * Quotient and remainder go where ClassicDivider.DivMod puts them.
   */
  method DivMod(a: seq<uint32>, buffer1: array<uint32>, b: seq<uint32>, buffer2: array<uint32>,
                digitsRes: array<uint32>, flags: DividerBase.ResultFlags, cmpResult: int)
    returns (resultLength: nat, length1: nat)
    requires Trimmed(a) && Trimmed(b) && |b| >= 1 && |a| < Constants.MaxUInt32Value
    requires DividerBase.CmpArgument(a, b, cmpResult)
    requires |a| + 1 <= buffer1.Length
    requires IsClassicAlgorithmNeeded(|a|, |b|) ==> |b| <= buffer2.Length
    requires flags.divNeeded ==> 1 <= digitsRes.Length && |a| + 2 <= digitsRes.Length + |b|
    requires buffer1 != buffer2 && buffer1 != digitsRes && buffer2 != digitsRes
    requires !IsClassicAlgorithmNeeded(|a|, |b|) && DividerBase.NeedsGeneral(a, b) ==> NewtonAccurate(a, b)
    modifies buffer1, buffer2, digitsRes
    ensures flags.divNeeded ==>
      resultLength <= digitsRes.Length && Val(digitsRes[..resultLength]) == Val(a) / Val(b) && Trimmed(digitsRes[..resultLength])
    ensures flags.modNeeded ==>
      length1 <= buffer1.Length && Val(buffer1[..length1]) == Val(a) % Val(b) && Trimmed(buffer1[..length1])
  {
    if IsClassicAlgorithmNeeded(|a|, |b|) {
      resultLength, length1 := ClassicDivider.DivMod(a, buffer1, b, buffer2, digitsRes, flags, cmpResult);
      return;
    }
    resultLength, length1 := DividerBase.DivModSpecial(a, buffer1, b, digitsRes, flags, cmpResult);
    if resultLength != Constants.MaxUInt32Value {
      return;
    }
    resultLength, length1 := NewtonDivMod(a, buffer1, b, digitsRes, flags);
  }

  /**
   * The overload on growable buffers: outside the Newton window the classic
   * overload runs; inside it an empty remainder buffer is replaced by a
   * zeroed one of |a| + 1 limbs. The remainder buffer used is returned.
   */
  method DivModBuffers(a: seq<uint32>, buffer1: array<uint32>, b: seq<uint32>, buffer2: array<uint32>,
                       digitsRes: array<uint32>, flags: DividerBase.ResultFlags, cmpResult: int)
    returns (resultLength: nat, length1: nat, modDigits: array<uint32>)
    requires Trimmed(a) && Trimmed(b) && |b| >= 1 && |a| < Constants.MaxUInt32Value
    requires DividerBase.CmpArgument(a, b, cmpResult)
    requires buffer1.Length == 0 || |a| + 1 <= buffer1.Length
    requires buffer2.Length == 0 || |b| <= buffer2.Length
    requires flags.divNeeded ==> 1 <= digitsRes.Length && |a| + 2 <= digitsRes.Length + |b|
    requires buffer1 != buffer2 && buffer1 != digitsRes && buffer2 != digitsRes
    requires !IsClassicAlgorithmNeeded(|a|, |b|) && DividerBase.NeedsGeneral(a, b) ==> NewtonAccurate(a, b)
    modifies buffer1, buffer2, digitsRes
    ensures modDigits == buffer1 || (buffer1.Length == 0 && fresh(modDigits) && modDigits.Length == |a| + 1)
    ensures flags.divNeeded ==>
      resultLength <= digitsRes.Length && Val(digitsRes[..resultLength]) == Val(a) / Val(b) && Trimmed(digitsRes[..resultLength])
    ensures flags.modNeeded ==>
      length1 <= modDigits.Length && Val(modDigits[..length1]) == Val(a) % Val(b) && Trimmed(modDigits[..length1])
  {
    if IsClassicAlgorithmNeeded(|a|, |b|) {
      resultLength, length1, modDigits := ClassicDivider.DivModBuffers(a, buffer1, b, buffer2, digitsRes, flags, cmpResult);
      return;
    }
    modDigits := buffer1;
    if buffer1.Length == 0 {
      modDigits := new uint32[|a| + 1](_ => 0);
    }
    resultLength, length1 := DivMod(a, modDigits, b, buffer2, digitsRes, flags, cmpResult);
  }
}
