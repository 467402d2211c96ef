/**
 * The fast string converter, the inverse of the fast parser: the number
 * starts as one slot covering 2^c output digits, and every slot is split
 * level by level into a low and a high half by dividing it by base^w (the
 * remainder is the low half, the quotient the high half), with the powers
 * base^(2^i) built beforehand by squaring and used from the largest down.
 * Two buffers take turns holding the values and the slot lengths; at the
 * last level every slot holds one digit.
 */
module FastStringConverter {
  import opened Limbs
  import opened Radix
  import Bits
  import Constants
  import DigitHelper
  import DividerBase
  import ClassicDivider
  import FastParser
  import StringConverterBase
  import ClassicStringConverter

  /**
   * The digits of the trimmed number digits[..length] in base numberBase,
   * least significant first, as the classic converter gives them: short
   * numbers go to the classic converter, longer ones are split level by
   * level.
   */
  method Convert(digits: seq<uint32>, length: nat, numberBase: uint32, outputLength: nat)
    returns (outputArray: seq<uint32>, newLength: nat)
    requires 1 <= length <= |digits| && Trimmed(digits[..length]) && numberBase >= 2
    requires Pow(length) <= IntPow(numberBase, outputLength) && outputLength <= Constants.MaxIntValue
    ensures newLength <= |outputArray|
    ensures outputArray[..newLength] == ToDigits(Val(digits[..length]), numberBase)
  {
    outputArray, newLength := StringConverterBase.Convert(digits, length, numberBase, outputLength);
    if |outputArray| != 0 {
      assert outputArray[..newLength] == outputArray;
      return;
    }
    if length < Constants.FastConvertLengthLowerBound || length > Constants.FastConvertLengthUpperBound {
      outputArray, newLength := ClassicStringConverter.Convert(digits, length, numberBase, outputLength);
      return;
    }
    outputArray, newLength := SplitAll(digits, length, numberBase, outputLength);
  }

  // ---------------------------------------------------------------------------
  // The padded digits

  /** The canonical digits of v, padded with zeros to n digits. */
  ghost function Padded(v: nat, b: nat, n: nat): (d: seq<nat>)
    requires b >= 2 && |ToDigits(v, b)| <= n
    ensures |d| == n
  {
    ToDigits(v, b) + seq(n - |ToDigits(v, b)|, _ => 0)
  }

  /** The padded digits are digits, are worth v, and agree with the canonical ones. */
  lemma {:induction false} PaddedFacts(v: nat, b: nat, n: nat)
    requires b >= 2 && |ToDigits(v, b)| <= n
    ensures DigitsBelow(Padded(v, b, n), b) && Eval(Padded(v, b, n), b) == v
    ensures forall i :: 0 <= i < |ToDigits(v, b)| ==> Padded(v, b, n)[i] == ToDigits(v, b)[i]
    ensures forall i :: |ToDigits(v, b)| <= i < n ==> Padded(v, b, n)[i] == 0
    ensures |ToDigits(v, b)| == 0 || Padded(v, b, n)[|ToDigits(v, b)| - 1] != 0
  {
    var t := ToDigits(v, b);
    var z: seq<nat> := seq(n - |t|, _ => 0);
    ToDigitsValue(v, b);
    EvalConcat(t, z, b);
    EvalZeros(z, b);
  }

  /** A number of length limbs has at most as many limbs as the digits estimated for it. */
  lemma {:induction false} LengthWithinEstimate(length: nat, b: nat, n: nat)
    requires 2 <= b < BASE && Pow(length) <= IntPow(b, n)
    ensures length <= n
  {
    if n < length {
      IntPowBaseMonotone(b, BASE, n);
      IntPowIsPow(n);
      PowMonotone(n + 1, length);
    }
  }

  // ---------------------------------------------------------------------------
  // The conversion proper

  /**
   * Splits the number into 2^c one-digit slots, 2^c >= outputLength, and
   * collects the digits below the highest non-zero one.
   */
  method SplitAll(digits: seq<uint32>, length: nat, numberBase: uint32, outputLength: nat)
    returns (outputArray: seq<uint32>, newLength: nat)
    requires 1 <= length <= |digits| && Trimmed(digits[..length]) && numberBase >= 2
    requires Pow(length) <= IntPow(numberBase, outputLength) && outputLength <= Constants.MaxIntValue
    ensures newLength <= |outputArray|
    ensures outputArray[..newLength] == ToDigits(Val(digits[..length]), numberBase)
  {
    ghost var v := Val(digits[..length]);
    ghost var b: nat := numberBase;
    LengthWithinEstimate(length, b, outputLength);
    ValTrimmedRange(digits[..length]);
    ToDigitsCount(v, b, outputLength);
    Pow2Small();
    var resultLengthLog2 := Bits.CeilLog2(outputLength as uint32);
    Bits.CeilLog2Least(outputLength as uint32, 31);
    var resultLength := Pow2(resultLengthLog2);
    Pow2Monotone(resultLengthLog2, 31);
    ghost var d := Padded(v, b, resultLength);
    PaddedFacts(v, b, resultLength);
    var vals, lens := FirstSlot(digits, length, resultLength, d, numberBase);
    var powers := Powers(numberBase, resultLengthLog2);
    vals, lens := SplitLevels(vals, lens, powers, d, numberBase, resultLengthLog2);
    outputArray, newLength := Collect(vals, lens, outputLength, d, b, ToDigits(v, b));
  }

  /**
   * The two buffers before the first split: the number's limbs at the start
   * of the first, its length at the start of the second; every other cell is
   * zero.
   */
  method FirstSlot(digits: seq<uint32>, length: nat, resultLength: nat, ghost d: seq<nat>, numberBase: uint32)
    returns (vals: array<uint32>, lens: array<uint32>)
    requires 1 <= length <= |digits| && length <= resultLength == |d| && resultLength < BASE
    requires Trimmed(digits[..length]) && numberBase >= 2 && Eval(d, numberBase) == Val(digits[..length])
    ensures fresh(vals) && fresh(lens) && vals != lens && vals.Length == lens.Length == resultLength
    ensures FastParser.Level(vals[..], lens[..], d, numberBase, resultLength)
  {
    vals := new uint32[resultLength](i requires 0 <= i < resultLength => if i < length then digits[i] else 0);
    lens := new uint32[resultLength](_ => 0);
    lens[0] := length;
    assert vals[0..0 + lens[0]] == digits[..length];
    assert d[0..0 + resultLength] == d;
    FastParser.SlotMake(vals[..], lens[..], d, numberBase, 0, resultLength);
    forall q | 0 <= q < |d| && q % resultLength == 0
      ensures FastParser.SlotAt(vals[..], lens[..], d, numberBase, q, resultLength)
    {
      FastParser.SameSlot(q, 0, resultLength);
    }
  }

  /** Entry i of the stack is base^(2^i), trimmed. */
  ghost predicate PowersOf(powers: seq<seq<uint32>>, b: nat)
  {
    forall i :: 0 <= i < |powers| ==> Trimmed(powers[i]) && Val(powers[i]) == IntPow(b, Pow2(i))
  }

  /** The stack of powers base^(2^i) for i below c, each the square of the one before. */
  method Powers(numberBase: uint32, c: nat) returns (powers: seq<seq<uint32>>)
    requires numberBase >= 2
    ensures |powers| == c && PowersOf(powers, numberBase)
  {
    powers := [];
    var baseInt: seq<uint32> := [];
    var i: nat := 0;
    while i < c
      invariant i <= c && |powers| == i && PowersOf(powers, numberBase)
      invariant i > 0 ==> baseInt == powers[i - 1]
    {
      baseInt := NextPower(baseInt, numberBase, i);
      PowersGrow(powers, baseInt, numberBase);
      powers := powers + [baseInt];
      i := i + 1;
    }
  }

  /** Pushing base^(2^n) on a stack of n powers keeps it a stack of powers. */
  lemma {:induction false} PowersGrow(powers: seq<seq<uint32>>, next: seq<uint32>, b: nat)
    requires PowersOf(powers, b) && Trimmed(next) && Val(next) == IntPow(b, Pow2(|powers|))
    ensures PowersOf(powers + [next], b) && (powers + [next])[|powers|] == next
  {
    var s := powers + [next];
    forall i | 0 <= i < |s|
      ensures Trimmed(s[i]) && Val(s[i]) == IntPow(b, Pow2(i))
    {
      if i < |powers| {
        assert s[i] == powers[i];
      }
    }
  }

  /** base^(2^i): the base itself first, then the square of the previous power. */
  method NextPower(baseInt: seq<uint32>, numberBase: uint32, i: nat) returns (next: seq<uint32>)
    requires numberBase >= 2 && (i > 0 ==> Trimmed(baseInt) && Val(baseInt) == IntPow(numberBase, Pow2(i - 1)))
    ensures Trimmed(next) && Val(next) == IntPow(numberBase, Pow2(i))
  {
    if i == 0 {
      next := [numberBase];
      ValSingle(numberBase);
      assert IntPow(numberBase, 1) == numberBase;
    } else {
      assert Pow2(i) / 2 == Pow2(i - 1);
      next := FastParser.NextBase(baseInt, numberBase, i);
    }
  }

  /**
   * The outer loop: from slots of width 2^c down to slots of width 1, each
   * level taking the largest power left on the stack; the buffers swap roles
   * after every level.
   */
  method SplitLevels(x: array<uint32>, y: array<uint32>, powers: seq<seq<uint32>>, ghost d: seq<nat>, numberBase: uint32, c: nat)
    returns (vals: array<uint32>, lens: array<uint32>)
    requires x != y && x.Length == y.Length == |d| == Pow2(c) && c <= 31 && |powers| == c
    requires numberBase >= 2 && DigitsBelow(d, numberBase)
    requires PowersOf(powers, numberBase)
    requires FastParser.Level(x[..], y[..], d, numberBase, Pow2(c))
    modifies x, y
    ensures vals.Length == lens.Length == |d|
    ensures FastParser.Level(vals[..], lens[..], d, numberBase, 1)
  {
    vals, lens := x, y;
    var stack := powers;
    var outerStep := Pow2(c);
    var innerStep := outerStep / 2;
    ghost var k: nat := c;
    while innerStep > 0
      invariant (vals == x && lens == y) || (vals == y && lens == x)
      invariant vals.Length == lens.Length == |d|
      invariant k <= c && outerStep == Pow2(k) && innerStep == outerStep / 2 && stack == powers[..k]
      invariant FastParser.Level(vals[..], lens[..], d, numberBase, outerStep)
      decreases innerStep
    {
      LevelWidths(k, c);
      var baseInt := stack[|stack| - 1];
      stack := stack[..|stack| - 1];
      SplitLevel(vals, lens, baseInt, d, numberBase, innerStep);
      vals, lens := lens, vals;
      k := k - 1;
      innerStep, outerStep := innerStep / 2, outerStep / 2;
    }
  }

  /** The widths of a level above the last: 2^k splits evenly into halves of 2^(k-1). */
  lemma {:induction false} LevelWidths(k: nat, c: nat)
    requires k <= c && c <= 31 && Pow2(k) / 2 > 0
    ensures k >= 1 && Pow2(k) == 2 * Pow2(k - 1) && Pow2(k) / 2 == Pow2(k - 1) && Pow2(k - 1) / 2 == Pow2(k - 1) / 2
    ensures Pow2(c) % Pow2(k) == 0 && Pow2(k) <= Pow2(c) && Pow2(c) < BASE
  {
    FastParser.Pow2Divides(k, c);
    Pow2Monotone(k, c);
    Pow2Monotone(c, 31);
    Pow2Small();
  }

  // ---------------------------------------------------------------------------
  // One level

  /**
   * Splits every slot of width 2w into two slots of width w: the values go to
   * the second buffer, the lengths to the first, so the buffers swap roles.
   */
  method SplitLevel(a: array<uint32>, bb: array<uint32>, baseInt: seq<uint32>, ghost d: seq<nat>, numberBase: uint32, w: nat)
    requires w >= 1 && a != bb && a.Length == bb.Length == |d| && 2 * w <= |d| && |d| % (2 * w) == 0 && |d| < BASE
    requires numberBase >= 2 && DigitsBelow(d, numberBase)
    requires FastParser.Level(a[..], bb[..], d, numberBase, 2 * w)
    requires Trimmed(baseInt) && Val(baseInt) == IntPow(numberBase, w)
    modifies a, bb
    ensures FastParser.Level(bb[..], a[..], d, numberBase, w)
  {
    var m := 2 * w;
    var p := 0;
    ghost var oa, ob := a[..], bb[..];
    while p < a.Length
      invariant p <= |d| && p % m == 0
      invariant FastParser.Merged(bb[..], a[..], d, numberBase, w, p)
      invariant a[p..] == oa[p..] && bb[p..] == ob[p..]
      decreases |d| - p
    {
      FastParser.SlotFits(p, m, |d|);
      WholeRun(oa, ob, a, bb, d, numberBase, p, m);
      ghost var a0, b0 := a[..], bb[..];
      SplitStep(a, bb, baseInt, d, numberBase, p, w);
      FastParser.HalfSlots(p, w);
      FastParser.MergedGrows(b0, a0, bb[..], a[..], d, numberBase, w, p);
      FastParser.MergedGrows(bb[..], a[..], bb[..], a[..], d, numberBase, w, p + w);
      FastParser.TailFrame(a0, oa, a[..], p, m);
      FastParser.TailFrame(b0, ob, bb[..], p, m);
      ModAddMultiple(p, m, 1);
      p := p + m;
    }
  }

  /** The run of the slot of width m at a head p, still as the level left it. */
  lemma {:induction false} WholeRun(oa: seq<uint32>, ob: seq<uint32>, a: array<uint32>, bb: array<uint32>, d: seq<nat>, b: nat, p: nat, m: nat)
    requires FastParser.Level(oa, ob, d, b, m) && p % m == 0 && p + m <= |d|
    requires a.Length == |oa| == |d| && bb.Length == |ob| == |d| && a[p..] == oa[p..] && bb[p..] == ob[p..]
    ensures bb[p] <= m && p + bb[p] <= a.Length
    ensures Trimmed(a[p..p + bb[p]]) && Val(a[p..p + bb[p]]) == Eval(d[p..p + m], b)
  {
    assert FastParser.SlotAt(oa, ob, d, b, p, m);
    FastParser.SlotFrameAbove(oa, ob, a[..], bb[..], d, b, p, m, p);
    FastParser.SlotInBuffers(a, bb, d, b, p, m);
  }

  /**
   * Splits the slot of width 2w at p: the remainder by base^w goes to the
   * second buffer at p and the quotient at p + w, their lengths to the first
   * buffer at the same places.
   */
  method SplitStep(a: array<uint32>, bb: array<uint32>, baseInt: seq<uint32>, ghost d: seq<nat>, numberBase: uint32, p: nat, w: nat)
    requires w >= 1 && a != bb && a.Length == bb.Length == |d| && p + 2 * w <= |d| && |d| < BASE
    requires numberBase >= 2 && DigitsBelow(d, numberBase)
    requires Trimmed(baseInt) && Val(baseInt) == IntPow(numberBase, w)
    requires bb[p] <= 2 * w && Trimmed(a[p..p + bb[p]]) && Val(a[p..p + bb[p]]) == Eval(d[p..p + 2 * w], numberBase)
    modifies a, bb
    ensures FastParser.SlotAt(bb[..], a[..], d, numberBase, p, w)
    ensures FastParser.SlotAt(bb[..], a[..], d, numberBase, p + w, w)
    ensures a[..p] == old(a[..p]) && bb[..p] == old(bb[..p])
    ensures a[p + 2 * w..] == old(a[p + 2 * w..]) && bb[p + 2 * w..] == old(bb[p + 2 * w..])
  {
    var loLength := bb[p];
    var quotient, remainder := SplitRun(a[p..p + loLength], baseInt, d, numberBase, p, w);
    WriteHalves(a, bb, p, w, remainder, quotient);
    TwoSlots(bb[..], a[..], d, numberBase, p, w, remainder, quotient);
  }

  /**
   * The division of one slot's run by base^w: the quotient is worth the high
   * half's digits, the remainder the low half's, each in at most w limbs.
   */
  method SplitRun(dividend: seq<uint32>, baseInt: seq<uint32>, ghost d: seq<nat>, numberBase: uint32, ghost p: nat, ghost w: nat)
    returns (quotient: seq<uint32>, remainder: seq<uint32>)
    requires w >= 1 && p + 2 * w <= |d| < BASE && numberBase >= 2 && DigitsBelow(d, numberBase)
    requires Trimmed(baseInt) && Val(baseInt) == IntPow(numberBase, w)
    requires |dividend| <= 2 * w && Trimmed(dividend) && Val(dividend) == Eval(d[p..p + 2 * w], numberBase)
    ensures |quotient| <= w && Trimmed(quotient) && Val(quotient) == Eval(d[p + w..p + 2 * w], numberBase)
    ensures |remainder| <= w && Trimmed(remainder) && Val(remainder) == Eval(d[p..p + w], numberBase)
  {
    FastParser.BaseLimbs(baseInt, numberBase, w);
    quotient, remainder := DivideSlot(dividend, baseInt);
    SplitValue(Val(dividend), baseInt, d, numberBase, p, w);
    Fits(quotient, w);
    Fits(remainder, w);
  }

  /**
   * Stores the halves of the slot of width 2w at p: their limbs in the
   * second buffer at p and p + w, their lengths in the first at the same
   * places; nothing outside the slot changes.
   */
  method WriteHalves(a: array<uint32>, bb: array<uint32>, p: nat, w: nat, lo: seq<uint32>, hi: seq<uint32>)
    requires a != bb && w >= 1 && p + 2 * w <= a.Length == bb.Length < BASE && |lo| <= w && |hi| <= w
    modifies a, bb
    ensures bb[p..p + |lo|] == lo && bb[p + w..p + w + |hi|] == hi
    ensures a[p] as nat == |lo| && a[p + w] as nat == |hi|
    ensures a[..p] == old(a[..p]) && bb[..p] == old(bb[..p])
    ensures a[p + 2 * w..] == old(a[p + 2 * w..]) && bb[p + 2 * w..] == old(bb[p + 2 * w..])
  {
    Place(bb, p, lo, w);
    Place(bb, p + w, hi, w);
    a[p + w] := |hi|;
    a[p] := |lo|;
    assert a[..] == old(a[..])[p + w := |hi| as uint32][p := |lo| as uint32];
    assert a[..p] == old(a[..p]) && a[p + 2 * w..] == old(a[p + 2 * w..]);
    assert bb[..p] == old(bb[..p]) && bb[p + 2 * w..] == old(bb[p + 2 * w..]);
  }

  /** The two halves of a split slot, each a slot of width w. */
  lemma {:induction false} TwoSlots(vals: seq<uint32>, lens: seq<uint32>, d: seq<nat>, b: nat, p: nat, w: nat, lo: seq<uint32>, hi: seq<uint32>)
    requires |vals| == |lens| == |d| && p + 2 * w <= |d| && w >= 1
    requires |lo| <= w && |hi| <= w && lens[p] as nat == |lo| && lens[p + w] as nat == |hi|
    requires vals[p..p + |lo|] == lo && vals[p + w..p + w + |hi|] == hi
    requires Trimmed(lo) && Val(lo) == Eval(d[p..p + w], b)
    requires Trimmed(hi) && Val(hi) == Eval(d[p + w..p + 2 * w], b)
    ensures FastParser.SlotAt(vals, lens, d, b, p, w) && FastParser.SlotAt(vals, lens, d, b, p + w, w)
  {
    OneSlot(vals, lens, d, b, p, w, lo);
    assert d[p + w..p + w + w] == d[p + w..p + 2 * w];
    OneSlot(vals, lens, d, b, p + w, w, hi);
  }

  /** A trimmed run stored at q, with its length at q, is a slot of width w. */
  lemma {:induction false} OneSlot(vals: seq<uint32>, lens: seq<uint32>, d: seq<nat>, b: nat, q: nat, w: nat, run: seq<uint32>)
    requires |vals| == |lens| == |d| && q + w <= |d| && w >= 1 && |run| <= w
    requires lens[q] as nat == |run| && vals[q..q + |run|] == run
    requires Trimmed(run) && Val(run) == Eval(d[q..q + w], b)
    ensures FastParser.SlotAt(vals, lens, d, b, q, w)
  {
    FastParser.SlotMake(vals, lens, d, b, q, w);
  }

  /** Copies run into the w cells of buf at off; nothing else changes. */
  method Place(buf: array<uint32>, off: nat, run: seq<uint32>, w: nat)
    requires |run| <= w && off + w <= buf.Length
    modifies buf
    ensures buf[off..off + |run|] == run
    ensures forall k :: 0 <= k < off || off + w <= k < buf.Length ==> buf[k] == old(buf[k])
  {
    forall i | 0 <= i < |run| {
      buf[off + i] := run[i];
    }
  }

  /**
   * The quotient and remainder of a slot by base^w, both trimmed, from the
   * current divider working in buffers of its own.
   */
  method DivideSlot(dividend: seq<uint32>, baseInt: seq<uint32>) returns (quotient: seq<uint32>, remainder: seq<uint32>)
    requires Trimmed(dividend) && Trimmed(baseInt) && |baseInt| >= 1 && |dividend| < Constants.MaxUInt32Value
    ensures Trimmed(quotient) && Val(quotient) == Val(dividend) / Val(baseInt)
    ensures Trimmed(remainder) && Val(remainder) == Val(dividend) % Val(baseInt)
  {
    var buffer1 := new uint32[|dividend| + 1](_ => 0);
    var buffer2 := new uint32[|baseInt|](_ => 0);
    var resLength := if |dividend| + 2 > |baseInt| then |dividend| + 2 - |baseInt| else 1;
    var digitsRes := new uint32[resLength](_ => 0);
    var resultLength, length1 := ClassicDivider.DivMod(dividend, buffer1, baseInt, buffer2, digitsRes,
                                                       DividerBase.ResultFlags(true, true), -2);
    quotient := digitsRes[..resultLength];
    remainder := buffer1[..length1];
  }

  /**
   * A slot of width 2w worth the digits d[p..p+2w], divided by base^w, has
   * the high half's digits as quotient and the low half's as remainder.
   */
  lemma {:induction false} SplitValue(x: nat, baseInt: seq<uint32>, d: seq<nat>, b: nat, p: nat, w: nat)
    requires 2 <= b < BASE && w >= 1 && p + 2 * w <= |d| && DigitsBelow(d, b)
    requires Val(baseInt) == IntPow(b, w) && x == Eval(d[p..p + 2 * w], b)
    ensures x / Val(baseInt) == Eval(d[p + w..p + 2 * w], b) < Pow(w)
    ensures x % Val(baseInt) == Eval(d[p..p + w], b) < Pow(w)
  {
    var lo, hi := d[p..p + w], d[p + w..p + 2 * w];
    FastParser.MergedBound(d, b, p, w, Eval(lo, b), Eval(hi, b));
    assert DigitsBelow(lo, b) && DigitsBelow(hi, b);
    Radix.EvalBound(lo, b);
    Radix.EvalBound(hi, b);
    FastParser.IntPowBelowPow(b, w);
    DivModUnique(x, IntPow(b, w), Eval(hi, b), Eval(lo, b));
  }

  /** A trimmed run worth less than BASE^w has at most w limbs. */
  lemma {:induction false} Fits(s: seq<uint32>, w: nat)
    requires Trimmed(s) && Val(s) < Pow(w)
    ensures |s| <= w
  {
    ValTrimmedRange(s);
    if |s| > w {
      PowMonotone(w, |s| - 1);
    }
  }

  // ---------------------------------------------------------------------------
  // The digits

  /**
   * At the last level the slot lengths mark the non-zero digits, so the real
   * length of the first outputLength of them is the number of canonical digits.
   */
  lemma {:induction false} OneDigitSlots(vals: array<uint32>, lens: array<uint32>, d: seq<nat>, b: nat, n: nat, outputLength: nat, newLength: nat)
    requires vals.Length == lens.Length == |d| && FastParser.Level(vals[..], lens[..], d, b, 1)
    requires n <= outputLength <= |d| && (n == 0 || d[n - 1] != 0)
    requires forall i :: n <= i < |d| ==> d[i] == 0
    requires newLength == RealLength(lens[..outputLength])
    ensures newLength == n
  {
    var s := lens[..outputLength];
    if n > 0 {
      OneDigit(vals, lens, d, b, n - 1);
    }
    assert AllZero(s[n..]) by {
      forall i | 0 <= i < |s[n..]|
        ensures s[n..][i] == 0
      {
        OneDigit(vals, lens, d, b, n + i);
      }
    }
    assert s[..n] == lens[..n];
    RealLengthUnique(s, n);
  }

  /** A slot of width 1 holds its digit: no limb for zero, else the digit itself. */
  lemma {:induction false} OneDigit(vals: array<uint32>, lens: array<uint32>, d: seq<nat>, b: nat, q: nat)
    requires vals.Length == lens.Length == |d| && FastParser.Level(vals[..], lens[..], d, b, 1) && q < |d|
    ensures lens[q] == 0 <==> d[q] == 0
    ensures lens[q] != 0 ==> vals[q] == d[q]
  {
    assert FastParser.SlotAt(vals[..], lens[..], d, b, q, 1);
    FastParser.SlotInBuffers(vals, lens, d, b, q, 1);
    assert d[q..q + 1] == [d[q]];
    assert Eval([d[q]], b) == d[q] by {
      assert [d[q]][1..] == [];
    }
    if lens[q] != 0 {
      assert vals[q..q + lens[q]] == [vals[q]];
      ValSingle(vals[q]);
    }
  }

  /**
   * The end of the conversion: the real length of the first outputLength
   * slot lengths is the number of digits t, and digit j is copied from the
   * values wherever its length is not zero.
   */
  method Collect(vals: array<uint32>, lens: array<uint32>, outputLength: nat, ghost d: seq<nat>, ghost b: nat, ghost t: seq<nat>)
    returns (outputArray: seq<uint32>, newLength: nat)
    requires vals.Length == lens.Length == |d| && FastParser.Level(vals[..], lens[..], d, b, 1)
    requires |t| <= outputLength <= |d| && (|t| == 0 || t[|t| - 1] != 0)
    requires forall i :: 0 <= i < |t| ==> d[i] == t[i]
    requires forall i :: |t| <= i < |d| ==> d[i] == 0
    ensures newLength == |outputArray| && outputArray[..newLength] == t
  {
    newLength := DigitHelper.GetRealDigitsLength(lens[..], outputLength);
    assert lens[..][..outputLength] == lens[..outputLength];
    OneDigitSlots(vals, lens, d, b, |t|, outputLength, newLength);
    outputArray := CopyDigits(vals, lens, newLength, d, b);
  }

  /** The copy loop: digit j is taken from the values where its length is not zero. */
  method CopyDigits(vals: array<uint32>, lens: array<uint32>, newLength: nat, ghost d: seq<nat>, ghost b: nat)
    returns (outputArray: seq<uint32>)
    requires vals.Length == lens.Length == |d| && newLength <= |d| && FastParser.Level(vals[..], lens[..], d, b, 1)
    ensures |outputArray| == newLength && forall i :: 0 <= i < newLength ==> outputArray[i] == d[i]
  {
    var output := new uint32[newLength](_ => 0);
    var j := 0;
    while j < newLength
      invariant j <= newLength
      invariant forall i :: 0 <= i < j ==> output[i] == d[i]
      invariant forall i :: j <= i < newLength ==> output[i] == 0
    {
      OneDigit(vals, lens, d, b, j);
      if lens[j] != 0 {
        output[j] := vals[j];
      }
      j := j + 1;
    }
    outputArray := output[..];
  }
}
