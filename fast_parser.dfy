/**
 * The fast parser: the digits are stored least significant first, one digit
 * per slot, and neighbouring slots are merged pairwise level by level
 * (lo + base^w * hi), with base^w squared from one level to the next. Two
 * buffers take turns holding the values and the slot lengths.
 */
module FastParser {
  import opened Limbs
  import opened Errors
  import opened Radix
  import opened StrRepHelper
  import opened Parsers
  import Bits
  import BigInteger
  import DigitHelper
  import DigitOpHelper
  import ClassicMultiplier
  import ClassicParser
  import Constants

  // ---------------------------------------------------------------------------
  // Slots

  /** The first len limbs of run hold, trimmed, the value of the digits (least significant first). */
  ghost predicate Slot(run: seq<uint32>, len: nat, digits: seq<nat>, b: nat)
  {
    len <= |run| && Trimmed(run[..len]) && Val(run[..len]) == Eval(digits, b)
  }

  /** The slot of width w at q: its limbs in vals, its length in lens[q], its digits in d. */
  ghost predicate SlotAt(vals: seq<uint32>, lens: seq<uint32>, d: seq<nat>, b: nat, q: nat, w: nat)
  {
    q < |vals| && q + w <= |vals| && |vals| == |lens| == |d| && Slot(vals[q..q + w], lens[q], d[q..q + w], b)
  }

  /** Every slot of width w holds the value of its digits. */
  ghost predicate Level(vals: seq<uint32>, lens: seq<uint32>, d: seq<nat>, b: nat, w: nat)
  {
    w >= 1 && forall q :: 0 <= q < |d| && q % w == 0 ==> SlotAt(vals, lens, d, b, q, w)
  }

  // ---------------------------------------------------------------------------
  // The parser

  /**
   * Parses value[startIndex..endIndex]: power-of-two bases and buffers outside
   * the fast range go to the other parsers, everything else is merged level
   * by level. The result agrees with the digits exactly as the classic
   * parser's does.
   */
  method Parse(value: string, startIndex: nat, endIndex: nat, numberBase: uint32,
               charToDigits: Dictionary, digitsRes: array<uint32>) returns (r: Result<nat>)
    requires startIndex <= endIndex < |value| && numberBase >= 2
    requires endIndex + 1 - startIndex <= 0x8000_0000
    requires AllZero(digitsRes[..]) && RoomFor(endIndex + 1 - startIndex, numberBase, digitsRes.Length)
    modifies digitsRes
    ensures Agrees(r, RangeDigits(value, startIndex, endIndex, charToDigits, numberBase))
    ensures r.Success? ==> r.value <= digitsRes.Length
    ensures r.Success? ==>
      Val(digitsRes[..r.value]) == Horner(RangeDigits(value, startIndex, endIndex, charToDigits, numberBase).value, numberBase)
    ensures r.Success? ==>
      (numberBase != Pow2(Bits.Msb(numberBase)) || LeadingNonZero(RangeDigits(value, startIndex, endIndex, charToDigits, numberBase))) ==>
      Trimmed(digitsRes[..r.value])
  {
    r := ParseRange(value, startIndex, endIndex, numberBase, charToDigits, digitsRes);
    if r.Failure? || r.value != 0 {
      return;
    }
    var initialLength := digitsRes.Length;
    if initialLength < Constants.FastParseLengthLowerBound || initialLength > Constants.FastParseLengthUpperBound {
      r := ClassicParser.Parse(value, startIndex, endIndex, numberBase, charToDigits, digitsRes);
      return;
    }
    r := MergeParse(value, startIndex, endIndex, numberBase, charToDigits, digitsRes);
  }

  /**
   * The fast path: the digits are read into slots of a power-of-two count,
   * merged level by level, and the limbs of the single last slot copied to
   * the front of the result buffer.
   */
  method MergeParse(value: string, startIndex: nat, endIndex: nat, numberBase: uint32,
                    charToDigits: Dictionary, digitsRes: array<uint32>) returns (r: Result<nat>)
    requires startIndex <= endIndex < |value| && numberBase >= 2
    requires endIndex + 1 - startIndex <= 0x8000_0000
    requires RoomFor(endIndex + 1 - startIndex, numberBase, digitsRes.Length)
    modifies digitsRes
    ensures Agrees(r, RangeDigits(value, startIndex, endIndex, charToDigits, numberBase))
    ensures r.Success? ==> r.value <= digitsRes.Length && Trimmed(digitsRes[..r.value])
    ensures r.Success? ==>
      Val(digitsRes[..r.value]) == Horner(RangeDigits(value, startIndex, endIndex, charToDigits, numberBase).value, numberBase)
  {
    var valueLength := endIndex - startIndex + 1;
    Pow2Small();
    Bits.CeilLog2Least(valueLength, 31);
    ghost var c := Bits.CeilLog2(valueLength);
    var digitsLength := Pow2(Bits.CeilLog2(valueLength));
    Pow2Monotone(c, 31);
    var err, a, bb, d := FirstBuffers(value, startIndex, endIndex, numberBase, charToDigits, digitsLength);
    if err.Some? {
      return Failure(err.value);
    }
    ghost var ds := RangeDigits(value, startIndex, endIndex, charToDigits, numberBase).value;
    var res, realLength := MergeAll(a, bb, d, numberBase, c);
    Fits(res[..realLength], Horner(ds, numberBase), numberBase, valueLength, digitsRes.Length, ds);
    DigitHelper.DigitsBlockCopy(res[..], digitsRes, 0, realLength);
    assert digitsRes[..realLength] == res[..realLength];
    return Success(realLength);
  }

  /**
   * The buffers of the first level: the digits reversed and zero-padded to
   * digitsLength slots in the first, their lengths (0 or 1) in the second.
   */
  method FirstBuffers(value: string, startIndex: nat, endIndex: nat, numberBase: uint32,
                      charToDigits: Dictionary, digitsLength: nat)
    returns (err: Option<Error>, a: array<uint32>, bb: array<uint32>, ghost d: seq<nat>)
    requires startIndex <= endIndex < |value| && numberBase >= 2 && endIndex + 1 - startIndex <= digitsLength
    ensures fresh(a) && fresh(bb) && a != bb && a.Length == bb.Length == digitsLength
    ensures var ds := RangeDigits(value, startIndex, endIndex, charToDigits, numberBase);
      (err.None? <==> ds.Success?) && (err.Some? ==> err.value == ds.error)
    ensures err.None? ==> d == a[..] && DigitsBelow(d, numberBase) && Level(a[..], bb[..], d, numberBase, 1)
    ensures err.None? ==>
      Eval(d, numberBase) == Horner(RangeDigits(value, startIndex, endIndex, charToDigits, numberBase).value, numberBase)
  {
    var valueLength := endIndex - startIndex + 1;
    a := BigInteger.ZeroDigits(digitsLength);
    bb := BigInteger.ZeroDigits(digitsLength);
    d := [];
    err := ReadDigits(value, startIndex, endIndex, numberBase, charToDigits, a, bb);
    if err.Some? {
      return;
    }
    ghost var ds := RangeDigits(value, startIndex, endIndex, charToDigits, numberBase).value;
    DigitHelper.SetBlockDigits(bb, valueLength, digitsLength - valueLength, 0);
    d := a[..];
    assert forall i :: valueLength <= i < |d| ==> d[i] == 0 by {
      assert a[valueLength..] == Zeros(digitsLength)[valueLength..];
      forall i | valueLength <= i < |d|
        ensures d[i] == 0
      {
        assert d[i] == a[valueLength..][i - valueLength];
      }
    }
    assert d[..valueLength] == Reverse(ds);
    PaddedDigits(d, ds, numberBase);
    PaddedBelow(d, ds, numberBase);
    forall i | 0 <= i < digitsLength
      ensures bb[..][i] == (if a[..][i] == 0 then 0 else 1)
    {
      if i >= valueLength {
        assert d[valueLength..][i - valueLength] == 0;
      }
    }
    FirstLevel(a[..], bb[..], numberBase);
  }

  /**
   * The levels: slots of width 1, 2, 4, ... are merged until one slot covers
   * all 2^c digits; the buffer returned holds its limbs, trimmed.
   */
  method MergeAll(a: array<uint32>, bb: array<uint32>, ghost d: seq<nat>, numberBase: uint32, ghost c: nat)
    returns (res: array<uint32>, realLength: nat)
    requires a != bb && a.Length == bb.Length == |d| == Pow2(c) && c <= 31
    requires numberBase >= 2 && DigitsBelow(d, numberBase) && Level(a[..], bb[..], d, numberBase, 1)
    modifies a, bb
    ensures realLength <= res.Length && Trimmed(res[..realLength]) && Val(res[..realLength]) == Eval(d, numberBase)
  {
    var digitsLength := a.Length;
    var x, y := a, bb;
    var baseInt: seq<uint32> := [];
    ghost var k: nat := 0;
    var innerStep: nat := 1;
    while innerStep < digitsLength
      invariant (x == a && y == bb) || (x == bb && y == a)
      invariant x.Length == y.Length == |d| == digitsLength
      invariant innerStep == Pow2(k) && k <= c && innerStep <= digitsLength
      invariant Level(x[..], y[..], d, numberBase, innerStep)
      invariant innerStep > 1 ==> Trimmed(baseInt) && Val(baseInt) == IntPow(numberBase, innerStep / 2)
      decreases digitsLength - innerStep
    {
      NextLevel(k, c);
      if innerStep == 1 {
        baseInt := [numberBase];
        ValSingle(numberBase);
        assert IntPow(numberBase, 1) == numberBase;
      } else {
        baseInt := NextBase(baseInt, numberBase, k);
      }
      MergeLevel(x, y, baseInt, d, numberBase, innerStep);
      x, y := y, x;
      ghost var prev := innerStep;
      k := k + 1;
      innerStep := innerStep * 2;
      assert innerStep / 2 == prev;
    }
    WholeSlot(x[..], y[..], d, numberBase);
    res := x;
    realLength := y[0];
    assert x[..][..realLength] == x[..realLength];
  }

  /** Below the last level, the next level of slots still divides the digits and fits a limb count. */
  lemma {:induction false} NextLevel(k: nat, c: nat)
    requires Pow2(k) < Pow2(c) && c <= 31
    ensures k >= 1 ==> Pow2(k) > 1
    ensures k < c && Pow2(k + 1) == 2 * Pow2(k) <= Pow2(c) && Pow2(c) % (2 * Pow2(k)) == 0 && 2 * Pow2(k) < BASE
  {
    if k >= c {
      Pow2Monotone(c, k);
    }
    if k >= 1 {
      Pow2Monotone(1, k);
    }
    Pow2Small();
    Pow2Divides(k + 1, c);
    Pow2Monotone(k + 1, c);
    Pow2Monotone(c, 31);
  }

  /** At the last level the only slot covers every digit. */
  lemma {:induction false} WholeSlot(vals: seq<uint32>, lens: seq<uint32>, d: seq<nat>, b: nat)
    requires |vals| == |lens| == |d| >= 1 && Level(vals, lens, d, b, |d|)
    ensures lens[0] <= |vals| && Trimmed(vals[..lens[0]]) && Val(vals[..lens[0]]) == Eval(d, b)
  {
    assert SlotAt(vals, lens, d, b, 0, |d|);
    SlotFacts(vals, lens, d, b, 0, |d|);
    assert vals[0..0 + lens[0]] == vals[..lens[0]] && d[0..0 + |d|] == d;
  }

  /** The limbs of the result fit the buffer the caller sized for n digits. */
  lemma {:induction false} Fits(s: seq<uint32>, v: nat, b: nat, n: nat, len: nat, ds: seq<nat>)
    requires Trimmed(s) && Val(s) == v && v == Horner(ds, b) && |ds| == n && DigitsBelow(ds, b)
    requires b >= 1 && IntPow(b, n) <= Pow(len)
    ensures |s| <= len
  {
    HornerBound(ds, b);
    ValTrimmedRange(s);
    if |s| > len {
      PowMonotone(len, |s| - 1);
    }
  }

  /** base^(2w) from base^w, by squaring its limbs. */
  method NextBase(baseInt: seq<uint32>, ghost b: nat, ghost k: nat) returns (next: seq<uint32>)
    requires k >= 1 && b >= 2 && Trimmed(baseInt) && Val(baseInt) == IntPow(b, Pow2(k) / 2)
    ensures Trimmed(next) && Val(next) == IntPow(b, Pow2(k))
  {
    ghost var h := Pow2(k - 1);
    assert Pow2(k) / 2 == h && Pow2(k) == h + h;
    ValTrimmedRange(baseInt);
    IntPowMonotone(b, 0, h);
    next := Product(baseInt, baseInt);
    IntPowAdd(b, h, h);
  }

  /**
   * The character loop: the digit of character k goes to slot n - 1 - k, so
   * the first n limbs hold the digits least significant first, and its length
   * (0 for a zero digit, 1 otherwise) to the same slot of the second buffer.
   */
  method ReadDigits(value: string, startIndex: nat, endIndex: nat, numberBase: uint32,
                    charToDigits: Dictionary, valueDigits: array<uint32>, valueDigits2: array<uint32>)
    returns (err: Option<Error>)
    requires startIndex <= endIndex < |value| && valueDigits != valueDigits2
    requires endIndex + 1 - startIndex <= valueDigits.Length == valueDigits2.Length
    modifies valueDigits, valueDigits2
    ensures var ds := RangeDigits(value, startIndex, endIndex, charToDigits, numberBase);
      (err.None? <==> ds.Success?) && (err.Some? ==> err.value == ds.error)
    ensures err.None? ==>
      valueDigits[..endIndex + 1 - startIndex] == Reverse(RangeDigits(value, startIndex, endIndex, charToDigits, numberBase).value)
    ensures err.None? ==>
      forall i :: 0 <= i < endIndex + 1 - startIndex ==> valueDigits2[i] == (if valueDigits[i] == 0 then 0 else 1)
    ensures valueDigits[endIndex + 1 - startIndex..] == old(valueDigits[endIndex + 1 - startIndex..])
  {
    ghost var n := endIndex + 1 - startIndex;
    ghost var s := value[startIndex..endIndex + 1];
    ghost var ds: seq<uint32> := [];
    assert s[..0] == [];
    var i := startIndex;
    while i <= endIndex
      invariant startIndex <= i <= endIndex + 1
      invariant DigitsOf(s[..i - startIndex], charToDigits, numberBase) == Success(ds)
      invariant valueDigits[n - (i - startIndex)..n] == Reverse(ds)
      invariant forall j :: n - (i - startIndex) <= j < n ==> valueDigits2[j] == (if valueDigits[j] == 0 then 0 else 1)
      invariant valueDigits[n..] == old(valueDigits[n..])
    {
      var g := ReadDigitOf(value, startIndex, endIndex, i, charToDigits, numberBase, ds);
      if g.Failure? {
        return Some(g.error);
      }
      PutDigit(valueDigits, valueDigits2, endIndex - i, n, g.value, ds);
      ds := ds + [g.value];
      i := i + 1;
    }
    assert s[..n] == s;
    return None;
  }

  /**
   * One character: its digit goes in front of the reversed digits read so
   * far, its length (0 or 1) to the same slot of the second buffer.
   */
  method PutDigit(valueDigits: array<uint32>, valueDigits2: array<uint32>, pos: nat, ghost n: nat, g: uint32, ghost ds: seq<uint32>)
    requires valueDigits != valueDigits2 && pos < n <= valueDigits.Length == valueDigits2.Length
    requires valueDigits[pos + 1..n] == Reverse(ds)
    requires forall j :: pos + 1 <= j < n ==> valueDigits2[j] == (if valueDigits[j] == 0 then 0 else 1)
    modifies valueDigits, valueDigits2
    ensures valueDigits[pos..n] == Reverse(ds + [g])
    ensures forall j :: pos <= j < n ==> valueDigits2[j] == (if valueDigits[j] == 0 then 0 else 1)
    ensures valueDigits[n..] == old(valueDigits[n..])
  {
    ghost var tail := valueDigits[pos + 1..n];
    valueDigits[pos] := g;
    valueDigits2[pos] := if g == 0 then 0 else 1;
    assert valueDigits[pos..n] == [g] + tail;
    ReverseSnoc(ds, g);
  }

  /** Reversing puts a digit appended at the end in front. */
  lemma {:induction false} ReverseSnoc(ds: seq<nat>, g: nat)
    ensures Reverse(ds + [g]) == [g] + Reverse(ds)
  {
    assert (ds + [g])[..|ds|] == ds;
  }

  /** The digits, reversed and padded with zeros, are worth their Horner value. */
  lemma {:induction false} PaddedDigits(a: seq<nat>, ds: seq<nat>, b: nat)
    requires |ds| <= |a| && a[..|ds|] == Reverse(ds) && forall i :: |ds| <= i < |a| ==> a[i] == 0
    ensures Eval(a, b) == Horner(ds, b)
  {
    var n := |ds|;
    var lo, hi := a[..n], a[n..];
    assert a == lo + hi;
    assert forall i :: 0 <= i < |hi| ==> hi[i] == 0 by {
      forall i | 0 <= i < |hi|
        ensures hi[i] == 0
      {
        assert hi[i] == a[n + i];
      }
    }
    EvalZeros(hi, b);
    EvalConcat(lo, hi, b);
    EvalReverse(ds, b);
    assert Eval(a, b) == Eval(lo, b) + IntPow(b, n) * 0;
  }

  /** Reversing and padding with zeros keeps the digits below the base. */
  lemma {:induction false} PaddedBelow(a: seq<nat>, ds: seq<nat>, b: nat)
    requires |ds| <= |a| && a[..|ds|] == Reverse(ds) && forall i :: |ds| <= i < |a| ==> a[i] == 0
    requires b >= 1 && DigitsBelow(ds, b)
    ensures DigitsBelow(a, b)
  {
    var n := |ds|;
    forall i | 0 <= i < |a|
      ensures a[i] < b
    {
      if i < n {
        assert a[i] == a[..n][i] == Reverse(ds)[i] == ds[n - 1 - i];
      }
    }
  }

  /** One digit per slot, with length 0 for a zero digit and 1 otherwise. */
  lemma {:induction false} FirstLevel(vals: seq<uint32>, lens: seq<uint32>, b: nat)
    requires |vals| == |lens| && forall i :: 0 <= i < |vals| ==> lens[i] == (if vals[i] == 0 then 0 else 1)
    ensures Level(vals, lens, vals, b, 1)
  {
    forall q | 0 <= q < |vals| && q % 1 == 0
      ensures SlotAt(vals, lens, vals, b, q, 1)
    {
      var run := vals[q..q + 1];
      assert run == [vals[q]];
      assert Eval(vals[q..q + 1], b) == vals[q] by {
        assert vals[q..q + 1][1..] == [];
      }
      if vals[q] == 0 {
        assert run[..lens[q]] == [];
      } else {
        assert run[..lens[q]] == [vals[q]];
        ValSingle(vals[q]);
      }
    }
  }

  // ---------------------------------------------------------------------------
  // One level

  /**
   * Merges every pair of neighbouring slots of width w into a slot of width
   * 2w: the merged limbs go to the second buffer, the merged lengths to the
   * first, so the buffers swap roles for the next level.
   */
  method MergeLevel(a: array<uint32>, bb: array<uint32>, baseInt: seq<uint32>, ghost d: seq<nat>, numberBase: uint32, w: nat)
    requires w >= 1 && a != bb && a.Length == bb.Length == |d| && 2 * w <= |d| && |d| % (2 * w) == 0 && 2 * w < BASE
    requires numberBase >= 2 && DigitsBelow(d, numberBase)
    requires Level(a[..], bb[..], d, numberBase, w)
    requires Trimmed(baseInt) && Val(baseInt) == IntPow(numberBase, w)
    modifies a, bb
    ensures Level(bb[..], a[..], d, numberBase, 2 * w)
  {
    var m := 2 * w;
    var p := 0;
    ghost var oa, ob := a[..], bb[..];
    while p < a.Length
      invariant p <= |d| && p % m == 0
      invariant Merged(bb[..], a[..], d, numberBase, m, p)
      invariant a[p..] == oa[p..] && bb[p..] == ob[p..]
      decreases |d| - p
    {
      SlotFits(p, m, |d|);
      var q := p + w;
      NextRuns(oa, ob, a, bb, d, numberBase, p, q, w);
      ghost var a0, b0 := a[..], bb[..];
      MergeStep(a, bb, baseInt, d, numberBase, p, q, w);
      MergedGrows(b0, a0, bb[..], a[..], d, numberBase, m, p);
      TailFrame(a0, oa, a[..], p, m);
      TailFrame(b0, ob, bb[..], p, m);
      ModAddMultiple(p, m, 1);
      p := p + m;
    }
  }

  /** The slots of width m below p are merged. */
  ghost predicate Merged(vals: seq<uint32>, lens: seq<uint32>, d: seq<nat>, b: nat, m: nat, p: nat)
  {
    m >= 1 && forall q :: 0 <= q < p && q % m == 0 ==> SlotAt(vals, lens, d, b, q, m)
  }

  /** The runs of the two slots of width w at p, read from the buffers. */
  lemma {:induction false} NextRuns(oa: seq<uint32>, ob: seq<uint32>, a: array<uint32>, bb: array<uint32>, d: seq<nat>, b: nat,
                                    p: nat, q: nat, w: nat)
    requires Level(oa, ob, d, b, w) && p % (2 * w) == 0 && q == p + w && q + w <= |d|
    requires a.Length == |oa| == |d| && bb.Length == |ob| == |d| && a[p..] == oa[p..] && bb[p..] == ob[p..]
    ensures bb[p] <= w && Trimmed(a[p..p + bb[p]]) && Val(a[p..p + bb[p]]) == Eval(d[p..q], b)
    ensures bb[q] <= w && Trimmed(a[q..q + bb[q]]) && Val(a[q..q + bb[q]]) == Eval(d[q..q + w], b)
  {
    HalfSlots(p, w);
    RunAt(oa, ob, a, bb, d, b, p, p, w);
    RunAt(oa, ob, a, bb, d, b, p, q, w);
  }

  /** A slot of the level at or above p, where the buffers are as the level left them, read from the buffers. */
  lemma {:induction false} RunAt(oa: seq<uint32>, ob: seq<uint32>, a: array<uint32>, bb: array<uint32>, d: seq<nat>, b: nat,
                                 p: nat, q: nat, w: nat)
    requires Level(oa, ob, d, b, w) && q % w == 0 && p <= q && q + w <= |d|
    requires a.Length == |oa| == |d| && bb.Length == |ob| == |d| && a[p..] == oa[p..] && bb[p..] == ob[p..]
    ensures bb[q] <= w && Trimmed(a[q..q + bb[q]]) && Val(a[q..q + bb[q]]) == Eval(d[q..q + w], b)
  {
    assert SlotAt(oa, ob, d, b, q, w);
    SlotFrameAbove(oa, ob, a[..], bb[..], d, b, q, w, p);
    SlotInBuffers(a, bb, d, b, q, w);
  }

  /** One more merged slot, with the ones below it untouched, extends the merged prefix. */
  lemma {:induction false} MergedGrows(vals: seq<uint32>, lens: seq<uint32>, vals': seq<uint32>, lens': seq<uint32>,
                    d: seq<nat>, b: nat, m: nat, p: nat)
    requires m >= 1 && p % m == 0 && p + m <= |vals| && |vals'| == |vals| && |lens'| == |lens|
    requires Merged(vals, lens, d, b, m, p) && SlotAt(vals', lens', d, b, p, m)
    requires vals'[..p] == vals[..p] && lens'[..p] == lens[..p]
    ensures Merged(vals', lens', d, b, m, p + m)
  {
    forall q | 0 <= q < p + m && q % m == 0
      ensures SlotAt(vals', lens', d, b, q, m)
    {
      if q < p {
        SlotFits(q, m, p);
        SlotFrameBelow(vals, lens, vals', lens', d, b, q, m, p);
      } else {
        SameSlot(q, p, m);
      }
    }
  }

  /** What lies beyond a merged slot is still what the level started with. */
  lemma {:induction false} TailFrame(x0: seq<uint32>, o: seq<uint32>, x1: seq<uint32>, p: nat, m: nat)
    requires |x0| == |o| == |x1| && p + m <= |o|
    requires x0[p..] == o[p..] && x1[p + m..] == x0[p + m..]
    ensures x1[p + m..] == o[p + m..]
  {
    assert x0[p + m..] == x0[p..][m..];
    assert o[p + m..] == o[p..][m..];
  }

  /** Merges the two slots of width w at p into the slot of width 2w at p. */
  method MergeStep(a: array<uint32>, bb: array<uint32>, baseInt: seq<uint32>, ghost d: seq<nat>, numberBase: uint32,
                    p: nat, q: nat, w: nat)
    requires w >= 1 && a != bb && a.Length == bb.Length == |d| && q == p + w && p + 2 * w <= |d| && 2 * w < BASE
    requires numberBase >= 2 && DigitsBelow(d, numberBase)
    requires Trimmed(baseInt) && Val(baseInt) == IntPow(numberBase, w)
    requires bb[p] <= w && Trimmed(a[p..p + bb[p]]) && Val(a[p..p + bb[p]]) == Eval(d[p..q], numberBase)
    requires bb[q] <= w && Trimmed(a[q..q + bb[q]]) && Val(a[q..q + bb[q]]) == Eval(d[q..q + w], numberBase)
    modifies a, bb
    ensures SlotAt(bb[..], a[..], d, numberBase, p, 2 * w)
    ensures a[..p] == old(a[..p]) && bb[..p] == old(bb[..p])
    ensures a[p + 2 * w..] == old(a[p + 2 * w..]) && bb[p + 2 * w..] == old(bb[p + 2 * w..])
  {
    ghost var a0, b0 := a[..], bb[..];
    var lo, hi := a[p..p + bb[p]], a[q..q + bb[q]];
    MergeValue(lo, hi, baseInt, d, numberBase, p, q, w);
    MergeSlot(a, bb, baseInt, lo, hi, p, w);
    MergedSlot(a, bb, d, numberBase, p, 2 * w);
    assert a[..p] == a0[..p] && a[p + 2 * w..] == a0[p + 2 * w..];
  }

  /** What a slot of the buffers says about the run of limbs it holds. */
  lemma {:induction false} SlotInBuffers(a: array<uint32>, bb: array<uint32>, d: seq<nat>, b: nat, q: nat, w: nat)
    requires SlotAt(a[..], bb[..], d, b, q, w)
    ensures bb[q] <= w && q + bb[q] <= a.Length
    ensures Trimmed(a[q..q + bb[q]]) && Val(a[q..q + bb[q]]) == Eval(d[q..q + w], b)
  {
    var run := SlotRun(a[..], bb[..], d, b, q, w);
    assert run == a[q..q + bb[q]];
  }

  /** A merged run in the second buffer, its length in the first, is a slot of width m. */
  lemma {:induction false} MergedSlot(a: array<uint32>, bb: array<uint32>, d: seq<nat>, b: nat, p: nat, m: nat)
    requires a.Length == bb.Length == |d| && p + m <= |d| && p < |d| && a[p] <= m
    requires Trimmed(bb[p..p + a[p]]) && Val(bb[p..p + a[p]]) == Eval(d[p..p + m], b)
    ensures SlotAt(bb[..], a[..], d, b, p, m)
  {
    assert bb[..][p..p + a[p]] == bb[p..p + a[p]];
    SlotMake(bb[..], a[..], d, b, p, m);
  }

  /**
   * Merges the runs lo and hi of the slots at p and p + w into the slot of
   * width 2w at p: hi times base^w goes to the second buffer (cleared first),
   * lo is added to it there, and the merged length goes to the first buffer.
   */
  method MergeSlot(a: array<uint32>, bb: array<uint32>, baseInt: seq<uint32>, lo: seq<uint32>, hi: seq<uint32>, p: nat, w: nat)
    requires a != bb && a.Length == bb.Length && p + 2 * w <= a.Length && 2 * w < BASE && w >= 1
    requires |lo| <= w && |hi| <= w && Trimmed(lo) && Trimmed(hi)
    requires 1 <= |baseInt| <= w && Trimmed(baseInt)
    requires Val(lo) + Val(baseInt) * Val(hi) < Pow(2 * w)
    modifies a, bb
    ensures a[p] <= 2 * w && Trimmed(bb[p..p + a[p]])
    ensures Val(bb[p..p + a[p]]) == Val(lo) + Val(baseInt) * Val(hi)
    ensures a[..] == old(a[..])[p := a[p]]
    ensures bb[..p] == old(bb[..p]) && bb[p + 2 * w..] == old(bb[p + 2 * w..])
  {
    var hiLen: nat := 0;
    if |hi| != 0 {
      hiLen := MultiplyHigh(bb, baseInt, hi, p, w);
    } else {
      assert bb[p..p + 0] == [];
      assert Val(baseInt) * Val(hi) == 0;
    }
    var len: nat := 0;
    if hiLen != 0 || |lo| != 0 {
      len := AddInSlot(bb, bb[p..p + hiLen], lo, p, w);
    } else {
      assert bb[p..p + 0] == [] && lo == [];
    }
    a[p] := len;
  }

  /**
   * The runs of two neighbouring slots of width w, joined by base^w, are
   * worth the digits of both, and that value fits 2w limbs.
   */
  lemma {:induction false} MergeValue(lo: seq<uint32>, hi: seq<uint32>, baseInt: seq<uint32>, d: seq<nat>, b: nat,
                                      p: nat, q: nat, w: nat)
    requires 2 <= b < BASE && w >= 1 && q == p + w && p + 2 * w <= |d| && DigitsBelow(d, b)
    requires Trimmed(baseInt) && Val(baseInt) == IntPow(b, w)
    requires Val(lo) == Eval(d[p..q], b) && Val(hi) == Eval(d[q..q + w], b)
    ensures 1 <= |baseInt| <= w
    ensures Val(lo) + Val(baseInt) * Val(hi) == Eval(d[p..p + 2 * w], b) < Pow(2 * w)
  {
    BaseLimbs(baseInt, b, w);
    assert d[q..q + w] == d[p + w..p + 2 * w];
    assert d[p..q] == d[p..p + w];
    var vLo, vHi := Eval(d[p..p + w], b), Eval(d[p + w..p + 2 * w], b);
    MergedBound(d, b, p, w, vLo, vHi);
    MulArgs(Val(baseInt), Val(hi), IntPow(b, w), vHi);
  }

  /** The run of limbs a slot holds, trimmed and worth its digits. */
  lemma {:induction false} SlotRun(vals: seq<uint32>, lens: seq<uint32>, d: seq<nat>, b: nat, q: nat, w: nat) returns (run: seq<uint32>)
    requires SlotAt(vals, lens, d, b, q, w)
    ensures lens[q] <= w && q + lens[q] <= |vals| && run == vals[q..q + lens[q]]
    ensures Trimmed(run) && Val(run) == Eval(d[q..q + w], b)
  {
    SlotFacts(vals, lens, d, b, q, w);
    run := vals[q..q + lens[q]];
  }

  /** What a slot says about its limbs. */
  lemma {:induction false} SlotFacts(vals: seq<uint32>, lens: seq<uint32>, d: seq<nat>, b: nat, q: nat, w: nat)
    requires SlotAt(vals, lens, d, b, q, w)
    ensures lens[q] <= w && q + lens[q] <= |vals|
    ensures Trimmed(vals[q..q + lens[q]]) && Val(vals[q..q + lens[q]]) == Eval(d[q..q + w], b)
  {
    assert vals[q..q + w][..lens[q]] == vals[q..q + lens[q]];
  }

  /** A slot is made of a short enough trimmed run worth its digits. */
  lemma {:induction false} SlotMake(vals: seq<uint32>, lens: seq<uint32>, d: seq<nat>, b: nat, q: nat, w: nat)
    requires q < |vals| && q + w <= |vals| && |vals| == |lens| == |d| && lens[q] <= w
    requires Trimmed(vals[q..q + lens[q]]) && Val(vals[q..q + lens[q]]) == Eval(d[q..q + w], b)
    ensures SlotAt(vals, lens, d, b, q, w)
  {
    assert vals[q..q + w][..lens[q]] == vals[q..q + lens[q]];
  }

  /** x + y into the slot of width 2w at p, where it fits, trimmed. */
  method AddInSlot(bb: array<uint32>, x: seq<uint32>, y: seq<uint32>, p: nat, w: nat) returns (len: nat)
    requires p + 2 * w <= bb.Length && |x| <= 2 * w && |y| <= w
    requires Trimmed(x) && Trimmed(y) && Val(x) + Val(y) < Pow(2 * w)
    modifies bb
    ensures len <= 2 * w && Trimmed(bb[p..p + len]) && Val(bb[p..p + len]) == Val(x) + Val(y)
    ensures bb[..p] == old(bb[..p]) && bb[p + 2 * w..] == old(bb[p + 2 * w..])
  {
    ghost var b0 := bb[..];
    AddFits(x, y, w);
    len := DigitOpHelper.Add(x, y, bb, p);
    AddTrimmed(x, y, bb[p..p + len]);
    assert bb[..p] == b0[..p] && bb[p + 2 * w..] == b0[p + 2 * w..];
  }

  /**
   * The two halves of a slot of width 2w are worth lo + base^w hi together,
   * which is below base^(2w) and so fits 2w limbs.
   */
  lemma {:induction false} MergedBound(d: seq<nat>, b: nat, p: nat, w: nat, vLo: nat, vHi: nat)
    requires p + 2 * w <= |d| && 2 <= b < BASE && w >= 1 && DigitsBelow(d, b)
    requires vLo == Eval(d[p..p + w], b) && vHi == Eval(d[p + w..p + 2 * w], b)
    ensures Eval(d[p..p + 2 * w], b) == vLo + IntPow(b, w) * vHi
    ensures vLo + IntPow(b, w) * vHi < Pow(2 * w)
  {
    assert d[p..p + 2 * w] == d[p..p + w] + d[p + w..p + 2 * w];
    EvalConcat(d[p..p + w], d[p + w..p + 2 * w], b);
    EvalBound(d[p..p + 2 * w], b);
    IntPowBelowPow(b, 2 * w);
  }

  /** base^w has at most w limbs, and at least one. */
  lemma {:induction false} BaseLimbs(baseInt: seq<uint32>, b: nat, w: nat)
    requires Trimmed(baseInt) && Val(baseInt) == IntPow(b, w) && 2 <= b < BASE && w >= 1
    ensures 1 <= |baseInt| <= w
  {
    IntPowBelowPow(b, w);
    ValTrimmedRange(baseInt);
    if |baseInt| > w {
      PowMonotone(w, |baseInt| - 1);
    }
  }

  /**
   * The high half times base^w: the slot is cleared, the product is formed
   * and its limbs land at the start of the slot.
   */
  method MultiplyHigh(bb: array<uint32>, baseInt: seq<uint32>, hi: seq<uint32>, p: nat, w: nat)
    returns (hiLen: nat)
    requires p + 2 * w <= bb.Length
    requires 1 <= |hi| <= w && 1 <= |baseInt| <= w && Trimmed(baseInt) && Trimmed(hi)
    modifies bb
    ensures hiLen <= 2 * w && Trimmed(bb[p..p + hiLen])
    ensures Val(bb[p..p + hiLen]) == Val(baseInt) * Val(hi)
    ensures bb[..p] == old(bb[..p]) && bb[p + 2 * w..] == old(bb[p + 2 * w..])
  {
    ghost var b0 := bb[..];
    DigitHelper.SetBlockDigits(bb, p, 2 * w, 0);
    var r := Product(baseInt, hi);
    hiLen := |r|;
    DigitHelper.DigitsBlockCopy(r, bb, p, hiLen);
    assert r[..hiLen] == r;
    assert bb[..p] == b0[..p] by {
      forall k | 0 <= k < p
        ensures bb[k] == b0[k]
      {
      }
    }
    assert bb[p + 2 * w..] == b0[p + 2 * w..] by {
      forall k | p + 2 * w <= k < bb.Length
        ensures bb[k] == b0[k]
      {
      }
    }
  }

  /** The trimmed product of two trimmed non-empty runs, formed in a zeroed scratch buffer. */
  method Product(x: seq<uint32>, y: seq<uint32>) returns (r: seq<uint32>)
    requires 1 <= |x| && 1 <= |y| && Trimmed(x) && Trimmed(y)
    ensures |r| <= |x| + |y| && Trimmed(r) && Val(r) == Val(x) * Val(y)
  {
    var n := |x| + |y|;
    var prod := BigInteger.ZeroDigits(n);
    assert AllZero(prod[..][Max(|x|, |y|)..n]);
    assert prod[..][Max(|x|, |y|)..n] == prod[Max(|x|, |y|)..n];
    var len := ClassicMultiplier.Multiply(x, y, prod);
    r := prod[..len];
  }

  /** The sum of the two halves fits the slot, carry included. */
  lemma {:induction false} AddFits(x: seq<uint32>, y: seq<uint32>, w: nat)
    requires |x| <= 2 * w && |y| <= w && Val(x) + Val(y) < Pow(2 * w)
    ensures Max(|x|, |y|) + (if DigitOpHelper.AddCarries(x, y) then 1 else 0) <= 2 * w
  {
    if DigitOpHelper.AddCarries(x, y) && Max(|x|, |y|) >= 2 * w {
      PowMonotone(2 * w, Max(|x|, |y|));
    }
  }

  /** The sum of two trimmed runs, one limb longer exactly on a carry, is trimmed. */
  lemma {:induction false} AddTrimmed(x: seq<uint32>, y: seq<uint32>, s: seq<uint32>)
    requires Trimmed(x) && Trimmed(y) && Val(s) == Val(x) + Val(y)
    requires |s| == Max(|x|, |y|) + (if DigitOpHelper.AddCarries(x, y) then 1 else 0)
    requires DigitOpHelper.AddCarries(x, y) ==> s[|s| - 1] == 1
    ensures Trimmed(s)
  {
    if !DigitOpHelper.AddCarries(x, y) && |s| > 0 {
      ValTrimmedRange(x);
      ValTrimmedRange(y);
      TopLimbNonzero(s);
    }
  }

  // ---------------------------------------------------------------------------
  // Slot arithmetic

  /** b^n < BASE^n for a base below BASE. */
  lemma {:induction false} IntPowBelowPow(b: nat, n: nat)
    requires b < BASE && n >= 1
    ensures IntPow(b, n) < Pow(n)
  {
    if n > 1 {
      IntPowBelowPow(b, n - 1);
      ProductBelow(b, IntPow(b, n - 1), BASE, Pow(n - 1));
    }
  }

  /** 2^k divides 2^c for k <= c. */
  lemma {:induction false} Pow2Divides(k: nat, c: nat)
    requires k <= c
    ensures Pow2(c) % Pow2(k) == 0
  {
    Pow2Sum(k, c - k, c);
    ModAddMultiple(0, Pow2(k), Pow2(c - k));
  }

  /** Slot heads: a multiple of m below a multiple L of m leaves room for a whole slot. */
  lemma {:induction false} SlotFits(p: nat, m: nat, L: nat)
    requires m >= 1 && p % m == 0 && L % m == 0 && p < L
    ensures p + m <= L
  {
    var i, j := p / m, L / m;
    assert p == i * m && L == j * m;
    if i >= j {
      MulLe(j, i, m);
    } else {
      MulLe(i + 1, j, m);
    }
  }

  /** The head of a slot of width 2w is the head of two slots of width w. */
  lemma {:induction false} HalfSlots(p: nat, w: nat)
    requires w >= 1 && p % (2 * w) == 0
    ensures p % w == 0 && (p + w) % w == 0
  {
    var m := 2 * w;
    var i := p / m;
    var k := i * 2;
    assert p == i * m;
    assert p == k * w by { MulAssoc(i, 2, w); }
    DivModUnique(p, w, k, 0);
    DivModUnique(p + w, w, k + 1, 0);
  }

  /** Two slot heads less than a slot apart are the same. */
  lemma {:induction false} SameSlot(q: nat, p: nat, m: nat)
    requires m >= 1 && q % m == 0 && p % m == 0 && p <= q < p + m
    ensures q == p
  {
    var i, j := q / m, p / m;
    assert q == i * m && p == j * m;
    if i > j {
      MulLe(j + 1, i, m);
    } else if i < j {
      MulLe(i + 1, j, m);
    }
  }

  /** A slot at or above `from` only sees limbs and lengths from `from` on. */
  lemma {:induction false} SlotFrameAbove(vals: seq<uint32>, lens: seq<uint32>, vals': seq<uint32>, lens': seq<uint32>,
                       d: seq<nat>, b: nat, q: nat, w: nat, from: nat)
    requires SlotAt(vals, lens, d, b, q, w) && from <= q
    requires |vals'| == |vals| && |lens'| == |lens| && from <= |vals|
    requires vals'[from..] == vals[from..] && lens'[from..] == lens[from..]
    ensures SlotAt(vals', lens', d, b, q, w)
  {
    forall i | q <= i < q + w
      ensures vals'[i] == vals[i]
    {
      assert vals'[i] == vals'[from..][i - from] && vals[i] == vals[from..][i - from];
    }
    assert vals'[q..q + w] == vals[q..q + w];
    assert lens'[q] == lens'[from..][q - from] && lens[q] == lens[from..][q - from];
  }

  /** A slot ending at or below `upto` only sees limbs and lengths below `upto`. */
  lemma {:induction false} SlotFrameBelow(vals: seq<uint32>, lens: seq<uint32>, vals': seq<uint32>, lens': seq<uint32>,
                       d: seq<nat>, b: nat, q: nat, w: nat, upto: nat)
    requires SlotAt(vals, lens, d, b, q, w) && w >= 1 && q + w <= upto <= |vals|
    requires |vals'| == |vals| && |lens'| == |lens|
    requires vals'[..upto] == vals[..upto] && lens'[..upto] == lens[..upto]
    ensures SlotAt(vals', lens', d, b, q, w)
  {
    forall i | q <= i < q + w
      ensures vals'[i] == vals[i]
    {
      assert vals'[i] == vals'[..upto][i] && vals[i] == vals[..upto][i];
    }
    assert vals'[q..q + w] == vals[q..q + w];
    assert lens'[q] == lens'[..upto][q] && lens[q] == lens[..upto][q];
  }
}
