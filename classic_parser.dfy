/**
 * The classic parser: after the power-of-two dispatch, the digits are read
 * most significant first and the limbs built so far are multiplied by the base
 * and the new digit added, limb by limb with a 64-bit carry (Horner's rule).
 */
module ClassicParser {
  import opened Limbs
  import opened Errors
  import opened Radix
  import opened StrRepHelper
  import opened Parsers
  import ClassicMultiplier

  /**
   * Parses value[startIndex..endIndex] into the zeroed buffer and returns the
   * length of the result. It fails exactly when a character is not a digit of
   * the base; otherwise the limbs hold the Horner value of the digits, with no
   * zero limb on top when the base is not a power of two.
   */
  method Parse(value: string, startIndex: nat, endIndex: nat, numberBase: uint32,
               charToDigits: Dictionary, digitsRes: array<uint32>) returns (r: Result<nat>)
    requires startIndex <= endIndex < |value| && numberBase >= 2
    requires AllZero(digitsRes[..]) && RoomFor(endIndex + 1 - startIndex, numberBase, digitsRes.Length)
    modifies digitsRes
    ensures Agrees(r, RangeDigits(value, startIndex, endIndex, charToDigits, numberBase))
    ensures r.Success? ==> r.value <= digitsRes.Length
    ensures r.Success? ==>
      Val(digitsRes[..r.value]) == Horner(RangeDigits(value, startIndex, endIndex, charToDigits, numberBase).value, numberBase)
    ensures r.Success? ==>
      (numberBase != Pow2(Bits.Msb(numberBase)) || LeadingNonZero(RangeDigits(value, startIndex, endIndex, charToDigits, numberBase))) ==>
      Trimmed(digitsRes[..r.value])
  {
    r := ParseRange(value, startIndex, endIndex, numberBase, charToDigits, digitsRes);
    if r.Failure? || r.value != 0 {
      return;
    }
    r := BigCycle(value, startIndex, endIndex, numberBase, charToDigits, digitsRes);
  }

  /**
   * The main loop over the characters: the limbs read so far always hold the
   * trimmed Horner value of the digits read so far.
   */
  method BigCycle(value: string, startIndex: nat, endIndex: nat, numberBase: uint32,
                  charToDigits: Dictionary, digitsRes: array<uint32>) returns (r: Result<nat>)
    requires startIndex <= endIndex < |value| && numberBase >= 2
    requires RoomFor(endIndex + 1 - startIndex, numberBase, digitsRes.Length)
    modifies digitsRes
    ensures Agrees(r, RangeDigits(value, startIndex, endIndex, charToDigits, numberBase))
    ensures r.Success? ==> r.value <= digitsRes.Length && Trimmed(digitsRes[..r.value])
    ensures r.Success? ==>
      Val(digitsRes[..r.value]) == Horner(RangeDigits(value, startIndex, endIndex, charToDigits, numberBase).value, numberBase)
  {
    ghost var n := endIndex + 1 - startIndex;
    ghost var s := value[startIndex..endIndex + 1];
    ghost var h: nat := 0;
    assert s[..0] == [];
    var newLength: nat := 0;
    var i := startIndex;
    while i <= endIndex
      invariant startIndex <= i <= endIndex + 1
      invariant DigitsOf(s[..i - startIndex], charToDigits, numberBase).Success?
      invariant h == Horner(DigitsOf(s[..i - startIndex], charToDigits, numberBase).value, numberBase)
      invariant h < IntPow(numberBase, i - startIndex)
      invariant newLength <= digitsRes.Length && Trimmed(digitsRes[..newLength]) && Val(digitsRes[..newLength]) == h
    {
      ghost var k := i - startIndex;
      var g: Result<uint32>;
      ghost var h2: nat;
      var next := i + 1;
      g, h2 := ReadDigit(value, startIndex, endIndex, i, next, charToDigits, numberBase, h);
      if g.Failure? {
        return Failure(g.error);
      }
      var digit := g.value;
      HornerRoom(h, digit, numberBase, k, n, digitsRes.Length, h2);
      newLength := HornerStep(digitsRes, newLength, numberBase, digit, h, h2);
      h := h2;
      i := next;
    }
    assert s[..|s|] == s;
    return Success(newLength);
  }

  /** One more digit keeps the value below b^(k+1), so it still fits the buffer. */
  lemma {:induction false} HornerRoom(h: nat, d: nat, b: nat, k: nat, n: nat, len: nat, h2: nat)
    requires h < IntPow(b, k) && d < b && k < n && IntPow(b, n) <= Pow(len) && h2 == h * b + d
    ensures h2 < IntPow(b, k + 1) && h2 < Pow(len)
  {
    DigitStep(h, d, b, IntPow(b, k));
    IntPowMonotone(b, k + 1, n);
  }

  /**
   * One character of the main loop: the trimmed limbs of h become the trimmed
   * limbs of h b + d, growing by at most one limb.
   */
  method HornerStep(digitsRes: array<uint32>, newLength: nat, numberBase: uint32, digit: uint32, ghost h: nat, ghost v: nat)
    returns (len: nat)
    requires numberBase >= 2 && digit < numberBase
    requires newLength <= digitsRes.Length && Trimmed(digitsRes[..newLength]) && Val(digitsRes[..newLength]) == h
    requires v == h * numberBase + digit && v < Pow(digitsRes.Length)
    modifies digitsRes
    ensures len <= digitsRes.Length && Trimmed(digitsRes[..len]) && Val(digitsRes[..len]) == v
  {
    ValTrimmedRange(digitsRes[..newLength]);
    if newLength == 0 {
      len := 0;
      if digit != 0 {
        digitsRes[0] := digit;
        len := 1;
        ValSingle(digit);
        assert digitsRes[..1] == [digit];
      }
    } else {
      var carry := MulAddDigits(digitsRes, newLength, numberBase, digit);
      ghost var lo := digitsRes[..newLength];
      len := newLength;
      if carry != 0 {
        assert newLength < digitsRes.Length by {
          GrowRoom(v, Val(lo), carry, newLength, digitsRes.Length);
        }
        digitsRes[newLength] := carry;
        len := newLength + 1;
        assert Val(digitsRes[..len]) == v by {
          assert digitsRes[..len] == lo + [carry];
          ValAppend(lo, carry);
        }
      } else {
        assert lo[newLength - 1] != 0 by {
          NoShrink(h, numberBase, digit);
          TopLimbNonzero(lo);
        }
      }
    }
  }

  /** A non-zero carry above limb n of a value below BASE^L means there is a limb n. */
  lemma {:induction false} GrowRoom(v: nat, lo: nat, c: nat, n: nat, L: nat)
    requires lo + c * Pow(n) == v < Pow(L) && c >= 1
    ensures n < L
  {
    MulLe(1, c, Pow(n));
    if n >= L {
      PowMonotone(L, n);
    }
  }

  lemma {:induction false} NoShrink(h: nat, b: nat, d: nat)
    requires b >= 1
    ensures h * b + d >= h
  {
    MulLe(1, b, h);
  }

  /**
   * The inner loop: multiplies the n low limbs by b and adds d, in place; the
   * limbs keep the low part and the returned carry the part above limb n.
   */
  method MulAddDigits(a: array<uint32>, n: nat, b: uint32, d: uint32) returns (carry: uint32)
    requires n <= a.Length
    modifies a
    ensures Val(a[..n]) + carry * Pow(n) == Val(old(a[..n])) * b + d
    ensures a[n..] == old(a[n..])
  {
    ghost var o := a[..];
    var c: nat := d;
    var j := 0;
    assert a[..0] == o[..0] == [];
    while j < n
      invariant j <= n && c < BASE
      invariant a[j..] == o[j..]
      invariant Val(a[..j]) + c * Pow(j) == Val(o[..j]) * b + d
    {
      ghost var pre := a[..j];
      var oj := a[j];
      assert oj == o[j] by { assert a[j..][0] == o[j..][0]; }
      var t := c + oj * b;
      ClassicMultiplier.MulWordBound(c, oj, b, 0);
      var lo: uint32 := t % BASE;
      a[j] := lo;
      var c2 := t / BASE;
      assert a[..j + 1] == pre + [lo];
      HornerLimbStep(pre, o, j, b, d, c, lo, c2);
      assert a[j + 1..] == o[j + 1..] by {
        assert a[j + 1..] == old(a[..])[j + 1..];
      }
      c := c2;
      j := j + 1;
    }
    carry := c;
    assert a[..n] == a[..][..n];
  }

  /** The carry equation survives one limb: the low word goes to limb i, the high word moves up. */
  lemma {:induction false} HornerLimbStep(r: seq<uint32>, o: seq<uint32>, i: nat, b: nat, d0: int, c: int, d: uint32, c2: int)
    requires i < |o| && |r| == i
    requires Val(r) + c * Pow(i) == Val(o[..i]) * b + d0
    requires c >= 0 && d == (c + o[i] * b) % BASE && c2 == (c + o[i] * b) / BASE
    ensures Val(r + [d]) + c2 * Pow(i + 1) == Val(o[..i + 1]) * b + d0
  {
    ValAppend(r, d);
    PrefixLast(o, i);
    CarryStep(Val(r), Val(o[..i]), o[i], c, c + o[i] * b, b, d0, Pow(i));
  }

  /** The arithmetic of one carry step, on plain integers. */
  lemma {:induction false} CarryStep(lo: int, olo: int, oj: int, c: int, t: int, b: int, d: int, p: int)
    requires lo + c * p == olo * b + d && t == c + oj * b
    ensures (lo + (t % BASE) * p) + (t / BASE) * (BASE * p) == (olo + p * oj) * b + d
  {
    assert t == (t / BASE) * BASE + t % BASE;
    assert (t % BASE) * p + (t / BASE) * (BASE * p) == t * p by {
      MulAssoc(t / BASE, BASE, p);
    }
    assert t * p == c * p + oj * b * p;
  }
}
