/**
 * The power-of-two string converter: in base 2^k every output digit is a run
 * of k bits of the number, cut out of one limb or, across a limb boundary,
 * out of the top of one limb and the bottom of the next.
 */
module Pow2StringConverter {
  import opened Limbs
  import opened BitOps
  import opened Radix
  import Bits
  import Parsers

  /** The bits the limbs occupy, counted from the top limb: (length - 1) 32 + Msb(top) + 1. */
  function BitCount(digits: seq<uint32>, length: nat): (n: nat)
    requires 1 <= length <= |digits|
    ensures 32 * (length - 1) <= n <= 32 * length
  {
    (length - 1) * 32 + Bits.Msb(digits[length - 1]) + 1
  }

  /** The limbs are worth less than 2^BitCount, and at least 2^(BitCount - 1) when the top limb is set. */
  lemma {:induction false} BitCountRange(digits: seq<uint32>, length: nat)
    requires 1 <= length <= |digits|
    ensures Val(digits[..length]) < Pow2(BitCount(digits, length))
    ensures digits[length - 1] != 0 ==> Pow2(BitCount(digits, length) - 1) <= Val(digits[..length])
  {
    var t := digits[..length];
    var n := length - 1;
    var top := digits[n];
    var m := Bits.Msb(top) + 1;
    assert Val(t) == Val(digits[..n]) + Pow(n) * top by {
      ValSplit(t, n);
      assert t[n..] == [top];
      ValSingle(top);
      assert t[..n] == digits[..n];
    }
    ValBound(digits[..n]);
    PowIsPow2(n);
    Pow2Add(32 * n, m);
    if top != 0 {
      Pow2Add(32 * n, m - 1);
      ScaledBounds(Val(digits[..n]), Pow(n), top, Pow2(m - 1), Pow2(m));
    } else {
      ScaledBounds(Val(digits[..n]), Pow(n), top, 0, Pow2(m));
    }
  }

  /** A value below P plus P top, with a <= top < b, lies in [P a, P b). */
  lemma {:induction false} ScaledBounds(lo: int, p: int, top: int, a: int, b: int)
    requires 0 <= lo < p && a <= top < b
    ensures p * a <= lo + p * top < p * b
  {
    MulLe(a, top, p);
    MulLe(top, b - 1, p);
  }

  /** ceil(BitCount / k): the base-2^k digits the limbs occupy. */
  function OutputLength(digits: seq<uint32>, length: nat, k: nat): (r: nat)
    requires 1 <= length <= |digits| && k >= 1
    ensures BitCount(digits, length) <= k * r
    ensures r == 0 || k * (r - 1) < BitCount(digits, length)
  {
    var n := BitCount(digits, length);
    var c := n / k + (if n % k != 0 then 1 else 0);
    CeilDiv(n, k, c);
    c
  }

  /** The rounded-up quotient c of n by k is the least c with n <= k c. */
  lemma {:induction false} CeilDiv(n: nat, k: nat, c: nat)
    requires k >= 1 && c == n / k + (if n % k != 0 then 1 else 0)
    ensures n <= k * c && (c == 0 || k * (c - 1) < n)
  {
    var q, m := n / k, n % k;
    assert n == k * q + m;
    assert k * (q + 1) == k * q + k;
  }

  /**
   * Converts the limbs digits[..length] to base 2^k, least significant digit
   * first: output digit i is bits k i .. k i + k - 1 of the number, and there
   * are exactly as many digits as the bits from the top limb's highest set
   * bit down need. The returned length is the real output length.
   */
  method Convert(digits: seq<uint32>, length: nat, numberBase: uint32) returns (outputArray: seq<uint32>, outputLength: nat)
    requires 1 <= length <= |digits| && numberBase >= 2 && numberBase == Pow2(Bits.Msb(numberBase))
    ensures outputLength == |outputArray| == OutputLength(digits, length, Bits.Msb(numberBase))
    ensures forall i :: 0 <= i < |outputArray| ==>
      outputArray[i] == Val(digits[..length]) / IntPow(numberBase, i) % numberBase
  {
    Parsers.BitsInChar(numberBase);
    var bitsInChar: nat := Bits.Msb(numberBase);
    var realOutputLength := OutputLength(digits, length, bitsInChar);
    var digitBitMask := numberBase - 1;
    ghost var v := Val(digits[..length]);
    var output := new uint32[realOutputLength](_ => 0);
    var outputIndex: nat, digitIndex: nat, initialShift: nat := 0, 0, 0;
    while outputIndex < realOutputLength
      invariant outputIndex <= realOutputLength
      invariant initialShift < 32 && 32 * digitIndex + initialShift == bitsInChar * outputIndex
      invariant forall i :: 0 <= i < outputIndex ==> output[i] == v / IntPow(numberBase, i) % numberBase
    {
      InsideLimbs(digits, length, bitsInChar, outputIndex, digitIndex, initialShift);
      var outputDigit, nextIndex, nextShift := NextDigit(digits, length, digitIndex, initialShift, bitsInChar);
      StoreDigit(output, outputIndex, outputDigit, digitBitMask, v, numberBase, bitsInChar);
      assert 32 * nextIndex + nextShift == bitsInChar * (outputIndex + 1) by {
        MulSucc(bitsInChar, outputIndex);
      }
      digitIndex, initialShift := nextIndex, nextShift;
      outputIndex := outputIndex + 1;
    }
    outputArray, outputLength := output[..], realOutputLength;
  }

  /** `outputArray[outputIndex] = outputDigit & digitBitMask`: the masked word is digit outputIndex of v. */
  method StoreDigit(output: array<uint32>, outputIndex: nat, outputDigit: uint32, digitBitMask: uint32,
                    ghost v: nat, numberBase: uint32, ghost k: nat)
    requires outputIndex < output.Length && numberBase == Pow2(k) && digitBitMask == numberBase - 1
    requires outputDigit % Pow2(k) == v / Pow2(k * outputIndex) % Pow2(k)
    requires forall i :: 0 <= i < outputIndex ==> output[i] == v / IntPow(numberBase, i) % numberBase
    modifies output
    ensures forall i :: 0 <= i <= outputIndex ==> output[i] == v / IntPow(numberBase, i) % numberBase
  {
    output[outputIndex] := And32(outputDigit, digitBitMask);
    assert output[outputIndex] == v / IntPow(numberBase, outputIndex) % numberBase by {
      AndMask(outputDigit, k);
      IntPowOfPow2(k, outputIndex);
    }
  }

  /** k (i + 1) == k i + k */
  lemma {:induction false} MulSucc(k: nat, i: nat)
    ensures k * (i + 1) == k * i + k
  {
  }

  /** A digit the output still needs starts inside the limbs. */
  lemma {:induction false} InsideLimbs(digits: seq<uint32>, length: nat, k: nat, outputIndex: nat, digitIndex: nat, initialShift: nat)
    requires 1 <= length <= |digits| && k >= 1 && outputIndex < OutputLength(digits, length, k)
    requires 32 * digitIndex + initialShift == k * outputIndex
    ensures digitIndex < length
  {
    var r := OutputLength(digits, length, k);
    var bc := BitCount(digits, length);
    assert k * (r - 1) < bc <= 32 * length;
    LimbOfBit(k, outputIndex, r, bc, length, digitIndex, initialShift);
  }

  /** Bit k o with o < r lies below k (r - 1) + k, hence below bc and in one of the first length limbs. */
  lemma {:induction false} LimbOfBit(k: nat, o: nat, r: nat, bc: nat, length: nat, digitIndex: nat, initialShift: nat)
    requires o < r && k * (r - 1) < bc <= 32 * length && 32 * digitIndex + initialShift == k * o
    ensures digitIndex < length
  {
    MulLe(o, r - 1, k);
  }

  /**
   * One output digit: its low k bits are the k bits of the number from bit
   * 32 digitIndex + initialShift up; the next digit starts k bits higher.
   */
  method NextDigit(digits: seq<uint32>, length: nat, digitIndex: nat, initialShift: nat, k: nat)
    returns (outputDigit: uint32, nextIndex: nat, nextShift: nat)
    requires digitIndex < length <= |digits| && initialShift < 32 && 1 <= k < 32
    ensures outputDigit % Pow2(k) == Val(digits[..length]) / Pow2(32 * digitIndex + initialShift) % Pow2(k)
    ensures nextShift < 32 && 32 * nextIndex + nextShift == 32 * digitIndex + initialShift + k
  {
    ghost var t := digits[..length];
    assert digits[digitIndex] == t[digitIndex];
    var nextDigitShift := 32 - k;
    outputDigit := Shr32(digits[digitIndex], initialShift);
    nextIndex := digitIndex;
    if initialShift >= nextDigitShift {
      nextIndex := digitIndex + 1;
      if initialShift != nextDigitShift && nextIndex < length {
        assert digits[nextIndex] == t[nextIndex];
        TwoLimbs(t, digitIndex, initialShift, k);
        outputDigit := Or32(outputDigit, Shl32(digits[nextIndex], 32 - initialShift));
      } else if initialShift == nextDigitShift {
        OneLimb(t, digitIndex, initialShift, k);
      } else {
        TopLimb(t, digitIndex, initialShift, k);
      }
      assert (initialShift + k) % 32 == initialShift + k - 32 by {
        DivModUnique(initialShift + k, 32, 1, initialShift + k - 32);
      }
      nextShift := (initialShift + k) % 32;
    } else {
      OneLimb(t, digitIndex, initialShift, k);
      nextShift := initialShift + k;
    }
  }

  /** The number from bit 32 i + s up: the top 32 - s bits of limb i, then the limbs above it. */
  lemma {:induction false} Above(t: seq<uint32>, i: nat, s: nat)
    requires i < |t| && s < 32
    ensures Val(t) / Pow2(32 * i + s) == Shr32(t[i], s) + Pow2(32 - s) * Val(t[i + 1..])
  {
    LimbShift(t, i, s);
    ValHead(t[i..]);
    assert t[i..][1..] == t[i + 1..];
    SplitShift(t[i], Val(t[i + 1..]), s);
  }

  /** A digit that ends inside limb i is the limb shifted right. */
  lemma {:induction false} OneLimb(t: seq<uint32>, i: nat, s: nat, k: nat)
    requires i < |t| && s + k <= 32 && k >= 1
    ensures Shr32(t[i], s) % Pow2(k) == Val(t) / Pow2(32 * i + s) % Pow2(k)
  {
    Above(t, i, s);
    ChunkLow(Shr32(t[i], s), Val(t[i + 1..]), 32 - s, k);
  }

  /** A digit in the top limb has nothing above it. */
  lemma {:induction false} TopLimb(t: seq<uint32>, i: nat, s: nat, k: nat)
    requires i + 1 == |t| && s < 32
    ensures Shr32(t[i], s) % Pow2(k) == Val(t) / Pow2(32 * i + s) % Pow2(k)
  {
    Above(t, i, s);
    assert t[i + 1..] == [];
  }

  /** A digit across the boundary of limbs i and i + 1. */
  lemma {:induction false} TwoLimbs(t: seq<uint32>, i: nat, s: nat, k: nat)
    requires i + 1 < |t| && 32 - k < s < 32 && k <= 32
    ensures Or32(Shr32(t[i], s), Shl32(t[i + 1], 32 - s)) % Pow2(k) == Val(t) / Pow2(32 * i + s) % Pow2(k)
  {
    Above(t, i, s);
    ValHead(t[i + 1..]);
    assert t[i + 1..][1..] == t[i + 2..];
    CrossLimb(t[i], Shr32(t[i], s), t[i + 1], Val(t[i + 2..]), s, k);
  }

  /** The bits from 32 i + s up are the bits of limbs i.. from s up. */
  lemma {:induction false} LimbShift(t: seq<uint32>, i: nat, s: nat)
    requires i < |t|
    ensures Val(t) / Pow2(32 * i + s) == Val(t[i..]) / Pow2(s)
  {
    var x, hi, lo, p, ps := Val(t), Val(t[i..]), Val(t[..i]), Pow(i), Pow2(s);
    assert x == hi * p + lo && lo < p by {
      ValSplit(t, i);
      ValBound(t[..i]);
    }
    assert Pow2(32 * i + s) == p * ps by {
      PowIsPow2(i);
      Pow2Add(32 * i, s);
    }
    DropLow(x, hi, lo, p, ps, Pow2(32 * i + s));
  }

  /** Shifting a limb and the limbs above it right by s < 32 bits. */
  lemma {:induction false} SplitShift(d0: uint32, rest: nat, s: nat)
    requires s < 32
    ensures (d0 + BASE * rest) / Pow2(s) == d0 / Pow2(s) + Pow2(32 - s) * rest
  {
    WordHalves(s);
    DivSplit(d0, rest, Pow2(s), Pow2(32 - s), BASE);
  }

  /** 2^s 2^(32 - s) == BASE */
  lemma {:induction false} WordHalves(s: nat)
    requires s <= 32
    ensures Pow2(s) * Pow2(32 - s) == BASE
  {
    Pow2Add(s, 32 - s);
    Pow2Small();
  }

  /** (d + B r) / p == d / p + q r when B == p q. */
  lemma {:induction false} DivSplit(d: int, r: int, p: int, q: int, b: int)
    requires p > 0 && d >= 0 && b == p * q
    ensures (d + b * r) / p == d / p + q * r
  {
    assert b * r == (q * r) * p by {
      MulAssoc(p, q, r);
    }
    DivModUnique(d + b * r, p, d / p + q * r, d % p);
  }

  /** Bits from position e >= k up do not reach the low k bits. */
  lemma {:induction false} ChunkLow(x: nat, t: int, e: nat, k: nat)
    requires k <= e
    ensures (x + Pow2(e) * t) % Pow2(k) == x % Pow2(k)
  {
    Pow2Add(k, e - k);
    MulAssoc(Pow2(k), Pow2(e - k), t);
    ModAddMultiple(x, Pow2(k), Pow2(e - k) * t);
  }

  /**
   * A digit across a limb boundary: the top 32 - s bits of one limb ORed with
   * the next limb shifted left by 32 - s agree in the low k bits with the
   * number from that bit up.
   */
  lemma {:induction false} CrossLimb(d0: uint32, x: uint32, d1: uint32, rest2: nat, s: nat, k: nat)
    requires 32 - k < s < 32 && k <= 32 && x == d0 / Pow2(s)
    ensures Or32(x, Shl32(d1, 32 - s)) % Pow2(k) == (x + Pow2(32 - s) * (d1 + BASE * rest2)) % Pow2(k)
  {
    var p, q := Pow2(s), Pow2(32 - s);
    WordHalves(s);
    assert x < q by {
      DivBelow(d0, p, q);
    }
    var lo := d1 % p;
    assert Shl32(d1, 32 - s) == q * lo by {
      MulModSplit(d1, p, q, BASE);
    }
    var y := Or32(x, Shl32(d1, 32 - s));
    assert y == x + q * lo by {
      OrDisjoint(x, lo, 32 - s);
    }
    assert x + q * (d1 + BASE * rest2) == y + BASE * (d1 / p + q * rest2) by {
      Regather(x, d1, rest2, p, q, BASE);
    }
    Pow2Small();
    ChunkLow(y, d1 / p + q * rest2, 32, k);
  }

  /** d < p q means d / p < q. */
  lemma {:induction false} DivBelow(d: int, p: int, q: int)
    requires d >= 0 && p > 0 && d < p * q
    ensures d / p < q
  {
    if d / p >= q {
      MulLe(q, d / p, p);
    }
  }

  /** (d q) mod B == q (d mod p) when B == p q: a left shift keeps the low bits, moved up. */
  lemma {:induction false} MulModSplit(d: int, p: int, q: int, b: int)
    requires p > 0 && q > 0 && b == p * q && d >= 0
    ensures (d * q) % b == q * (d % p)
  {
    var a, r := d / p, d % p;
    assert d * q == a * b + r * q by {
      assert d == a * p + r;
      MulAssoc(a, p, q);
    }
    MulLe(r, p - 1, q);
    DivModUnique(d * q, b, a, r * q);
  }

  /** x + q (d + B r) regrouped around the low bits d mod p, with p q == B. */
  lemma {:induction false} Regather(x: int, d: int, r: int, p: int, q: int, b: int)
    requires p > 0 && p * q == b
    ensures x + q * (d + b * r) == x + q * (d % p) + b * (d / p + q * r)
  {
    assert d == (d / p) * p + d % p;
    assert q * ((d / p) * p) == b * (d / p) by {
      MulAssoc(q, d / p, p);
    }
  }

  /** A value of exactly bc bits, with k n >= bc > k (n - 1), has exactly n digits of k bits. */
  lemma {:induction false} DigitCountBounds(v: nat, bc: nat, k: nat, n: nat)
    requires bc >= 1 && Pow2(bc - 1) <= v < Pow2(bc)
    requires bc <= k * n && (n == 0 || k * (n - 1) < bc)
    ensures v < Pow2(k * n)
    ensures n == 0 || Pow2(k * (n - 1)) <= v
  {
    Pow2Monotone(bc, k * n);
    if n > 0 {
      Pow2Monotone(k * (n - 1), bc - 1);
    }
  }

  /** With the top limb set, the converted digits are the canonical digits of the number. */
  lemma {:induction false} Canonical(digits: seq<uint32>, length: nat, numberBase: uint32, outputArray: seq<uint32>)
    requires 1 <= length <= |digits| && numberBase >= 2 && numberBase == Pow2(Bits.Msb(numberBase))
    requires digits[length - 1] != 0
    requires |outputArray| == OutputLength(digits, length, Bits.Msb(numberBase))
    requires forall i :: 0 <= i < |outputArray| ==>
      outputArray[i] == Val(digits[..length]) / IntPow(numberBase, i) % numberBase
    ensures outputArray == ToDigits(Val(digits[..length]), numberBase) && |outputArray| >= 1
  {
    var k := Bits.Msb(numberBase);
    var n := |outputArray|;
    var v := Val(digits[..length]);
    var bc := BitCount(digits, length);
    Parsers.BitsInChar(numberBase);
    BitCountRange(digits, length);
    DigitCountBounds(v, bc, k, n);
    IntPowOfPow2(k, n);
    if n > 0 {
      IntPowOfPow2(k, n - 1);
    }
    CanonicalDigits(outputArray, v, numberBase);
  }
}
