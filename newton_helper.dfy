/**
 * The reciprocal of a divisor by Newton's iteration in fixed point (Knuth,
 * The Art of Computer Programming vol. 2, section 4.3.3, Algorithm R).
 *
 * The divisor d is first shifted so that its top limb has its most
 * significant bit at bit 2: read as a fixed-point number v with
 * 32 * (len - 1) + 3 bits after the point it lies in [1/2, 1). The estimate
 * z of 1/v starts as floor(32 / top limb) with 2 bits after the point, and
 * round k computes z' = 2z - v' z^2 (truncated), where v' is v cut to the
 * precision of that round, doubling the bits after the point minus one.
 *
 * The model follows the values of the buffers (the limb kernels they go
 * through are modelled and proved in DigitOpHelper and ClassicMultiplier);
 * the shift of the divisor is done on the limb buffer itself. What is proved
 * is that the subtraction of every round never underflows, that the
 * estimate stays positive and fits the result buffer, and the exact shift
 * the caller must apply.
 */
module NewtonHelper {
  import opened Limbs
  import Bits
  import BitOps
  import OpHelper
  import DigitOpHelper
  import ClassicDivider
  import Radix

  // ---------------------------------------------------------------------------
  // Fixed-point bookkeeping

  /** Bits after the point of the estimate at the start of round k: 2^k + 1. */
  function EstimateBits(k: nat): nat
  {
    Pow2(k) + 1
  }

  /** Limbs of the divisor a round k >= 4 reads: 2^(k-4) + 1 of its top ones, at most all of them. */
  function ChunkLimbs(k: nat, len: nat): (n: nat)
    requires k >= 4 && len >= 1
    ensures 1 <= n <= len
  {
    Min(Pow2(k - 4) + 1, len)
  }

  /** Bits after the point of the part of the divisor round k reads. */
  function ChunkBits(k: nat, len: nat): nat
    requires len >= 1
  {
    if k < 4 then Pow2(k + 1) + 3 else (ChunkLimbs(k, len) - 1) * 32 + 3
  }

  /** Bits after the point of the whole shifted divisor. */
  function DivisorBits(len: nat): nat
    requires len >= 1
  {
    32 * len - 29
  }

  /** The shifted divisor dv cut to the precision of round k. */
  ghost function Chunk(dv: nat, len: nat, k: nat): nat
    requires len >= 2
  {
    ChunkBitsRange(k, len);
    ShiftRight(dv, DivisorBits(len) - ChunkBits(k, len))
  }

  /** x shifted right by n bits, one bit at a time. */
  function ShiftRight(x: nat, n: nat): nat
  {
    if n == 0 then x else ShiftRight(x / 2, n - 1)
  }

  /** Shifting right by n bits is dividing by 2^n. */
  lemma {:induction false} ShiftRightIsDiv(x: nat, n: nat)
    ensures ShiftRight(x, n) == x / Pow2(n)
  {
    if n > 0 {
      ShiftRightIsDiv(x / 2, n - 1);
      Radix.DivDiv(x, 2, Pow2(n - 1));
    }
  }

  /** The number of limbs a value needs. */
  function LimbCount(x: nat): (n: nat)
    ensures x < Pow(n) && (n == 0 || Pow(n - 1) <= x)
    ensures x == 0 <==> n == 0
  {
    if x == 0 then 0
    else
      var n := 1 + LimbCount(x / BASE);
      assert x / BASE < Pow(n - 1) && (n == 1 || Pow(n - 2) <= x / BASE);
      LimbCountStep(x, n);
      n
  }

  lemma {:induction false} LimbCountStep(x: nat, n: nat)
    requires x > 0 && n >= 1 && x / BASE < Pow(n - 1) && (n == 1 || Pow(n - 2) <= x / BASE)
    ensures x < Pow(n) && Pow(n - 1) <= x
  {
    assert Pow(n) == BASE * Pow(n - 1);
    if n >= 2 {
      assert Pow(n - 1) == BASE * Pow(n - 2);
    }
  }

  /** Every value below BASE^n needs at most n limbs. */
  lemma LimbCountAtMost(x: nat, n: nat)
    requires x < Pow(n)
    ensures LimbCount(x) <= n
  {
  }

  /** The chunk precisions only grow, and never exceed the divisor's. */
  lemma {:induction false} ChunkBitsRange(k: nat, len: nat)
    requires len >= 2
    ensures 5 <= ChunkBits(k, len) <= DivisorBits(len)
    ensures ChunkBits(k, len) <= ChunkBits(k + 1, len)
  {
    Pow2Small();
    if k < 4 {
      Pow2Monotone(k + 1, 4);
      Pow2Monotone(k + 1, k + 2);
      if k == 3 {
        assert ChunkLimbs(4, len) == 2;
      }
    } else {
      Pow2Monotone(k - 4, k - 3);
    }
  }

  // ---------------------------------------------------------------------------
  // One round, on plain integers

  /**
   * One Newton round in fixed point, with the powers of two named:
   * pb == 2^b for the b bits after the point of the estimate r, h == 2^(c-1)
   * for the c bits after the point of the chunk t, and pd == 2^(c' - c) for
   * the extra bits of the next chunk t2. When r * t < 2^(b+c+1) (z * v' < 2),
   * the truncated square term r^2 t / 2^(c+1) is below r * 2^b, so the new
   * estimate r * 2^b - r^2 t / 2^(c+1) is positive, at most 2^(2b), and keeps
   * the same bound with the next chunk and 2b - 1 bits after the point.
   */
  lemma {:induction false} NewtonStep(r: int, t: int, t2: int, pb: int, h: int, pd: int)
    requires r > 0 && pb >= 4 && h >= 16 && pd >= 1
    requires h <= t && t2 / pd == t && t2 < 2 * h * pd
    requires r * t < 4 * pb * h
    ensures (r * r * t) / (4 * h) < r * pb
    ensures r * pb - (r * r * t) / (4 * h) <= pb * pb
    ensures (r * pb - (r * r * t) / (4 * h)) * t2 < pb * pb * (2 * h * pd)
  {
    var x := r * r * t;
    var f := x / (4 * h);
    FloorBounds(x, 4 * h, f);
    var p := r * t;
    assert x == r * p;
    SquareBelow(r, p, f, pb, h);
    var r2 := r * pb - f;
    TruncatedBound(r, t, p, f, pb, h, r2);
    var s := r2 * t;
    assert t < 2 * h by { ChunkBelow(t, t2, pd, h); }
    NextChunk(r2, t, t2, pd, s, pb * pb, h);
  }

  lemma {:induction false} FloorBounds(x: int, m: int, f: int)
    requires m > 0 && f == x / m
    ensures f * m <= x < f * m + m
  {
  }

  /** The truncated square term is below r * 2^b. */
  lemma {:induction false} SquareBelow(r: int, p: int, f: int, pb: int, h: int)
    requires r > 0 && h > 0 && p < 4 * pb * h && f * (4 * h) <= r * p
    ensures f < r * pb
  {
    assert r * p < r * (4 * pb * h) by { MulStrict(r, p, 4 * pb * h); }
    assert r * (4 * pb * h) == (r * pb) * (4 * h);
    if f >= r * pb {
      MulLe(r * pb, f, 4 * h);
    }
  }

  lemma {:induction false} MulStrict(r: int, a: int, b: int)
    requires r > 0 && a < b
    ensures r * a < r * b
  {
  }

  /**
   * (2z - v'z^2) v' is at most 1 plus the truncation: with p == r * t,
   * r2 * t < pb^2 h + t, hence r2 <= pb^2.
   */
  lemma {:induction false} TruncatedBound(r: int, t: int, p: int, f: int, pb: int, h: int, r2: int)
    requires r > 0 && h > 0 && t >= h && p == r * t && r2 == r * pb - f
    requires r * p < f * (4 * h) + 4 * h
    ensures r2 * t < pb * pb * h + t
    ensures r2 <= pb * pb
  {
    var a := f * (4 * h);
    var s := pb * (2 * h);
    var u := r2 * t;
    TruncatedExpand(r, t, p, f, pb, h, r2, a, s, u);
    TruncatedProduct(r, t, p, a, h);
    SquareGap(s, p);
    assert u * (4 * h) < s * s + 4 * h * t;
    var q := pb * pb;
    SquareRegroup(s, pb, h, t, q);
    MulCancelLt(u, q * h + t, 4 * h);
    BoundFromProduct(r2, t, q, h);
  }

  lemma {:induction false} SquareRegroup(s: int, pb: int, h: int, t: int, q: int)
    requires s == pb * (2 * h) && q == pb * pb
    ensures s * s + 4 * h * t == (q * h + t) * (4 * h)
  {
  }

  lemma {:induction false} MulCancelLt(u: int, x: int, m: int)
    requires m > 0 && u * m < x * m
    ensures u < x
  {
    if u >= x {
      MulLe(x, u, m);
    }
  }

  /** r2 t < q h + t with t >= h forces r2 <= q. */
  lemma {:induction false} BoundFromProduct(r2: int, t: int, q: int, h: int)
    requires t >= h > 0 && q >= 0 && r2 * t < q * h + t
    ensures r2 <= q
  {
    if r2 > q {
      MulLe(q + 1, r2, t);
      MulLe(h, t, q);
    }
  }

  lemma {:induction false} TruncatedExpand(r: int, t: int, p: int, f: int, pb: int, h: int, r2: int, a: int, s: int, u: int)
    requires p == r * t && r2 == r * pb - f && a == f * (4 * h) && s == pb * (2 * h) && u == r2 * t
    ensures u * (4 * h) == 2 * s * p - a * t
  {
    assert u * (4 * h) == (r * pb) * t * (4 * h) - f * t * (4 * h);
    assert (r * pb) * t * (4 * h) == (r * t) * (pb * (4 * h));
  }

  lemma {:induction false} TruncatedProduct(r: int, t: int, p: int, a: int, h: int)
    requires t > 0 && p == r * t && r * p < a + 4 * h
    ensures a * t > p * p - 4 * h * t
  {
    MulStrict(t, r * p - 4 * h, a);
    assert (r * p - 4 * h) * t == (r * t) * p - 4 * h * t;
  }

  lemma {:induction false} SquareGap(s: int, p: int)
    ensures 2 * s * p - p * p <= s * s
  {
    assert s * s - 2 * s * p + p * p == (s - p) * (s - p);
  }

  lemma {:induction false} ChunkBelow(t: int, t2: int, pd: int, h: int)
    requires pd >= 1 && t2 >= 0 && t2 / pd == t && t2 < 2 * h * pd
    ensures t < 2 * h
  {
    if t >= 2 * h {
      MulLe(2 * h, t, pd);
      FloorBounds(t2, pd, t);
    }
  }

  /** The bound carried to the next chunk t2 < (t + 1) * pd. */
  lemma {:induction false} NextChunk(r2: int, t: int, t2: int, pd: int, s: int, q: int, h: int)
    requires r2 > 0 && pd >= 1 && t2 >= 0 && t2 / pd == t && s == r2 * t
    requires q >= 16 && h >= 16 && t < 2 * h
    requires s < q * h + t && r2 <= q
    ensures r2 * t2 < q * (2 * h * pd)
  {
    FloorBounds(t2, pd, t);
    var m := (s + r2) * pd;
    assert r2 * t2 <= m by { NextChunkProduct(r2, t, t2, pd, s); }
    var g := 2 * q * h;
    assert s + r2 < g by { NextChunkSum(s, r2, t, q, h); }
    MulLtR(s + r2, g, pd);
    Regroup(q, h, pd);
  }

  lemma {:induction false} Regroup(q: int, h: int, pd: int)
    ensures (2 * q * h) * pd == q * (2 * h * pd)
  {
  }

  lemma {:induction false} MulLtR(a: int, b: int, c: int)
    requires a < b && c > 0
    ensures a * c < b * c
  {
  }

  lemma {:induction false} NextChunkProduct(r2: int, t: int, t2: int, pd: int, s: int)
    requires r2 > 0 && s == r2 * t && t2 < t * pd + pd
    ensures r2 * t2 <= (s + r2) * pd
  {
    MulLe(t2, t * pd + pd, r2);
    assert (t * pd + pd) * r2 == (s + r2) * pd;
  }

  lemma {:induction false} NextChunkSum(s: int, r2: int, t: int, q: int, h: int)
    requires q >= 16 && h >= 16 && t < 2 * h && s < q * h + t && r2 <= q
    ensures s + r2 < 2 * q * h
  {
    MulLe(14, q - 2, h - 1);
    assert (q - 2) * (h - 1) == q * h - q - 2 * h + 2;
  }

  // ---------------------------------------------------------------------------
  // The shifted divisor and its chunks

  /**
   * The estimate the source holds after k rounds on the shifted divisor dv of
   * len limbs: 32 over its top limb, then k Newton rounds.
   */
  ghost function Estimate(dv: nat, len: nat, k: nat): int
    requires ShiftedDivisor(dv, len)
  {
    if k == 0 then
      TopOfShifted(dv, len);
      32 / (dv / Pow(len - 1))
    else
      NextEstimate(Estimate(dv, len, k - 1), Chunk(dv, len, k - 1), EstimateBits(k - 1), ChunkBits(k - 1, len))
  }

  /** The round invariant: the estimate of round k against the chunk of round k. */
  ghost predicate Inv(dv: nat, len: nat, k: nat, r: int)
  {
    len >= 2 && Bound(r, Chunk(dv, len, k), EstimateBits(k), ChunkBits(k, len))
  }

  /** An estimate r with b bits after the point against a chunk t with c: 0 < z <= 2 and z * v' < 2. */
  ghost predicate Bound(r: int, t: int, b: nat, c: nat)
  {
    0 < r <= Pow2(b + 1) && r * t < Pow2(b + c + 1)
  }

  /** The estimate after one round, 2z - z^2 v' truncated, with 2b - 1 bits after the point. */
  function NextEstimate(r: int, t: int, b: nat, c: nat): int
  {
    r * Pow2(b) - (r * r * t) / Pow2(c + 1)
  }

  /** What one round needs of its two chunks t (c bits) and t2 (c2 bits) and of the estimate's bits b and e. */
  ghost predicate ChunkPairFacts(t: int, t2: int, b: nat, c: nat, c2: nat, e: nat)
  {
    b >= 2 && e == 2 * b - 1 && 5 <= c <= c2 &&
    Pow2(c - 1) <= t && 0 <= t2 < Pow2(c2) && t2 / Pow2(c2 - c) == t
  }

  /** A divisor of len limbs whose top limb has its msb at bit 2. */
  ghost predicate ShiftedDivisor(dv: nat, len: nat)
  {
    len >= 2 && Pow2(DivisorBits(len) - 1) <= dv < Pow2(DivisorBits(len))
  }

  /** Bounds on x carry over to bounds on its quotient by m. */
  lemma {:induction false} QuotRange(x: int, m: int, lo: int, hi: int)
    requires m > 0 && lo * m <= x < hi * m
    ensures lo <= x / m < hi
  {
    var q := x / m;
    FloorBounds(x, m, q);
    if q < lo {
      MulLe(q + 1, lo, m);
    }
    if q >= hi {
      MulLe(hi, q, m);
    }
  }

  /** lo + p * top lies between p * a and p * b when top does between a and b. */
  lemma {:induction false} ScaledRange(x: int, lo: int, p: int, top: int, a: int, b: int)
    requires 0 <= lo < p && a <= top < b && x == lo + p * top
    ensures p * a <= x < p * b
  {
    MulLe(a, top, p);
    MulLe(top + 1, b, p);
  }

  /** The chunk of round k has exactly c bits: its top bit is set. */
  lemma {:induction false} ChunkRange(dv: nat, len: nat, k: nat)
    requires ShiftedDivisor(dv, len)
    ensures Pow2(ChunkBits(k, len) - 1) <= Chunk(dv, len, k) < Pow2(ChunkBits(k, len))
  {
    ChunkBitsRange(k, len);
    var w := DivisorBits(len);
    var c := ChunkBits(k, len);
    var q := Pow2(w - c);
    assert Chunk(dv, len, k) == dv / q by { ShiftRightIsDiv(dv, w - c); }
    assert Pow2(c - 1) <= dv / q < Pow2(c) by {
      assert Pow2(c - 1) * q <= dv < Pow2(c) * q by {
        Pow2Sum(c - 1, w - c, w - 1);
        Pow2Sum(c, w - c, w);
      }
      QuotRange(dv, q, Pow2(c - 1), Pow2(c));
    }
  }

  /** The chunk of round k + 1 cut to the precision of round k is the chunk of round k. */
  lemma {:induction false} ChunkRefines(dv: nat, len: nat, k: nat)
    requires ShiftedDivisor(dv, len)
    ensures ChunkBits(k, len) <= ChunkBits(k + 1, len)
    ensures Chunk(dv, len, k + 1) / Pow2(ChunkBits(k + 1, len) - ChunkBits(k, len)) == Chunk(dv, len, k)
  {
    ChunkBitsRange(k, len);
    ChunkBitsRange(k + 1, len);
    var w := DivisorBits(len);
    var c, c2 := ChunkBits(k, len), ChunkBits(k + 1, len);
    ShiftRightIsDiv(dv, w - c);
    ShiftRightIsDiv(dv, w - c2);
    Pow2Sum(w - c2, c2 - c, w - c);
    Radix.DivDiv(dv, Pow2(w - c2), Pow2(c2 - c));
  }

  /** A trimmed run whose value is a shifted divisor of e limbs has e limbs, and a top limb in [4, 8). */
  lemma {:induction false} ShiftedShape(v: seq<uint32>, e: nat)
    requires Trimmed(v) && ShiftedDivisor(Val(v), e)
    ensures |v| == e && 4 <= v[|v| - 1] < 8
  {
    ShapeLength(v, e);
    ShapeTop(v);
  }

  /** A trimmed run holding a shifted divisor of e limbs has e limbs. */
  lemma {:induction false} ShapeLength(v: seq<uint32>, e: nat)
    requires Trimmed(v) && ShiftedDivisor(Val(v), e)
    ensures |v| == e
  {
    var n := |v|;
    var x := Val(v);
    assert DivisorBits(e) - 1 == 32 * e - 30;
    assert n >= 1 && Pow2(32 * (n - 1)) <= x < Pow2(32 * n) by {
      ValTrimmedRange(v);
      PowIsPow2(n);
      PowIsPow2(n - 1);
    }
    LengthFromRange(x, n, e);
  }

  /** A shifted divisor of |v| limbs has its top limb in [4, 8). */
  lemma {:induction false} ShapeTop(v: seq<uint32>)
    requires ShiftedDivisor(Val(v), |v|)
    ensures 4 <= v[|v| - 1] < 8
  {
    var n := |v|;
    var x := Val(v);
    var p := Pow2(32 * (n - 1));
    assert p * 4 <= x < p * 8 by {
      assert DivisorBits(n) - 1 == 32 * (n - 1) + 2;
      Pow2Small();
      Pow2Sum(1, 2, 3);
      Pow2Sum(32 * (n - 1), 2, 32 * (n - 1) + 2);
      Pow2Sum(32 * (n - 1), 3, 32 * (n - 1) + 3);
    }
    LastLimbSplit(v);
    TopFromRange(x, Val(v[..n - 1]), p, v[n - 1], 4, 8);
  }

  /** The value of a run split at its top limb, with the weight of that limb a power of two. */
  lemma {:induction false} LastLimbSplit(s: seq<uint32>)
    requires |s| >= 1
    ensures Val(s) == Val(s[..|s| - 1]) + Pow(|s| - 1) * s[|s| - 1]
    ensures Val(s[..|s| - 1]) < Pow(|s| - 1) == Pow2(32 * (|s| - 1))
  {
    ValLast(s);
    ValBound(s[..|s| - 1]);
    PowIsPow2(|s| - 1);
  }

  /** The top limb of a shifted divisor, read off its value, lies in [4, 8). */
  lemma {:induction false} TopOfShifted(dv: nat, len: nat)
    requires ShiftedDivisor(dv, len)
    ensures 4 <= dv / Pow(len - 1) < 8
  {
    var p := Pow2(32 * (len - 1));
    assert p * 4 <= dv < p * 8 by {
      assert DivisorBits(len) - 1 == 32 * (len - 1) + 2;
      Pow2Small();
      Pow2Sum(1, 2, 3);
      Pow2Sum(32 * (len - 1), 2, 32 * (len - 1) + 2);
      Pow2Sum(32 * (len - 1), 3, 32 * (len - 1) + 3);
    }
    PowIsPow2(len - 1);
    QuotRange(dv, p, 4, 8);
  }

  /** The top limb of a run is its value divided by the weight of that limb. */
  lemma {:induction false} TopLimbOfVal(v: seq<uint32>)
    requires |v| >= 1
    ensures Val(v) / Pow(|v| - 1) == v[|v| - 1]
  {
    TopRun(v, |v| - 1);
    assert v[|v| - 1..] == [v[|v| - 1]];
    ValSingle(v[|v| - 1]);
  }

  /** A value in [2^(32n - 32), 2^(32n)) and in [2^(32e - 30), 2^(32e - 29)) forces n == e. */
  lemma {:induction false} LengthFromRange(x: nat, n: nat, e: nat)
    requires n >= 1 && e >= 1
    requires Pow2(32 * (n - 1)) <= x < Pow2(32 * n)
    requires Pow2(32 * e - 30) <= x < Pow2(32 * e - 29)
    ensures n == e
  {
    if n < e {
      Pow2Monotone(32 * n, 32 * e - 30);
    }
    if n > e {
      Pow2Monotone(32 * e - 29, 32 * (n - 1));
    }
  }

  /** lo + p * top between a * p and b * p, with lo below p, puts top between a and b. */
  lemma {:induction false} TopFromRange(x: int, lo: int, p: int, top: int, a: int, b: int)
    requires 0 <= lo < p && x == lo + p * top && p * a <= x < p * b
    ensures a <= top < b
  {
    QuotOfScaled(x, lo, p, top);
    QuotRange(x, p, a, b);
  }

  /** The divisor's value lies between 2^(bits - 1) and 2^bits, bits == 32 (n - 1) + msb + 1. */
  lemma {:induction false} DivisorRange(digits: seq<uint32>)
    requires Trimmed(digits) && |digits| >= 1
    ensures var e := 32 * (|digits| - 1) + Bits.Msb(digits[|digits| - 1]);
      Pow2(e) <= Val(digits) < Pow2(e + 1) && Bits.BitLength(Val(digits)) == e + 1
  {
    var n := |digits|;
    var top := digits[n - 1];
    var msb := Bits.Msb(top);
    var m := 32 * (n - 1);
    var e := m + msb;
    var f := e + 1;
    var x, lo := Val(digits), Val(digits[..n - 1]);
    assert x == lo + Pow2(m) * top && lo < Pow2(m) by { LastLimbSplit(digits); }
    RangeFromTop(x, lo, m, top, msb, e, f);
    Bits.BitLengthUnique(x, f);
  }

  /** lo + 2^m top with lo below 2^m and top in [2^msb, 2^(msb+1)) lies in [2^e, 2^f) for e == m + msb, f == e + 1. */
  lemma {:induction false} RangeFromTop(x: int, lo: int, m: nat, top: int, msb: nat, e: nat, f: nat)
    requires 0 <= lo < Pow2(m) && x == lo + Pow2(m) * top && Pow2(msb) <= top < Pow2(msb + 1)
    requires e == m + msb && f == e + 1
    ensures Pow2(e) <= x < Pow2(f) && Pow2(f - 1) <= x
  {
    ScaledRange(x, lo, Pow2(m), top, Pow2(msb), Pow2(msb + 1));
    Pow2Sum(m, msb, e);
    Pow2Sum(m, msb + 1, f);
  }

  /** The top two limbs over 2^(32 - s): the value of the chunk of a round k < 4. */
  lemma {:induction false} ChunkTopTwo(v: seq<uint32>, k: nat, s: nat)
    requires |v| >= 2 && k < 4 && s == Pow2(k + 1) && s <= 16
    ensures Chunk(Val(v), |v|, k) == (v[|v| - 1] * BASE + v[|v| - 2]) / Pow2(32 - s)
  {
    var n := |v|;
    var e := 32 * (n - 2) + (32 - s);
    var x, hi, lo, p, ps := Val(v), v[n - 1] * BASE + v[n - 2], Val(v[..n - 2]), Pow(n - 2), Pow2(32 - s);
    assert Chunk(x, n, k) == x / Pow2(e) by {
      ChunkBitsRange(k, n);
      assert DivisorBits(n) - ChunkBits(k, n) == e;
      ShiftRightIsDiv(x, e);
    }
    assert x / Pow2(e) == hi / ps by {
      assert x == hi * p + lo && lo < p by {
        ClassicDivider.TopTwo(v);
      }
      assert Pow2(e) == p * ps by {
        PowIsPow2(n - 2);
        Pow2Sum(32 * (n - 2), 32 - s, e);
      }
      Radix.DropLow(x, hi, lo, p, ps, Pow2(e));
    }
  }

  /** (n1 * 2^32 + n2) >> (32 - s) == n1 << s | n2 >> (32 - s) for n1 < 8 and s <= 16. */
  lemma {:induction false} TopTwoShift(n1: uint32, n2: uint32, s: nat)
    requires n1 < 8 && 2 <= s <= 16
    ensures (n1 * BASE + n2) / Pow2(32 - s) == BitOps.Or32(Shl32(n1, s), Shr32(n2, 32 - s))
    ensures (n1 * BASE + n2) / Pow2(32 - s) == n1 * Pow2(s) + n2 / Pow2(32 - s)
  {
    var ps, pt := Pow2(32 - s), Pow2(s);
    Pow2Small();
    Pow2Sum(32 - s, s, 32);
    var q := Shr32(n2, 32 - s);
    SplitQuotient(n1, n2, ps, pt, q);
    var hi := Shl32(n1, s);
    assert hi == n1 * pt by {
      Pow2Monotone(s, 16);
      MulLe(n1, 7, pt);
      ModSmall(n1 * pt, BASE);
    }
    QuotRange(n2, ps, 0, pt);
    BitOps.OrDisjoint(q, n1, s);
    BitOps.BitwiseSymmetric(BitOps.OrOp, q, pt * n1);
  }

  lemma {:induction false} SplitQuotient(n1: int, n2: int, ps: int, pt: int, q: int)
    requires ps > 0 && n2 >= 0 && q == n2 / ps
    ensures (n1 * (ps * pt) + n2) / ps == n1 * pt + q
  {
    FloorBounds(n2, ps, q);
    assert n1 * (ps * pt) + n2 == (n1 * pt + q) * ps + (n2 - q * ps);
    DivModUnique(n1 * (ps * pt) + n2, ps, n1 * pt + q, n2 - q * ps);
  }

  /** The value of a run above its first m limbs. */
  lemma {:induction false} TopRun(v: seq<uint32>, m: nat)
    requires m <= |v|
    ensures Val(v) / Pow(m) == Val(v[m..])
  {
    ValSplit(v, m);
    ValBound(v[..m]);
    QuotOfScaled(Val(v), Val(v[..m]), Pow(m), Val(v[m..]));
  }

  lemma {:induction false} QuotOfScaled(x: int, lo: int, p: int, hi: int)
    requires 0 <= lo < p && x == lo + p * hi
    ensures x / p == hi
  {
    DivModUnique(x, p, hi, lo);
  }

  /** The chunk of a later round is the run of its top limbs. */
  lemma {:induction false} ChunkLimbsValue(v: seq<uint32>, k: nat)
    requires |v| >= 2 && k >= 4
    ensures Chunk(Val(v), |v|, k) == Val(v[|v| - ChunkLimbs(k, |v|)..])
  {
    var n := |v|;
    var m := n - ChunkLimbs(k, n);
    var w := ChunkShift(n, k);
    var x := Val(v);
    assert Chunk(x, n, k) == x / Pow2(w) by { ChunkIsDiv(x, n, k); }
    assert Pow2(w) == Pow(m) by {
      assert w == 32 * m;
      PowIsPow2(m);
    }
    assert x / Pow(m) == Val(v[m..]) by { TopRun(v, m); }
  }

  /** The number of bits the divisor is shifted right by to get the chunk of round k. */
  function ChunkShift(len: nat, k: nat): (w: nat)
    requires len >= 2
    ensures w == DivisorBits(len) - ChunkBits(k, len)
  {
    ChunkBitsRange(k, len);
    DivisorBits(len) - ChunkBits(k, len)
  }

  lemma {:induction false} ChunkIsDiv(dv: nat, len: nat, k: nat)
    requires len >= 2
    ensures Chunk(dv, len, k) == dv / Pow2(ChunkShift(len, k))
  {
    ShiftRightIsDiv(dv, ChunkShift(len, k));
  }

  // ---------------------------------------------------------------------------
  // The rounds

  /** The first estimate floor(32 / top) satisfies the round invariant of round 0. */
  lemma {:induction false} FirstEstimate(dv: nat, len: nat, n1: nat, n2: nat)
    requires len >= 2 && 4 <= n1 < 8 && n2 < BASE
    requires Chunk(dv, len, 0) == 4 * n1 + n2 / Pow2(30)
    ensures Inv(dv, len, 0, 32 / n1)
  {
    Pow2Small();
    assert EstimateBits(0) == 2 && ChunkBits(0, len) == 5;
    Pow2Sum(1, 2, 3);
    assert Pow2(3) == 8;
    QuotRange(n2, Pow2(30), 0, 4);
  }

  /** The estimate the source starts from, 32 / top limb, satisfies the invariant of round 0. */
  lemma {:induction false} InitialEstimate(v: seq<uint32>)
    requires ShiftedDivisor(Val(v), |v|) && 4 <= v[|v| - 1] < 8
    ensures Inv(Val(v), |v|, 0, 32 / v[|v| - 1])
  {
    var n1, n2 := v[|v| - 1], v[|v| - 2];
    Pow2Small();
    ChunkTopTwo(v, 0, 2);
    TopTwoShift(n1, n2, 2);
    FirstEstimate(Val(v), |v|, n1, n2);
  }

  /** The powers of two of one round, in the shape NewtonStep takes them; e are the bits of the next round. */
  lemma {:induction false} RoundPowers(b: nat, c: nat, c2: nat, e: nat)
    requires b >= 2 && c >= 5 && c <= c2 && e == 2 * b - 1
    ensures Pow2(b) >= 4 && Pow2(c - 1) >= 16
    ensures Pow2(b + c + 1) == 4 * Pow2(b) * Pow2(c - 1)
    ensures Pow2(c2) == 2 * Pow2(c - 1) * Pow2(c2 - c)
    ensures Pow2(e + c2 + 1) == Pow2(b) * Pow2(b) * (2 * Pow2(c - 1) * Pow2(c2 - c))
    ensures Pow2(e + 1) == Pow2(b) * Pow2(b)
    ensures Pow2(c + 1) == 4 * Pow2(c - 1)
  {
    EstimatePowers(b, c);
    ChunkPowers(b, c, c2, e);
  }

  /** The powers of two of the estimate's bits b and the chunk's bits c in one round. */
  lemma {:induction false} EstimatePowers(b: nat, c: nat)
    requires b >= 2 && c >= 5
    ensures Pow2(b) >= 4 && Pow2(c - 1) >= 16
    ensures Pow2(b + c + 1) == 4 * Pow2(b) * Pow2(c - 1)
    ensures Pow2(c + 1) == 4 * Pow2(c - 1)
  {
    var pb, h := Pow2(b), Pow2(c - 1);
    assert pb >= 4 && h >= 16 by {
      Pow2Small();
      Pow2Monotone(2, b);
      Pow2Monotone(4, c - 1);
    }
    assert Pow2(c + 1) == 4 * h by {
      Pow2Small();
      Pow2Sum(2, c - 1, c + 1);
    }
    var q := Pow2(c + 1);
    assert Pow2(b + c + 1) == pb * q by { Pow2Sum(b, c + 1, b + c + 1); }
    assert pb * q == 4 * pb * h by { MulAssoc(pb, 4, h); }
  }

  /** The powers of two of the next chunk's bits c2 and the next estimate's bits e in one round. */
  lemma {:induction false} ChunkPowers(b: nat, c: nat, c2: nat, e: nat)
    requires c >= 1 && c <= c2 && e == 2 * b - 1 && b >= 1
    ensures Pow2(c2) == 2 * Pow2(c - 1) * Pow2(c2 - c)
    ensures Pow2(e + c2 + 1) == Pow2(b) * Pow2(b) * (2 * Pow2(c - 1) * Pow2(c2 - c))
    ensures Pow2(e + 1) == Pow2(b) * Pow2(b)
  {
    var pb, h, pd := Pow2(b), Pow2(c - 1), Pow2(c2 - c);
    assert Pow2(c2) == 2 * h * pd by {
      Pow2Small();
      Pow2Sum(1, c - 1, c);
      Pow2Sum(c, c2 - c, c2);
    }
    assert Pow2(e + 1) == pb * pb by { Pow2Sum(b, b, e + 1); }
    assert Pow2(e + c2 + 1) == Pow2(e + 1) * Pow2(c2) by { Pow2Sum(e + 1, c2, e + c2 + 1); }
  }

  /**
   * One round keeps the invariant: the truncated square term is below the
   * doubled estimate, and the new estimate satisfies the invariant of the
   * next round.
   */
  lemma {:induction false} RoundStep(dv: nat, len: nat, k: nat, r: int)
    requires ShiftedDivisor(dv, len) && Inv(dv, len, k, r)
    ensures Inv(dv, len, k + 1, NextEstimate(r, Chunk(dv, len, k), EstimateBits(k), ChunkBits(k, len)))
  {
    RoundFacts(dv, len, k);
    RoundArith(r, Chunk(dv, len, k), Chunk(dv, len, k + 1), EstimateBits(k), ChunkBits(k, len), ChunkBits(k + 1, len), EstimateBits(k + 1));
  }

  lemma {:induction false} RoundFacts(dv: nat, len: nat, k: nat)
    requires ShiftedDivisor(dv, len)
    ensures ChunkPairFacts(Chunk(dv, len, k), Chunk(dv, len, k + 1), EstimateBits(k), ChunkBits(k, len), ChunkBits(k + 1, len), EstimateBits(k + 1))
  {
    ChunkBitsRange(k, len);
    ChunkRange(dv, len, k);
    ChunkRange(dv, len, k + 1);
    ChunkRefines(dv, len, k);
  }

  /** One round on the exponents: b bits of the estimate, c and c2 of the chunks, e == 2b - 1 of the next estimate. */
  lemma {:induction false} RoundArith(r: int, t: int, t2: int, b: nat, c: nat, c2: nat, e: nat)
    requires Bound(r, t, b, c) && ChunkPairFacts(t, t2, b, c, c2, e)
    ensures Bound(NextEstimate(r, t, b, c), t2, e, c2)
  {
    RoundPowers(b, c, c2, e);
    RoundInts(r, t, t2, Pow2(b), Pow2(c - 1), Pow2(c2 - c),
      Pow2(b + c + 1), Pow2(c + 1), Pow2(c2), Pow2(e + 1), Pow2(e + c2 + 1));
  }

  /** NewtonStep with its products named, so that the powers of two stay opaque terms. */
  lemma {:induction false} RoundInts(r: int, t: int, t2: int, pb: int, h: int, pd: int, p4: int, pc1: int, pc2: int, pe1: int, pe2: int)
    requires r > 0 && pb >= 4 && h >= 16 && pd >= 1
    requires h <= t && t2 / pd == t
    requires p4 == 4 * pb * h && pc1 == 4 * h && pc2 == 2 * h * pd && pe1 == pb * pb && pe2 == pb * pb * (2 * h * pd)
    requires r * t < p4 && t2 < pc2
    ensures 0 < r * pb - (r * r * t) / pc1 <= pe1
    ensures (r * pb - (r * r * t) / pc1) * t2 < pe2
  {
    NewtonStep(r, t, t2, pb, h, pd);
  }

  // ---------------------------------------------------------------------------
  // The opposite

  /** The left shift that brings the divisor's msb to bit 2 of its top limb. */
  function DivisorShift(digits: seq<uint32>): (ls: nat)
    requires |digits| >= 1 && digits[|digits| - 1] != 0
    ensures ls <= 31
  {
    (2 - Bits.Msb(digits[|digits| - 1]) + 32) % 32
  }

  /** The value of the shifted divisor. */
  function ShiftedValue(digits: seq<uint32>): nat
    requires |digits| >= 1 && digits[|digits| - 1] != 0
  {
    MulLe(0, Val(digits), Pow2(DivisorShift(digits)));
    Val(digits) * Pow2(DivisorShift(digits))
  }

  /** The length of the shifted divisor: one limb more when its msb was above bit 2. */
  function ShiftedLength(digits: seq<uint32>): nat
    requires |digits| >= 1 && digits[|digits| - 1] != 0
  {
    if Bits.Msb(digits[|digits| - 1]) > 2 then |digits| + 1 else |digits|
  }

  /** Shifting by DivisorShift gives a divisor of ShiftedLength limbs with its msb at bit 2 of the top limb. */
  lemma {:induction false} NormalizedDivisor(digits: seq<uint32>)
    requires Trimmed(digits) && |digits| >= 1
    requires |digits| >= 2 || Bits.Msb(digits[0]) >= 3
    ensures ShiftedDivisor(ShiftedValue(digits), ShiftedLength(digits))
  {
    var n := |digits|;
    var msb := Bits.Msb(digits[n - 1]);
    var e := 32 * (n - 1) + msb;
    var ls := DivisorShift(digits);
    var len := ShiftedLength(digits);
    DivisorRange(digits);
    assert e + ls == DivisorBits(len) - 1 by { ShiftSum(n, msb, ls, len); }
    ScaledPow2Range(Val(digits), e, ls);
  }

  lemma {:induction false} ShiftSum(n: nat, msb: nat, ls: nat, len: nat)
    requires n >= 1 && msb <= 31 && ls == (2 - msb + 32) % 32
    requires len == if msb > 2 then n + 1 else n
    ensures 32 * (n - 1) + msb + ls == 32 * len - 30
  {
  }

  /** 2^e <= x < 2^(e+1) scaled by 2^ls. */
  lemma {:induction false} ScaledPow2Range(x: nat, e: nat, ls: nat)
    requires Pow2(e) <= x < Pow2(e + 1)
    ensures Pow2(e + ls) <= x * Pow2(ls) < Pow2(e + ls + 1)
  {
    Pow2Sum(e, ls, e + ls);
    Pow2Sum(e + 1, ls, e + ls + 1);
    MulLe(Pow2(e), x, Pow2(ls));
    MulLtR(x, Pow2(e + 1), Pow2(ls));
  }

  /** The result of the last round fits the result buffer of 2^(ceil(log2 maxLength) + 1) limbs. */
  lemma {:induction false} OppositeFits(x: nat, lengthLog2: nat)
    requires x <= Pow2(EstimateBits(lengthLog2 + 5) + 1)
    ensures LimbCount(x) <= Pow2(lengthLog2 + 1)
  {
    var m := Pow2(lengthLog2 + 1);
    Pow2Small();
    Pow2Sum(lengthLog2 + 1, 5, lengthLog2 + 6);
    assert Pow2(5) == 32 by { Pow2Sum(1, 4, 5); }
    Pow2Sum(1, lengthLog2 + 5, lengthLog2 + 6);
    Pow2Monotone(0, lengthLog2 + 5);
    PowIsPow2(m);
    Pow2Monotone(EstimateBits(lengthLog2 + 5) + 2, 32 * m);
    LimbCountAtMost(x, m);
  }

  /** When the product has no limb at or above the shift offset, nothing of it survives the shift. */
  lemma {:induction false} NothingLost(x: nat, shift: nat)
    requires shift / 32 >= LimbCount(x)
    ensures x / Pow2(shift) == 0
  {
    var n := LimbCount(x);
    PowMonotone(n, shift / 32);
    PowIsPow2(shift / 32);
    Pow2Monotone(32 * (shift / 32), shift);
    DivZero(x, Pow2(shift));
  }

  /** The most significant bit of 32 is bit 5. */
  lemma {:induction false} Msb32()
    ensures Bits.Msb(32) == 5
  {
    Pow2Small();
    Pow2Sum(1, 4, 5);
    Pow2Sum(2, 4, 6);
  }

  /**
   * The part of the shifted divisor that round k reads, and its bits after
   * the point: the two top limbs packed in one word for the first four
   * rounds, then 2^(k-4) + 1 of the top limbs.
   */
  method NextBuffer(v: seq<uint32>, k: nat) returns (chunk: nat, bits: nat)
    requires |v| >= 2 && v[|v| - 1] < 8
    ensures chunk == Chunk(Val(v), |v|, k) && bits == ChunkBits(k, |v|)
  {
    if k < 4 {
      chunk, bits := TopTwoChunk(v, k);
    } else {
      chunk, bits := TopLimbsChunk(v, k);
    }
  }

  /** Rounds 0 to 3: the chunk is cut from the two top limbs. */
  method TopTwoChunk(v: seq<uint32>, k: nat) returns (chunk: nat, bits: nat)
    requires |v| >= 2 && v[|v| - 1] < 8 && k < 4
    ensures chunk == Chunk(Val(v), |v|, k) && bits == ChunkBits(k, |v|)
  {
    var length := |v|;
    var nextBufferTempShift := Pow2(k + 1);
    assert 2 <= nextBufferTempShift <= 16 by {
      Pow2Small();
      Pow2Monotone(1, k + 1);
      Pow2Monotone(k + 1, 4);
    }
    chunk := BitOps.Or32(Shl32(v[length - 1], nextBufferTempShift), Shr32(v[length - 2], 32 - nextBufferTempShift));
    bits := nextBufferTempShift + 3;
    assert chunk == Chunk(Val(v), length, k) by { TopTwoChunkValue(v, k, nextBufferTempShift); }
  }

  /** The or of the two shifted top limbs is the chunk of a round k < 4. */
  lemma {:induction false} TopTwoChunkValue(v: seq<uint32>, k: nat, s: nat)
    requires |v| >= 2 && v[|v| - 1] < 8 && k < 4 && s == Pow2(k + 1) && 2 <= s <= 16
    ensures BitOps.Or32(Shl32(v[|v| - 1], s), Shr32(v[|v| - 2], 32 - s)) == Chunk(Val(v), |v|, k)
  {
    ChunkTopTwo(v, k, s);
    TopTwoShift(v[|v| - 1], v[|v| - 2], s);
  }

  /** Later rounds: the chunk is the top 2^(k - 4) + 1 limbs. */
  method TopLimbsChunk(v: seq<uint32>, k: nat) returns (chunk: nat, bits: nat)
    requires |v| >= 2 && k >= 4
    ensures chunk == Chunk(Val(v), |v|, k) && bits == ChunkBits(k, |v|)
  {
    var length := |v|;
    var nextBufferLength := Min(Pow2(k - 4) + 1, length);
    chunk := Val(v[length - nextBufferLength..]);
    bits := (nextBufferLength - 1) * 32 + 3;
    assert chunk == Chunk(Val(v), length, k) by { ChunkLimbsValue(v, k); }
  }

  /**
   * GetIntegerOpposite: the fixed-point reciprocal of the divisor with
   * 2^(ceil(log2 maxLength) + 5) + 1 bits after the point. The divisor is
   * shifted (into buffer, from its second limb on) so that its msb sits at
   * bit 2 of the top limb, then refined by Newton rounds. The caller divides
   * by the divisor by multiplying with opposite and shifting right by
   * rightShift bits: the divisor's bit length plus the bits after the point.
   */
  method GetIntegerOpposite(digits: seq<uint32>, maxLength: uint32, buffer: array<uint32>)
    returns (opposite: nat, newLength: nat, rightShift: nat)
    requires Trimmed(digits) && 1 <= |digits| && |digits| + 1 <= buffer.Length
    requires |digits| >= 2 || Bits.Msb(digits[0]) >= 3
    requires 1 <= maxLength <= 0x4000_0000  // 1 << (ceil(log2 maxLength) + 1) stays within a word
    modifies buffer
    ensures rightShift == Bits.BitLength(Val(digits)) + EstimateBits(Bits.CeilLog2(maxLength) + 5)
    ensures Inv(ShiftedValue(digits), ShiftedLength(digits), Bits.CeilLog2(maxLength) + 5, opposite)
    ensures ShiftedDivisor(ShiftedValue(digits), ShiftedLength(digits)) &&
      opposite == Estimate(ShiftedValue(digits), ShiftedLength(digits), Bits.CeilLog2(maxLength) + 5)
    ensures newLength == LimbCount(opposite) <= Pow2(Bits.CeilLog2(maxLength) + 1)
  {
    var length := |digits|;
    var msb := Bits.Msb(digits[length - 1]);
    rightShift := (length - 1) * 32 + msb + 1;
    assert rightShift == Bits.BitLength(Val(digits)) by { DivisorRange(digits); }
    var v := ShiftDivisor(digits, buffer);
    length := |v|;

    var growth;
    opposite, newLength, growth := Opposite(v, maxLength);
    rightShift := rightShift + growth;
  }

  /**
   * The loop of GetIntegerOpposite on the shifted divisor v: CeilLog2(maxLength) + 5
   * rounds from the initial estimate; the right shift grows by the bits the
   * estimate finally has after the point.
   */
  method Opposite(v: seq<uint32>, maxLength: uint32) returns (opposite: nat, newLength: nat, growth: nat)
    requires ShiftedDivisor(Val(v), |v|) && 4 <= v[|v| - 1] < 8
    requires 1 <= maxLength <= 0x4000_0000
    ensures growth == EstimateBits(Bits.CeilLog2(maxLength) + 5)
    ensures Inv(Val(v), |v|, Bits.CeilLog2(maxLength) + 5, opposite)
    ensures opposite == Estimate(Val(v), |v|, Bits.CeilLog2(maxLength) + 5)
    ensures newLength == LimbCount(opposite) <= Pow2(Bits.CeilLog2(maxLength) + 1)
  {
    var lengthLog2 := Bits.CeilLog2(maxLength);
    opposite, newLength, growth := RoundsFor(v, lengthLog2);
  }

  /** The rounds for a result buffer of 2^(lengthLog2 + 1) limbs: lengthLog2 + Msb(32) of them. */
  method RoundsFor(v: seq<uint32>, lengthLog2: nat) returns (opposite: nat, newLength: nat, growth: nat)
    requires ShiftedDivisor(Val(v), |v|) && 4 <= v[|v| - 1] < 8
    ensures growth == EstimateBits(lengthLog2 + 5)
    ensures Inv(Val(v), |v|, lengthLog2 + 5, opposite)
    ensures opposite == Estimate(Val(v), |v|, lengthLog2 + 5)
    ensures newLength == LimbCount(opposite) <= Pow2(lengthLog2 + 1)
  {
    var digitBits: uint32 := 32;
    var lengthLog2Bits := lengthLog2 + Bits.Msb(digitBits);
    assert lengthLog2Bits == lengthLog2 + 5 by { Msb32(); }
    opposite := NewtonRounds(v, lengthLog2Bits);
    growth := Pow2(lengthLog2Bits) + 1;
    newLength := LimbCount(opposite);
    OppositeFits(opposite, lengthLog2);
  }

  /**
   * The initial estimate 32 / top (about 2^5 over the divisor's top bits)
   * and the given number of Newton rounds on it.
   */
  method NewtonRounds(v: seq<uint32>, rounds: nat) returns (result: nat)
    requires ShiftedDivisor(Val(v), |v|) && 4 <= v[|v| - 1] < 8
    ensures Inv(Val(v), |v|, rounds, result)
    ensures result == Estimate(Val(v), |v|, rounds)
  {
    InitialEstimate(v);
    result := 32 / (v[|v| - 1] as int);
    assert result == Estimate(Val(v), |v|, 0) by { TopLimbOfVal(v); }
    var k := 0;
    while k < rounds
      invariant 0 <= k <= rounds
      invariant Inv(Val(v), |v|, k, result)
      invariant result == Estimate(Val(v), |v|, k)
    {
      result := NewtonRound(v, k, result);
      k := k + 1;
    }
  }

  /**
   * The prologue: a divisor whose msb is not at bit 2 of its top limb is
   * shifted left into buffer (a right shift by 32 - leftShift written from
   * limb 1, with the bits shifted out going to limb 0); one whose msb is
   * there already is used as it is.
   */
  method ShiftDivisor(digits: seq<uint32>, buffer: array<uint32>) returns (v: seq<uint32>)
    requires Trimmed(digits) && 1 <= |digits| && |digits| + 1 <= buffer.Length
    requires |digits| >= 2 || Bits.Msb(digits[0]) >= 3
    modifies buffer
    ensures Val(v) == ShiftedValue(digits) && |v| == ShiftedLength(digits)
    ensures ShiftedDivisor(Val(v), |v|) && 4 <= v[|v| - 1] < 8
  {
    var length := |digits|;
    var msb := Bits.Msb(digits[length - 1]);
    ghost var e := ShiftedLength(digits);
    assert ShiftedDivisor(ShiftedValue(digits), e) by { NormalizedDivisor(digits); }
    if msb != 2 {
      var leftShift := (2 - msb + 32) % 32;
      v := ShiftLeftInto(digits, buffer, leftShift);
      assert leftShift == DivisorShift(digits);
    } else {
      v := digits;
      assert Pow2(DivisorShift(digits)) == 1;
    }
    ShiftedShape(v, e);
  }

  /** The divisor shifted left by leftShift bits into buffer: Shr by 32 - leftShift from limb 1, the low bits landing in limb 0. */
  method ShiftLeftInto(digits: seq<uint32>, buffer: array<uint32>, leftShift: nat) returns (v: seq<uint32>)
    requires Trimmed(digits) && 1 <= |digits| && |digits| + 1 <= buffer.Length && 1 <= leftShift <= 31
    modifies buffer
    ensures Val(v) == Val(digits) * Pow2(leftShift) && Trimmed(v)
  {
    var n := DigitOpHelper.Shr(digits, buffer, 1, 32 - leftShift, true);
    v := buffer[1 - 1..1 + n];
    assert n >= 1 ==> v[n] != 0 by {
      if n >= 1 {
        assert buffer[1..1 + n][n - 1] == v[n];
      }
    }
    assert 32 - (32 - leftShift) == leftShift;
    ValTrimmedRange(digits);
    MulLe(1, Val(digits), Pow2(leftShift));
    TrimmedFromTop(v);
  }

  /**
   * One round of the loop: z' = z * 2^b - (z^2 v') / 2^(c+1), that is 2z - z^2 v'
   * with 2b - 1 bits after the point. The square term is shifted right and
   * subtracted only when it has a limb at or above the shift offset; otherwise
   * it is zero.
   */
  method NewtonRound(v: seq<uint32>, k: nat, result: nat) returns (next: nat)
    requires ShiftedDivisor(Val(v), |v|) && v[|v| - 1] < 8 && Inv(Val(v), |v|, k, result)
    ensures next == NextEstimate(result, Chunk(Val(v), |v|, k), EstimateBits(k), ChunkBits(k, |v|))
    ensures Inv(Val(v), |v|, k + 1, next)
  {
    var sq: nat := result * result;
    var bitsAfterDotResult: nat := Pow2(k) + 1;
    var bitsAfterDotResultSqr: nat := bitsAfterDotResult * 2;
    var chunk, bitsAfterDotNextBuffer := NextBuffer(v, k);
    MulLe(0, sq, chunk);
    var sqBuf: nat := sq * chunk;
    bitsAfterDotNextBuffer := bitsAfterDotNextBuffer + bitsAfterDotResultSqr;
    bitsAfterDotResult := bitsAfterDotResult - 1;
    bitsAfterDotResultSqr := bitsAfterDotResultSqr - 1;
    // the estimate moves to 2b - 1 bits after the point: a left shift by b
    var bitShift: nat := bitsAfterDotResultSqr - bitsAfterDotResult;
    assert bitShift == EstimateBits(k);
    var shifted: nat := result * Pow2(bitShift);
    // z^2 v' has 2b + c bits after the point: a right shift by c + 1
    bitShift := bitsAfterDotNextBuffer - bitsAfterDotResultSqr;
    assert bitShift == ChunkBits(k, |v|) + 1;
    var term := ShiftOut(sqBuf, bitShift);
    ghost var estimate := NextEstimate(result, chunk, EstimateBits(k), ChunkBits(k, |v|));
    assert estimate == shifted - term;
    assert Inv(Val(v), |v|, k + 1, estimate) && estimate > 0 by { RoundStep(Val(v), |v|, k, result); }
    next := shifted - term;
  }

  /** s with its low n limbs set to zero, as SetBlockDigits leaves it. */
  function ClearLow(s: seq<uint32>, n: nat): (c: seq<uint32>)
    requires n <= |s|
    ensures |c| == |s| && Val(c) == Val(s) - Val(s[..n])
  {
    var c := Zeros(n) + s[n..];
    ValConcat(Zeros(n), s[n..]);
    ValAllZero(Zeros(n));
    ValSplit(s, n);
    c
  }

  /**
   * One round as the source runs it. The shifted estimate is written into
   * the square's buffer and the two buffer pointers are swapped; then the two
   * vectors of equal size are copy-assigned into each other, which swaps
   * their contents back. So the buffer the round goes on with holds the
   * previous estimate (buf, the whole of its storage, of which the first
   * resultLength limbs are the estimate), not the shifted one. Its low
   * shiftOffset limbs are cleared, it is read over the length the shift
   * reported, and the square term is subtracted from it, wrapping modulo
   * BASE to that length. The result is the intended estimate plus what is
   * left of the previous one, less the shifted one it should have been.
   */
  method NewtonRoundAsWritten(v: seq<uint32>, k: nat, buf: seq<uint32>, resultLength: nat)
    returns (next: nat, nextLength: nat)
    requires |v| >= 2 && v[|v| - 1] < 8
    requires 1 <= resultLength && EstimateBits(k) / 32 + 1 + resultLength <= |buf|
    // the square term has no more limbs than the shifted estimate, as DigitOpHelper::Sub assumes
    requires Val(buf[..resultLength]) * Val(buf[..resultLength]) * Chunk(Val(v), |v|, k) / Pow2(ChunkBits(k, |v|) + 1) <
      Pow(EstimateBits(k) / 32 + resultLength)
    ensures EstimateBits(k) / 32 < nextLength <= |buf| && next < Pow(nextLength)
    ensures nextLength == EstimateBits(k) / 32 + 1 + resultLength -
      (if Shr32(buf[resultLength - 1], 32 - EstimateBits(k) % 32) == 0 then 1 else 0)
    ensures Val(buf[..resultLength]) * Pow2(EstimateBits(k)) < Pow(nextLength)
    ensures next == (Val(ClearLow(buf[..nextLength], EstimateBits(k) / 32)) -
      Val(buf[..resultLength]) * Val(buf[..resultLength]) * Chunk(Val(v), |v|, k) / Pow2(ChunkBits(k, |v|) + 1)) % Pow(nextLength)
  {
    var z := Val(buf[..resultLength]);
    nextLength := ShiftLength(buf, resultLength, k);
    // the swaps cancel: the subtraction reads the previous estimate, its low limbs cleared
    var cleared := ClearLow(buf[..nextLength], EstimateBits(k) / 32);
    var term := SquareTerm(v, k, z);
    next := (Val(cleared) - term) % Pow(nextLength);
  }

  /**
   * The length the left shift of the estimate by EstimateBits(k) bits
   * reports: shiftOffset + 1 + resultLength limbs, one fewer when the top
   * limb shifted right by 32 - bitShift % 32 is zero.
   */
  method ShiftLength(buf: seq<uint32>, resultLength: nat, k: nat) returns (nextLength: nat)
    requires 1 <= resultLength && EstimateBits(k) / 32 + 1 + resultLength <= |buf|
    ensures EstimateBits(k) / 32 < nextLength <= |buf|
    ensures nextLength == EstimateBits(k) / 32 + 1 + resultLength -
      (if Shr32(buf[resultLength - 1], 32 - EstimateBits(k) % 32) == 0 then 1 else 0)
    ensures Val(buf[..resultLength]) * Pow2(EstimateBits(k)) < Pow(nextLength)
  {
    var bitShift: nat := EstimateBits(k);
    var shiftOffset := bitShift / 32;
    assert 0 < bitShift % 32 by { EstimateBitsOdd(k); }
    var top := if Shr32(buf[resultLength - 1], 32 - bitShift % 32) == 0 then 1 else 0;
    nextLength := shiftOffset + 1 + resultLength - top;
    ghost var s := buf[..resultLength];
    assert s[|s| - 1] == buf[resultLength - 1];
    ShiftedFits(s, bitShift, top);
  }

  /**
   * The square term of a round: z^2 times the divisor's chunk, shifted right
   * by ChunkBits(k, |v|) + 1 bits, as the round computes it in place.
   */
  method SquareTerm(v: seq<uint32>, k: nat, z: nat) returns (term: nat)
    requires |v| >= 2 && v[|v| - 1] < 8
    ensures term == z * z * Chunk(Val(v), |v|, k) / Pow2(ChunkBits(k, |v|) + 1)
  {
    var chunk, bitsAfterDotNextBuffer := NextBuffer(v, k);
    MulLe(0, z * z, chunk);
    var sqBuf: nat := z * z * chunk;
    term := ShiftOut(sqBuf, bitsAfterDotNextBuffer + 1);
  }

  /** A right shift by bitShift bits, which leaves nothing when it passes all the limbs. */
  method ShiftOut(x: nat, bitShift: nat) returns (y: nat)
    ensures y == x / Pow2(bitShift)
  {
    var p := Pow2(bitShift);
    DivShrinks(x, p);
    if bitShift / 32 < LimbCount(x) {
      y := x / p;
    } else {
      NothingLost(x, bitShift);
      y := 0;
    }
  }

  /** 2^k + 1 is never a multiple of 32. */
  lemma {:induction false} EstimateBitsOdd(k: nat)
    ensures EstimateBits(k) % 32 != 0
  {
    if k >= 5 {
      var m := Pow2(k - 5);
      assert Pow2(5) == 32 by { assert Pow2(2) == 4; assert Pow2(4) == 16; }
      Pow2Sum(5, k - 5, k);
      DivModUnique(EstimateBits(k), 32, m, 1);
    } else {
      assert Pow2(0) == 1 && Pow2(1) == 2 && Pow2(2) == 4 && Pow2(3) == 8 && Pow2(4) == 16;
    }
  }

  /**
   * The estimate z, of |s| limbs, shifted left by b bits fits the length the
   * source computes for it: b / 32 + 1 + |s| limbs, one fewer when the top
   * limb shifted right by 32 - b % 32 is zero.
   */
  lemma {:induction false} ShiftedFits(s: seq<uint32>, b: nat, top: nat)
    requires |s| >= 1 && 0 < b % 32
    requires top == (if Shr32(s[|s| - 1], 32 - b % 32) == 0 then 1 else 0)
    ensures Val(s) * Pow2(b) < Pow(b / 32 + 1 + |s| - top)
  {
    var n, r, q := |s|, b % 32, b / 32;
    ShiftedTopRange(s, r, top);
    ShiftedSplit(Val(s), b);
    ScaledBelow(Val(s) * Pow2(r), Pow(n + 1 - top), Pow(q));
    PowAdd(n + 1 - top, q);
  }

  /** The estimate shifted left by r < 32 bits fits one more limb, or as many when its top bits are zero. */
  lemma {:induction false} ShiftedTopRange(s: seq<uint32>, r: nat, top: nat)
    requires |s| >= 1 && 0 < r < 32
    requires top == (if Shr32(s[|s| - 1], 32 - r) == 0 then 1 else 0)
    ensures Val(s) * Pow2(r) < Pow(|s| + 1 - top)
  {
    var n := |s|;
    LastLimbSplit(s);
    ShiftedTop(s[n - 1], r, top);
    ShiftedRun(Val(s[..n - 1]), s[n - 1], Pow(n - 1), Pow2(r), top);
    TopWeight(n, top);
  }

  /** A shift by b bits is one by b % 32 bits and b / 32 whole limbs. */
  lemma {:induction false} ShiftedSplit(x: nat, b: nat)
    ensures x * Pow2(b) == x * Pow2(b % 32) * Pow(b / 32)
  {
    var r, q := b % 32, b / 32;
    Pow2Sum(32 * q, r, b);
    PowIsPow2(q);
    var u, v := Pow2(r), Pow(q);
    assert Pow2(b) == v * u;
    MulAssoc(x, u, v);
    assert x * (v * u) == x * (u * v);
  }

  /** BASE (or BASE^2) times the weight of limb n - 1 is BASE^n (or BASE^(n+1)). */
  lemma {:induction false} TopWeight(n: nat, top: nat)
    requires n >= 1 && top <= 1
    ensures (if top == 1 then BASE else BASE * BASE) * Pow(n - 1) == Pow(n + 1 - top)
  {
    assert Pow(n) == BASE * Pow(n - 1);
    assert Pow(n + 1) == BASE * Pow(n);
  }

  /** a < p gives a m < p m for m >= 1. */
  lemma {:induction false} ScaledBelow(a: nat, p: nat, m: nat)
    requires a < p && m >= 1
    ensures a * m < p * m
  {
    MulLe(a + 1, p, m);
  }

  /** A limb d shifted left by r bits: below BASE when its top r bits are zero, below BASE^2 anyway. */
  lemma {:induction false} ShiftedTop(d: uint32, r: nat, top: nat)
    requires 0 < r < 32
    requires top == (if Shr32(d, 32 - r) == 0 then 1 else 0)
    ensures (d + 1) * Pow2(r) <= (if top == 1 then BASE else BASE * BASE)
  {
    Pow2Small();
    Pow2Sum(32 - r, r, 32);
    if top == 1 {
      DivZero(d, Pow2(32 - r));
      MulLe(d + 1, Pow2(32 - r), Pow2(r));
    } else {
      Pow2Monotone(r, 32);
      MulLe(d + 1, BASE, Pow2(r));
      MulLe(Pow2(r), BASE, BASE);
    }
  }

  /** lo + d p, with lo < p, times m stays below BASE^(n-top) when (d + 1) m does, scaled by p. */
  lemma {:induction false} ShiftedRun(lo: nat, d: nat, p: nat, m: nat, top: nat)
    requires lo < p && (d + 1) * m <= (if top == 1 then BASE else BASE * BASE) && m >= 1
    ensures (lo + d * p) * m < (if top == 1 then BASE else BASE * BASE) * p
  {
    MulLe(lo + 1, p, m);
    assert (lo + d * p) * m < (p + d * p) * m;
    assert (p + d * p) * m == (d + 1) * m * p;
    MulLe((d + 1) * m, if top == 1 then BASE else BASE * BASE, p);
  }

  /**
   * Round 0 on the shifted divisor {0, 4} with maxLength 1: the estimate is
   * 32 / 4 = 8 in a buffer of two limbs. The intended round gives
   * 2 8 - 16 = 16 (with one more bit after the point); the round as the
   * source runs it subtracts 16 from the unshifted 8 and wraps to 2^32 - 8.
   */
  method RoundZeroCounterexample() returns (asWritten: nat, intended: nat)
    ensures asWritten == 0xFFFF_FFF8
    ensures intended == 16
  {
    var v: seq<uint32> := [0, 4];
    asWritten := RoundZeroAsWritten(v);
    FourLimbDivisor(v);
    InitialEstimate(v);
    intended := NewtonRound(v, 0, 8);
  }

  /** The as-written round 0 on {0, 4}: it reads 8 back over one limb and subtracts the square term 16 modulo BASE. */
  method RoundZeroAsWritten(v: seq<uint32>) returns (asWritten: nat)
    requires v == [0, 4]
    ensures asWritten == 0xFFFF_FFF8
  {
    FourLimbDivisor(v);
    var length;
    assert Shr32(8, 30) == 0;
    asWritten, length := NewtonRoundAsWritten(v, 0, [8, 0], 1);
    assert length == 1;
  }

  /** {0, 4} is a shifted divisor of two limbs; its round-0 chunk is 16, and the round-0 powers are small. */
  lemma {:induction false} FourLimbDivisor(v: seq<uint32>)
    requires v == [0, 4]
    ensures Val(v) == 4 * BASE && ShiftedDivisor(Val(v), 2)
    ensures Chunk(Val(v), 2, 0) == 16 && ChunkBits(0, 2) == 5 && EstimateBits(0) == 2
    ensures Pow2(2) == 4 && Pow2(6) == 64 && Pow(1) == BASE && Pow2(30) == 0x4000_0000
    ensures Val([8 as uint32]) == 8
  {
    ValSingle(0);
    ValAppend([0], 4);
    assert v == [0 as uint32] + [4];
    ValSingle(8);
    Pow2Small();
    Pow2Sum(32, 2, 34);
    Pow2Sum(32, 3, 35);
    Pow2Sum(2, 4, 6);
    assert Pow(1) == BASE * Pow(0);
    ChunkIsDiv(Val(v), 2, 0);
    assert ChunkShift(2, 0) == 30;
  }

  /** The shifted divisor written from limb 0 on is trimmed: its top limb is that of a trimmed run, or its value is positive. */
  lemma {:induction false} TrimmedFromTop(w: seq<uint32>)
    requires |w| >= 1 && (|w| >= 2 ==> w[|w| - 1] != 0) && Val(w) > 0
    ensures Trimmed(w)
  {
    if |w| == 1 {
      ValSingle(w[0]);
      assert w == [w[0]];
    }
  }
}
