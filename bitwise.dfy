/**
 * Bitwise AND, OR and XOR of natural numbers, defined bit by bit from the
 * least significant bit up, and their behaviour on limbs: on a 32-bit word
 * they are the C operators `&`, `|`, `^`, and on a limb sequence the
 * limb-wise operation is the operation on the whole number.
 */
module BitOps {
  import opened Limbs

  datatype BitOp = OrOp | AndOp | XorOp

  /** The operation on one pair of bits. */
  predicate BitOf(op: BitOp, a: bool, b: bool)
  {
    match op
    case OrOp => a || b
    case AndOp => a && b
    case XorOp => a != b
  }

  /** The operation applied to every bit position of x and y. */
  function Bitwise(op: BitOp, x: nat, y: nat): nat
    decreases x + y
  {
    if x == 0 && y == 0 then 0
    else 2 * Bitwise(op, x / 2, y / 2) + (if BitOf(op, x % 2 == 1, y % 2 == 1) then 1 else 0)
  }

  /** Results of an operation on k-bit numbers fit in k bits. */
  lemma {:induction false} BitwiseBound(op: BitOp, x: nat, y: nat, k: nat)
    requires x < Pow2(k) && y < Pow2(k)
    ensures Bitwise(op, x, y) < Pow2(k)
    decreases k
  {
    if k > 0 && !(x == 0 && y == 0) {
      BitwiseBound(op, x / 2, y / 2, k - 1);
    }
  }

  /** The defining step of Bitwise, including for x == y == 0. */
  lemma {:induction false} BitwiseUnfold(op: BitOp, x: nat, y: nat)
    ensures Bitwise(op, x, y) == 2 * Bitwise(op, x / 2, y / 2) + (if BitOf(op, x % 2 == 1, y % 2 == 1) then 1 else 0)
  {
  }

  /** Halving x0 + 2*t splits into halving x0 and t. */
  lemma {:induction false} HalfSplit(x0: nat, t: nat)
    ensures (x0 + 2 * t) / 2 == x0 / 2 + t && (x0 + 2 * t) % 2 == x0 % 2
  {
  }

  /**
   * The operation splits at bit k: the low k bits and the rest are combined
   * independently.
   */
  lemma {:induction false} BitwiseSplit(op: BitOp, x0: nat, y0: nat, x: nat, y: nat, k: nat, vx: nat, vy: nat)
    requires x0 < Pow2(k) && y0 < Pow2(k)
    requires vx == x0 + Pow2(k) * x && vy == y0 + Pow2(k) * y
    ensures Bitwise(op, vx, vy) == Bitwise(op, x0, y0) + Pow2(k) * Bitwise(op, x, y)
    decreases k
  {
    if k == 0 {
      assert x0 == 0 && y0 == 0 && vx == x && vy == y;
    } else {
      var p := Pow2(k - 1);
      MulAssoc(2, p, x);
      MulAssoc(2, p, y);
      HalfSplit(x0, p * x);
      HalfSplit(y0, p * y);
      BitwiseSplit(op, x0 / 2, y0 / 2, x, y, k - 1, vx / 2, vy / 2);
      BitwiseUnfold(op, vx, vy);
      BitwiseUnfold(op, x0, y0);
      MulAssoc(2, p, Bitwise(op, x, y));
    }
  }

  lemma {:induction false} BitwiseZero(op: BitOp)
    ensures Bitwise(op, 0, 0) == 0
  {
  }

  /** A k-bit value OR-ed with a multiple of 2^k is their sum: no bits collide. */
  lemma {:induction false} OrDisjoint(a: nat, b: nat, k: nat)
    requires a < Pow2(k)
    ensures Bitwise(OrOp, a, Pow2(k) * b) == a + Pow2(k) * b
  {
    BitwiseSplit(OrOp, a, 0, 0, b, k, a, Pow2(k) * b);
    OrZero(a);
    OrZero(b);
    assert Bitwise(OrOp, a, 0) == a;
    assert Bitwise(OrOp, 0, b) == b by {
      BitwiseSymmetric(OrOp, 0, b);
    }
    assert a + Pow2(k) * 0 == a;
    assert 0 + Pow2(k) * b == Pow2(k) * b;
  }

  lemma {:induction false} OrZero(a: nat)
    ensures Bitwise(OrOp, a, 0) == a
    decreases a
  {
    if a > 0 {
      OrZero(a / 2);
    }
  }

  /** Each of the three operations is symmetric in its operands. */
  lemma {:induction false} BitwiseSymmetric(op: BitOp, a: nat, b: nat)
    ensures Bitwise(op, a, b) == Bitwise(op, b, a)
    decreases a + b
  {
    if !(a == 0 && b == 0) {
      BitwiseSymmetric(op, a / 2, b / 2);
    }
  }

  /** Masking with 2^k - 1 keeps the low k bits: `x & (2^k - 1) == x % 2^k`. */
  lemma {:induction false} AndMask(x: nat, k: nat)
    ensures Bitwise(AndOp, x, Pow2(k) - 1) == x % Pow2(k)
  {
    AndMaskAt(x, k, Pow2(k) - 1);
  }

  /** AndMask with the mask m == 2^k - 1 named. */
  lemma {:induction false} AndMaskAt(x: nat, k: nat, m: nat)
    requires m == Pow2(k) - 1
    ensures Bitwise(AndOp, x, m) == x % Pow2(k)
    decreases k
  {
    if k > 0 {
      assert m / 2 == Pow2(k - 1) - 1 && m % 2 == 1;
      AndMaskAt(x / 2, k - 1, m / 2);
      BitwiseUnfold(AndOp, x, m);
      ModPow2Step(x, k);
    } else {
      assert m == 0;
      AndZero(x);
    }
  }

  lemma {:induction false} AndZero(x: nat)
    ensures Bitwise(AndOp, x, 0) == 0
    decreases x
  {
    if x > 0 {
      AndZero(x / 2);
    }
  }

  /** x % 2^k == 2 * ((x / 2) % 2^(k-1)) + x % 2 */
  lemma {:induction false} ModPow2Step(x: nat, k: nat)
    requires k > 0
    ensures x % Pow2(k) == 2 * ((x / 2) % Pow2(k - 1)) + x % 2
  {
    var p := Pow2(k - 1);
    var q, r := (x / 2) / p, (x / 2) % p;
    assert x / 2 == q * p + r;
    assert x == q * (2 * p) + (2 * r + x % 2);
    DivModUnique(x, 2 * p, q, 2 * r + x % 2);
  }

  /** AND never exceeds either operand. */
  lemma {:induction false} AndLe(x: nat, y: nat)
    ensures Bitwise(AndOp, x, y) <= x && Bitwise(AndOp, x, y) <= y
    decreases x + y
  {
    if !(x == 0 && y == 0) {
      AndLe(x / 2, y / 2);
    }
  }

  /** OR is at least either operand. */
  lemma {:induction false} OrGe(x: nat, y: nat)
    ensures x <= Bitwise(OrOp, x, y) && y <= Bitwise(OrOp, x, y)
    decreases x + y
  {
    if !(x == 0 && y == 0) {
      OrGe(x / 2, y / 2);
    }
  }

  /** XOR with the same value twice gives back the original. */
  lemma {:induction false} XorInvolution(x: nat, y: nat)
    ensures Bitwise(XorOp, Bitwise(XorOp, x, y), y) == x
    decreases x + y
  {
    if !(x == 0 && y == 0) {
      XorInvolution(x / 2, y / 2);
      var z := Bitwise(XorOp, x, y);
      assert z / 2 == Bitwise(XorOp, x / 2, y / 2) && z % 2 == (if (x % 2 == 1) != (y % 2 == 1) then 1 else 0);
    }
  }

  // ---------------------------------------------------------------------------
  // 32-bit words

  function Or32(x: uint32, y: uint32): (r: uint32)
    ensures r == Bitwise(OrOp, x, y)
  {
    Pow2Small();
    BitwiseBound(OrOp, x, y, 32);
    Bitwise(OrOp, x, y)
  }

  function And32(x: uint32, y: uint32): (r: uint32)
    ensures r == Bitwise(AndOp, x, y)
  {
    AndLe(x, y);
    Bitwise(AndOp, x, y)
  }

  function Xor32(x: uint32, y: uint32): (r: uint32)
    ensures r == Bitwise(XorOp, x, y)
  {
    Pow2Small();
    BitwiseBound(XorOp, x, y, 32);
    Bitwise(XorOp, x, y)
  }

  /** `~x`: every one of the 32 bits flipped, which is 2^32 - 1 - x. */
  function Not32(x: uint32): uint32
  {
    BASE - 1 - x
  }

  /** The operation on two 32-bit words. */
  function Word(op: BitOp, x: uint32, y: uint32): (r: uint32)
    ensures r == Bitwise(op, x, y)
  {
    match op
    case OrOp => Or32(x, y)
    case AndOp => And32(x, y)
    case XorOp => Xor32(x, y)
  }

  // ---------------------------------------------------------------------------
  // Limb sequences

  /**
   * The limb-wise operation on two sequences of the same length.
   */
  function Limbwise(op: BitOp, a: seq<uint32>, b: seq<uint32>): (r: seq<uint32>)
    requires |a| == |b|
    ensures |r| == |a|
    ensures forall i :: 0 <= i < |a| ==> r[i] == Word(op, a[i], b[i])
  {
    if |a| == 0 then [] else Limbwise(op, a[..|a| - 1], b[..|a| - 1]) + [Word(op, a[|a| - 1], b[|a| - 1])]
  }

  /** The limb-wise operation is the operation on the numbers the limbs denote. */
  lemma {:induction false} ValLimbwise(op: BitOp, a: seq<uint32>, b: seq<uint32>)
    requires |a| == |b|
    ensures Val(Limbwise(op, a, b)) == Bitwise(op, Val(a), Val(b))
    decreases |a|
  {
    if |a| == 0 {
      BitwiseZero(op);
    } else {
      var n := |a| - 1;
      var r := Limbwise(op, a, b);
      assert r[..n] == Limbwise(op, a[..n], b[..n]);
      ValLimbwise(op, a[..n], b[..n]);
      ValLast(a);
      ValLast(b);
      ValLast(r);
      ValBound(a[..n]);
      ValBound(b[..n]);
      PowIsPow2(n);
      LimbwiseStep(op, Val(a[..n]), Val(b[..n]), Val(r[..n]), a[n], b[n], r[n], 32 * n, Val(a), Val(b), Val(r));
    }
  }

  /** One more limb on top of both operands and of the result, with the values abstract. */
  lemma {:induction false} LimbwiseStep(op: BitOp, a0: nat, b0: nat, r0: nat, x: nat, y: nat, w: nat, k: nat, va: nat, vb: nat, vr: nat)
    requires a0 < Pow2(k) && b0 < Pow2(k) && r0 == Bitwise(op, a0, b0) && w == Bitwise(op, x, y)
    requires va == a0 + Pow2(k) * x && vb == b0 + Pow2(k) * y && vr == r0 + Pow2(k) * w
    ensures vr == Bitwise(op, va, vb)
  {
    BitwiseSplit(op, a0, b0, x, y, k, va, vb);
    MulArgs(Pow2(k), w, Pow2(k), Bitwise(op, x, y));
  }

  /** The limb-wise complement of n limbs. */
  function LimbNot(a: seq<uint32>): (r: seq<uint32>)
    ensures |r| == |a|
    ensures forall i :: 0 <= i < |a| ==> r[i] == Not32(a[i])
  {
    if |a| == 0 then [] else LimbNot(a[..|a| - 1]) + [Not32(a[|a| - 1])]
  }

  /** Complementing n limbs is subtracting from 2^(32n) - 1. */
  lemma {:induction false} ValLimbNot(a: seq<uint32>)
    ensures Val(LimbNot(a)) == Pow(|a|) - 1 - Val(a)
    decreases |a|
  {
    if |a| > 0 {
      var n := |a| - 1;
      var r := LimbNot(a);
      ValLimbNot(a[..n]);
      assert r[..n] == LimbNot(a[..n]);
      ValLast(r);
      ValLast(a);
      PowNextLimb(n);
      NotArith(Val(r[..n]), Val(a[..n]), Pow(n), Pow(n + 1), a[n]);
    }
  }

  lemma {:induction false} PowNextLimb(n: nat)
    ensures Pow(n + 1) == Pow(n) * BASE
  {
    PowAdd(n, 1);
  }

  /** The complement arithmetic of one more limb, with the weights abstract. */
  lemma {:induction false} NotArith(vr: int, va: int, p: int, p1: int, x: int)
    requires vr == p - 1 - va && p1 == p * BASE
    ensures vr + p * (BASE - 1 - x) == p1 - 1 - (va + p * x)
  {
  }

  lemma {:induction false} XorZero(a: nat)
    ensures Bitwise(XorOp, a, 0) == a
    decreases a
  {
    if a > 0 {
      XorZero(a / 2);
    }
  }

  /**
   * With b the shorter run, the operation on the numbers splits at b's length:
   * the common limbs, then the longer run's tail against zero.
   */
  lemma {:induction false} ValBitwiseTail(op: BitOp, a: seq<uint32>, b: seq<uint32>)
    requires |b| <= |a|
    ensures Bitwise(op, Val(a), Val(b)) == Bitwise(op, Val(a[..|b|]), Val(b)) + Pow(|b|) * Bitwise(op, Val(a[|b|..]), 0)
  {
    var n := |b|;
    ValSplit(a, n);
    ValBound(a[..n]);
    ValBound(b);
    PowIsPow2(n);
    BitwiseSplit(op, Val(a[..n]), Val(b), Val(a[n..]), 0, 32 * n, Val(a), Val(b) + Pow2(32 * n) * 0);
    assert Val(b) + Pow2(32 * n) * 0 == Val(b);
  }

  /** The same operation on the tail: OR and XOR keep it, AND clears it. */
  lemma {:induction false} BitwiseWithZero(op: BitOp, x: nat)
    ensures Bitwise(op, x, 0) == (if op == AndOp then 0 else x)
  {
    match op
    case OrOp => OrZero(x);
    case AndOp => AndZero(x);
    case XorOp => XorZero(x);
  }
}
