/**
 * The limb kernels every operation is built from: add with carry, subtract
 * with borrow, division by one limb, magnitude comparison, right shift and
 * the limb-wise bitwise operations.
 *
 * Operands are read as the limb runs they point at (`digitsPtr[0..length)`);
 * results are written into an array at an offset, and every kernel states
 * which cells it writes and that all others are left alone.
 */
module DigitOpHelper {
  import opened Limbs
  import opened BitOps
  import DigitHelper

  const UINT64_MOD: int := 0x1_0000_0000_0000_0000
  const BIT63: int := 0x8000_0000_0000_0000

  // ---------------------------------------------------------------------------
  // Add

  /** Whether a + b needs one limb more than the longer operand. */
  ghost predicate AddCarries(a: seq<uint32>, b: seq<uint32>)
  {
    Val(a) + Val(b) >= Pow(Max(|a|, |b|))
  }

  /**
   * Adds two limb runs. The result has the longer operand's length, plus one
   * limb exactly when a carry is left over.
   */
  method Add(a: seq<uint32>, b: seq<uint32>, res: array<uint32>, off: nat) returns (length: nat)
    requires off + Max(|a|, |b|) + (if AddCarries(a, b) then 1 else 0) <= res.Length
    modifies res
    ensures length == Max(|a|, |b|) + (if AddCarries(a, b) then 1 else 0)
    ensures Val(res[off..off + length]) == Val(a) + Val(b)
    ensures AddCarries(a, b) ==> res[off + length - 1] == 1
    ensures forall k :: 0 <= k < off || off + length <= k < res.Length ==> res[k] == old(res[k])
  {
    // the first operand must be the longer one: swap
    if |a| < |b| {
      length := AddOrdered(b, a, res, off);
    } else {
      length := AddOrdered(a, b, res, off);
    }
  }

  /** Add with the longer operand first, as the source arranges it. */
  method AddOrdered(x: seq<uint32>, y: seq<uint32>, res: array<uint32>, off: nat) returns (length: nat)
    requires |y| <= |x| && off + |x| + (if Val(x) + Val(y) >= Pow(|x|) then 1 else 0) <= res.Length
    modifies res
    ensures length == |x| + (if Val(x) + Val(y) >= Pow(|x|) then 1 else 0)
    ensures Val(res[off..off + length]) == Val(x) + Val(y)
    ensures Val(x) + Val(y) >= Pow(|x|) ==> res[off + length - 1] == 1
    ensures forall k :: 0 <= k < off || off + length <= k < res.Length ==> res[k] == old(res[k])
  {
    ghost var sum := Val(x) + Val(y);
    var c := AddLimbs(x, y, res, off);
    length := StoreCarry(res, off, |x|, c, sum);
  }

  /** The two loops of Add: the limbs of the sum as long as x, and the carry out of them. */
  method AddLimbs(x: seq<uint32>, y: seq<uint32>, res: array<uint32>, off: nat) returns (c: uint64)
    requires |y| <= |x| && off + |x| <= res.Length
    modifies res
    ensures c <= 1
    ensures Val(res[off..off + |x|]) + c * Pow(|x|) == Val(x) + Val(y)
    ensures forall k :: 0 <= k < off || off + |x| <= k < res.Length ==> res[k] == old(res[k])
  {
    c := AddCommon(x, y, res, off);
    c := AddTail(x, |y|, Val(y), c, res, off);
  }

  /**
   * The end of Add: a carry-out becomes one more limb. The carry is left
   * exactly when the sum does not fit in n limbs.
   */
  method StoreCarry(res: array<uint32>, off: nat, n: nat, c: uint64, ghost sum: int) returns (length: nat)
    requires c <= 1 && off + n <= res.Length
    requires Val(res[off..off + n]) + c * Pow(n) == sum
    requires sum >= Pow(n) ==> off + n + 1 <= res.Length
    modifies res
    ensures length == n + (if sum >= Pow(n) then 1 else 0)
    ensures Val(res[off..off + length]) == sum
    ensures sum >= Pow(n) ==> res[off + length - 1] == 1
    ensures forall k :: 0 <= k < off || off + length <= k < res.Length ==> res[k] == old(res[k])
  {
    length := n;
    ghost var r := res[off..off + n];
    ghost var v, p := Val(r), Pow(n);
    ValBound(r);
    CarryIffOverflow(v, c, p, sum);
    if c != 0 {
      res[off + n] := 1;
      ghost var t := res[off..off + n + 1];
      assert t[..n] == r && t[n] == 1;
      ValLast(t);
    }
    length := n + c as nat;
  }

  /** A carry-out is left exactly when the sum reaches the next limb weight. */
  lemma {:induction false} CarryIffOverflow(v: int, c: int, p: int, sum: int)
    requires 0 <= v < p && (c == 0 || c == 1) && v + c * p == sum
    ensures c == 1 <==> sum >= p
    ensures c == 1 ==> v + p == sum
    ensures c == 0 ==> v == sum
  {
  }

  /** The first loop of Add: the limbs both operands have, with the running carry. */
  method AddCommon(x: seq<uint32>, y: seq<uint32>, res: array<uint32>, off: nat) returns (c: uint64)
    requires |y| <= |x| && off + |x| <= res.Length
    modifies res
    ensures c <= 1
    ensures Val(res[off..off + |y|]) + c * Pow(|y|) == Val(x[..|y|]) + Val(y)
    ensures forall k :: 0 <= k < off || off + |y| <= k < res.Length ==> res[k] == old(res[k])
  {
    c := 0;
    var i := 0;
    while i < |y|
      invariant i <= |y|
      invariant c <= 1
      invariant Val(res[off..off + i]) + c * Pow(i) == Val(x[..i]) + Val(y[..i])
      invariant forall k :: 0 <= k < off || off + i <= k < res.Length ==> res[k] == old(res[k])
    {
      var j := i + 1;
      c := AddCommonStep(x, y, i, j, c, res, off);
      i := j;
    }
    assert y[..i] == y;
  }

  /** One pass of the AddCommon loop: limb i of both operands plus the carry. */
  method AddCommonStep(x: seq<uint32>, y: seq<uint32>, i: nat, j: nat, c0: uint64, res: array<uint32>, off: nat)
    returns (c: uint64)
    requires i < |y| <= |x| && j == i + 1 && off + |x| <= res.Length && c0 <= 1
    requires Val(res[off..off + i]) + c0 * Pow(i) == Val(x[..i]) + Val(y[..i])
    modifies res
    ensures c <= 1
    ensures Val(res[off..off + j]) + c * Pow(j) == Val(x[..j]) + Val(y[..j])
    ensures forall k :: 0 <= k < off + i || off + j <= k < res.Length ==> res[k] == old(res[k])
  {
    ghost var r := res[off..off + i];
    var t: uint64 := c0 + x[i] + y[i];
    res[off + i] := t % BASE;
    AddLimbStep(r, x, y, i, c0, t % BASE, t / BASE);
    ValSnoc(res[off..off + j], r);
    c := t / BASE;
  }

  /** The second loop of Add: the longer operand's remaining limbs plus the carry. */
  method AddTail(x: seq<uint32>, from: nat, vy: nat, c0: uint64, res: array<uint32>, off: nat) returns (c: uint64)
    requires from <= |x| && off + |x| <= res.Length && c0 <= 1
    requires Val(res[off..off + from]) + c0 * Pow(from) == Val(x[..from]) + vy
    modifies res
    ensures c <= 1
    ensures Val(res[off..off + |x|]) + c * Pow(|x|) == Val(x) + vy
    ensures forall k :: 0 <= k < off || off + |x| <= k < res.Length ==> res[k] == old(res[k])
  {
    c := c0;
    var i := from;
    while i < |x|
      invariant from <= i <= |x|
      invariant c <= 1
      invariant Val(res[off..off + i]) + c * Pow(i) == Val(x[..i]) + vy
      invariant forall k :: 0 <= k < off || off + i <= k < res.Length ==> res[k] == old(res[k])
    {
      var j := i + 1;
      c := AddTailStep(x, i, j, vy, c, res, off);
      i := j;
    }
    assert x[..i] == x;
  }

  /** One pass of the AddTail loop: limb i of the longer operand plus the carry. */
  method AddTailStep(x: seq<uint32>, i: nat, j: nat, vy: nat, c0: uint64, res: array<uint32>, off: nat) returns (c: uint64)
    requires i < |x| && j == i + 1 && off + |x| <= res.Length && c0 <= 1
    requires Val(res[off..off + i]) + c0 * Pow(i) == Val(x[..i]) + vy
    modifies res
    ensures c <= 1
    ensures Val(res[off..off + j]) + c * Pow(j) == Val(x[..j]) + vy
    ensures forall k :: 0 <= k < off + i || off + j <= k < res.Length ==> res[k] == old(res[k])
  {
    ghost var r := res[off..off + i];
    var t: uint64 := c0 + x[i];
    res[off + i] := t % BASE;
    CarryLimbStep(r, x, i, vy, c0, t % BASE, t / BASE);
    ValSnoc(res[off..off + i + 1], r);
    c := t / BASE;
  }

  /** One step of the first add loop: limb i of both operands and the carry. */
  lemma {:induction false} AddLimbStep(r: seq<uint32>, x: seq<uint32>, y: seq<uint32>, i: nat, c: int, d: uint32, c2: int)
    requires i < |x| && i < |y| && |r| == i
    requires Val(r) + c * Pow(i) == Val(x[..i]) + Val(y[..i])
    requires c + x[i] + y[i] == d + BASE * c2
    ensures Val(r + [d]) + c2 * Pow(i + 1) == Val(x[..i + 1]) + Val(y[..i + 1])
  {
    PrefixLast(x, i);
    PrefixLast(y, i);
    ValAppend(r, d);
    CarryArith(Val(r), Val(x[..i]), Val(y[..i]), Pow(i), c, x[i], y[i], d, c2, Pow(i + 1));
  }

  /** One step of the second add loop: only the longer operand and the carry. */
  lemma {:induction false} CarryLimbStep(r: seq<uint32>, x: seq<uint32>, i: nat, vy: int, c: int, d: uint32, c2: int)
    requires i < |x| && |r| == i
    requires Val(r) + c * Pow(i) == Val(x[..i]) + vy
    requires c + x[i] == d + BASE * c2
    ensures Val(r + [d]) + c2 * Pow(i + 1) == Val(x[..i + 1]) + vy
  {
    PrefixLast(x, i);
    ValAppend(r, d);
    CarryArith(Val(r), Val(x[..i]), vy, Pow(i), c, x[i], 0, d, c2, Pow(i + 1));
  }

  /** The carry arithmetic of one add step, with the limb weight p abstract. */
  lemma {:induction false} CarryArith(vr: int, vx: int, vy: int, p: int, c: int, xi: int, yi: int, d: int, c2: int, p1: int)
    requires vr + c * p == vx + vy && c + xi + yi == d + BASE * c2 && p1 == BASE * p
    ensures vr + d * p + c2 * p1 == (vx + p * xi) + (vy + p * yi)
  {
    assert d * p + c2 * p1 == (d + BASE * c2) * p;
    assert (c + xi + yi) * p == c * p + p * xi + p * yi;
  }

  // ---------------------------------------------------------------------------
  // Sub

  /**
   * Subtracts b from a; the borrow is kept the way the source keeps it, as
   * bit 63 of a 64-bit difference. Nothing checks that a >= b: a smaller a
   * leaves the difference wrapped modulo BASE^|a|. The length returned is
   * the real length of the difference.
   */
  method Sub(a: seq<uint32>, b: seq<uint32>, res: array<uint32>, off: nat) returns (length: nat)
    requires |b| <= |a|
    requires off + |a| <= res.Length
    modifies res
    ensures length <= |a|
    ensures Val(res[off..off + length]) == (Val(a) - Val(b)) % Pow(|a|)
    ensures Val(b) <= Val(a) ==> Val(res[off..off + length]) == Val(a) - Val(b)
    ensures Trimmed(res[off..off + length]) && AllZero(res[off + length..off + |a|])
    ensures forall k :: 0 <= k < off || off + |a| <= k < res.Length ==> res[k] == old(res[k])
  {
    SubLimbs(a, b, res, off);
    length := TrimmedLength(res, off, |a|);
  }

  /** The two loops of Sub: the |a| limbs of the difference, wrapped when b is the larger. */
  method SubLimbs(a: seq<uint32>, b: seq<uint32>, res: array<uint32>, off: nat)
    requires |b| <= |a|
    requires off + |a| <= res.Length
    modifies res
    ensures Val(res[off..off + |a|]) == (Val(a) - Val(b)) % Pow(|a|)
    ensures Val(b) <= Val(a) ==> Val(res[off..off + |a|]) == Val(a) - Val(b)
    ensures forall k :: 0 <= k < off || off + |a| <= k < res.Length ==> res[k] == old(res[k])
  {
    var c := SubCommon(a, b, res, off);
    c := SubTail(a, |b|, Val(b), c, res, off);
    WrappedDifference(a, b, res[off..off + |a|], c);
  }

  /** The |a| limbs of a - b with the final borrow c: the difference modulo BASE^|a|. */
  lemma {:induction false} WrappedDifference(a: seq<uint32>, b: seq<uint32>, r: seq<uint32>, c: int)
    requires |b| <= |a| == |r| && (c == 0 || c == 1)
    requires Val(r) == Val(a) - Val(b) + c * Pow(|a|)
    ensures Val(r) == (Val(a) - Val(b)) % Pow(|a|)
    ensures Val(b) <= Val(a) ==> Val(r) == Val(a) - Val(b)
  {
    ValBound(r);
    ValBound(a);
    ValBound(b);
    PowMonotone(|b|, |a|);
    FinalBorrow(Val(r), Val(a) - Val(b), c, Pow(|a|));
  }

  /**
   * The last borrow of a subtraction over a width p: none when a >= b, and
   * one when a < b, which leaves the difference plus p.
   */
  lemma {:induction false} FinalBorrow(v: int, d: int, c: int, p: int)
    requires 0 <= v < p && -p < d < p && (c == 0 || c == 1) && v == d + c * p
    ensures v == d % p
    ensures d >= 0 <==> c == 0
  {
  }

  /** The real length of res[off..off+n], with the slices it splits into. */
  method TrimmedLength(res: array<uint32>, off: nat, n: nat) returns (length: nat)
    requires off + n <= res.Length
    ensures length <= n
    ensures Val(res[off..off + length]) == Val(res[off..off + n])
    ensures Trimmed(res[off..off + length]) && AllZero(res[off + length..off + n])
  {
    var r := res[off..off + n];
    assert r[..n] == r;
    length := DigitHelper.GetRealDigitsLength(r, n);
    assert r[..length] == res[off..off + length];
    assert r[length..n] == res[off + length..off + n];
  }

  /** The first loop of Sub: the limbs of b, with the running borrow. */
  method SubCommon(a: seq<uint32>, b: seq<uint32>, res: array<uint32>, off: nat) returns (c: uint64)
    requires |b| <= |a| && off + |a| <= res.Length
    modifies res
    ensures c <= 1
    ensures Val(res[off..off + |b|]) == Val(a[..|b|]) - Val(b) + c * Pow(|b|)
    ensures forall k :: 0 <= k < off || off + |b| <= k < res.Length ==> res[k] == old(res[k])
  {
    c := 0;
    var i := 0;
    while i < |b|
      invariant i <= |b|
      invariant c <= 1
      invariant Val(res[off..off + i]) == Val(a[..i]) - Val(b[..i]) + c * Pow(i)
      invariant forall k :: 0 <= k < off || off + i <= k < res.Length ==> res[k] == old(res[k])
    {
      var j := i + 1;
      c := SubStep(a, b, i, j, c, res, off);
      i := j;
    }
    assert b[..i] == b;
  }

  /** One pass of the SubCommon loop: limb i of both operands and the borrow. */
  method SubStep(a: seq<uint32>, b: seq<uint32>, i: nat, j: nat, c0: uint64, res: array<uint32>, off: nat) returns (c: uint64)
    requires i < |b| <= |a| && j == i + 1 && off + |a| <= res.Length && c0 <= 1
    requires Val(res[off..off + i]) == Val(a[..i]) - Val(b[..i]) + c0 * Pow(i)
    modifies res
    ensures c <= 1
    ensures Val(res[off..off + j]) == Val(a[..j]) - Val(b[..j]) + c * Pow(j)
    ensures forall k :: 0 <= k < off + i || off + j <= k < res.Length ==> res[k] == old(res[k])
  {
    ghost var r := res[off..off + i];
    var t: uint64 := (a[i] - b[i] - c0) % UINT64_MOD;
    res[off + i] := t % BASE;
    BorrowWord(a[i] - b[i] - c0, t, t % BASE, t / BIT63);
    SubLimbStep(r, a, b, i, c0, t % BASE, t / BIT63);
    ValSnoc(res[off..off + j], r);
    c := t / BIT63;
  }

  /** The second loop of Sub: the remaining limbs of a, with the borrow. */
  method SubTail(a: seq<uint32>, from: nat, vb: nat, c0: uint64, res: array<uint32>, off: nat) returns (c: uint64)
    requires from <= |a| && off + |a| <= res.Length && c0 <= 1
    requires Val(res[off..off + from]) == Val(a[..from]) - vb + c0 * Pow(from)
    modifies res
    ensures c <= 1
    ensures Val(res[off..off + |a|]) == Val(a) - vb + c * Pow(|a|)
    ensures forall k :: 0 <= k < off || off + |a| <= k < res.Length ==> res[k] == old(res[k])
  {
    c := c0;
    var i := from;
    while i < |a|
      invariant from <= i <= |a|
      invariant c <= 1
      invariant Val(res[off..off + i]) == Val(a[..i]) - vb + c * Pow(i)
      invariant forall k :: 0 <= k < off || off + i <= k < res.Length ==> res[k] == old(res[k])
    {
      var j := i + 1;
      c := SubTailStep(a, i, j, vb, c, res, off);
      i := j;
    }
    assert a[..i] == a;
  }

  /** One pass of the SubTail loop: limb i of the minuend and the borrow. */
  method SubTailStep(a: seq<uint32>, i: nat, j: nat, vb: nat, c0: uint64, res: array<uint32>, off: nat) returns (c: uint64)
    requires i < |a| && j == i + 1 && off + |a| <= res.Length && c0 <= 1
    requires Val(res[off..off + i]) == Val(a[..i]) - vb + c0 * Pow(i)
    modifies res
    ensures c <= 1
    ensures Val(res[off..off + j]) == Val(a[..j]) - vb + c * Pow(j)
    ensures forall k :: 0 <= k < off + i || off + j <= k < res.Length ==> res[k] == old(res[k])
  {
    ghost var r := res[off..off + i];
    var t: uint64 := (a[i] - c0) % UINT64_MOD;
    res[off + i] := t % BASE;
    BorrowWord(a[i] - c0, t, t % BASE, t / BIT63);
    BorrowLimbStep(r, a, i, vb, c0, t % BASE, t / BIT63);
    ValSnoc(res[off..off + i + 1], r);
    c := t / BIT63;
  }

  /**
   * A 64-bit wrapped difference v (with -2^32 <= v < 2^32): its low word is v
   * modulo 2^32 and its bit 63 is set exactly when v is negative.
   */
  lemma {:induction false} BorrowWord(v: int, t: int, d: int, c2: int)
    requires -BASE <= v < BASE
    requires t == v % UINT64_MOD && d == t % BASE && c2 == t / BIT63
    ensures c2 == (if v < 0 then 1 else 0)
    ensures d == v + BASE * c2
  {
    if v >= 0 {
      ModSmall(v, UINT64_MOD);
      ModSmall(v, BASE);
      DivModUnique(v, BIT63, 0, v);
    } else {
      DivModUnique(v, UINT64_MOD, -1, v + UINT64_MOD);
      DivModUnique(v + UINT64_MOD, BASE, BASE - 1, v + BASE);
      DivModUnique(v + UINT64_MOD, BIT63, 1, v + UINT64_MOD - BIT63);
    }
  }

  /** One step of the first subtract loop: limb i of both operands and the borrow c. */
  lemma {:induction false} SubLimbStep(r: seq<uint32>, x: seq<uint32>, y: seq<uint32>, i: nat, c: int, d: uint32, c2: int)
    requires i < |x| && i < |y| && |r| == i
    requires Val(r) == Val(x[..i]) - Val(y[..i]) + c * Pow(i)
    requires d == x[i] - y[i] - c + BASE * c2
    ensures Val(r + [d]) == Val(x[..i + 1]) - Val(y[..i + 1]) + c2 * Pow(i + 1)
  {
    PrefixLast(x, i);
    PrefixLast(y, i);
    ValAppend(r, d);
    BorrowArith(Val(r), Val(x[..i]), Val(y[..i]), Pow(i), c, x[i], y[i], d, c2, Pow(i + 1));
  }

  /** One step of the second subtract loop: only the longer operand and the borrow. */
  lemma {:induction false} BorrowLimbStep(r: seq<uint32>, x: seq<uint32>, i: nat, vy: int, c: int, d: uint32, c2: int)
    requires i < |x| && |r| == i
    requires Val(r) == Val(x[..i]) - vy + c * Pow(i)
    requires d == x[i] - c + BASE * c2
    ensures Val(r + [d]) == Val(x[..i + 1]) - vy + c2 * Pow(i + 1)
  {
    PrefixLast(x, i);
    ValAppend(r, d);
    BorrowArith(Val(r), Val(x[..i]), vy, Pow(i), c, x[i], 0, d, c2, Pow(i + 1));
  }

  /** The borrow arithmetic of one subtract step, with the limb weight p abstract. */
  lemma {:induction false} BorrowArith(vr: int, vx: int, vy: int, p: int, c: int, xi: int, yi: int, d: int, c2: int, p1: int)
    requires vr == vx - vy + c * p && d == xi - yi - c + BASE * c2 && p1 == BASE * p
    ensures vr + d * p == (vx + p * xi) - (vy + p * yi) + c2 * p1
  {
    assert d * p == xi * p - yi * p - c * p + c2 * (BASE * p);
  }

  // ---------------------------------------------------------------------------
  // Division by one limb

  /**
   * Divides a limb run by a one-limb divisor, from the top limb down. The
   * quotient limbs go to divRes[off..off+|a|) and the remainder is returned.
   * The returned length drops the top quotient limb when it is zero.
   */
  method DivMod(a: seq<uint32>, d: uint32, divRes: array<uint32>, off: nat) returns (length: nat, modRes: uint32)
    requires d > 0 && |a| >= 1 && off + |a| <= divRes.Length
    modifies divRes
    ensures length == |a| - (if divRes[off + |a| - 1] == 0 then 1 else 0)
    ensures Val(divRes[off..off + length]) == Val(a) / d
    ensures modRes == Val(a) % d
    ensures forall k :: 0 <= k < off || off + |a| <= k < divRes.Length ==> divRes[k] == old(divRes[k])
  {
    var c := DivModLimbs(a, d, divRes, off);
    modRes := c;
    QuotientLength(a, d, divRes[off..off + |a|], c);
    length := |a| - (if divRes[off + |a| - 1] == 0 then 1 else 0);
    assert divRes[off..off + |a|][..length] == divRes[off..off + length];
  }

  /** The division loop: quotient limbs from the top down, with the running remainder. */
  method DivModLimbs(a: seq<uint32>, d: uint32, divRes: array<uint32>, off: nat) returns (c: uint64)
    requires d > 0 && off + |a| <= divRes.Length
    modifies divRes
    ensures c < d && Val(a) == Val(divRes[off..off + |a|]) * d + c
    ensures forall k :: 0 <= k < off || off + |a| <= k < divRes.Length ==> divRes[k] == old(divRes[k])
  {
    c := 0;
    var i := |a|;
    while i > 0
      invariant 0 <= i <= |a| && c < d
      invariant Val(a[i..]) == Val(divRes[off + i..off + |a|]) * d + c
      invariant forall k :: 0 <= k < off + i || off + |a| <= k < divRes.Length ==> divRes[k] == old(divRes[k])
    {
      ghost var q0 := divRes[off + i..off + |a|];
      var t := c * BASE + a[i - 1];
      var res := t / d;
      DivStep(c, a[i - 1], d, Val(q0), res, t - res * d);
      ghost var c0 := c;
      c := t - res * d;
      divRes[off + i - 1] := res;
      assert divRes[off + i - 1..off + |a|] == [res as uint32] + q0;
      DivLimbStep(a, i, q0, d, c0, res, c);
      i := i - 1;
    }
    assert a[0..] == a && divRes[off..off + |a|][0..] == divRes[off..off + |a|];
  }

  /** The long-division invariant moves one limb down. */
  lemma {:induction false} DivLimbStep(a: seq<uint32>, i: nat, q0: seq<uint32>, d: int, c: int, res: uint32, c2: int)
    requires 0 < i <= |a| && 0 <= c < d && d < BASE
    requires Val(a[i..]) == Val(q0) * d + c
    requires res == (c * BASE + a[i - 1]) / d && c2 == c * BASE + a[i - 1] - res * d
    ensures Val(a[i - 1..]) == Val([res] + q0) * d + c2
  {
    assert a[i - 1..][1..] == a[i..];
    assert ([res] + q0)[1..] == q0;
    ValHead([res] + q0);
    ValHead(a[i - 1..]);
    DivStep(c, a[i - 1], d, Val(q0), res, c2);
  }

  /**
   * One step of the long division: bringing down limb x under the running
   * remainder c < d. The new quotient limb fits a word, the new remainder
   * stays below d, and "value == quotient * d + remainder" is kept.
   */
  lemma {:induction false} DivStep(c: int, x: uint32, d: int, v: int, q: int, r: int)
    requires 0 <= c < d && d < BASE
    requires q == (c * BASE + x) / d && r == c * BASE + x - q * d
    ensures 0 <= q < BASE && 0 <= r < d
    ensures x + BASE * (v * d + c) == (q + BASE * v) * d + r
  {
    var t := c * BASE + x;
    assert t == q * d + t % d;
    assert t < d * BASE by {
      MulLe(c + 1, d, BASE);
    }
    if q >= BASE {
      MulLe(BASE, q, d);
      assert false;
    }
    assert x + BASE * (v * d + c) == t + (BASE * v) * d;
  }

  /** The quotient run and remainder are Val(a) / d and Val(a) % d, and its top limb may be dropped when zero. */
  lemma {:induction false} QuotientLength(a: seq<uint32>, d: uint32, q: seq<uint32>, c: int)
    requires d > 0 && |a| >= 1 && |q| == |a| && 0 <= c < d
    requires Val(a) == Val(q) * d + c
    ensures Val(q) == Val(a) / d && c == Val(a) % d
    ensures Val(q[..|q| - (if q[|q| - 1] == 0 then 1 else 0)]) == Val(q)
  {
    DivModUnique(Val(a), d, Val(q), c);
    if q[|q| - 1] == 0 {
      ValLast(q);
      assert Pow(|q| - 1) * q[|q| - 1] == 0;
    } else {
      assert q[..|q|] == q;
    }
  }

  /** The remainder of a limb run divided by a one-limb divisor; nothing else is written. */
  method Mod(a: seq<uint32>, d: uint32) returns (r: uint32)
    requires d > 0
    ensures r == Val(a) % d
  {
    var c: uint64 := 0;
    var i := |a|;
    ghost var quot: nat := 0;
    while i > 0
      invariant 0 <= i <= |a| && c < d
      invariant Val(a[i..]) == quot * d + c
    {
      var res := (c * BASE + a[i - 1]) / d;
      DivStep(c, a[i - 1], d, quot, res, c * BASE + a[i - 1] - res * d);
      c := c * BASE + a[i - 1] - res * d;
      assert a[i - 1..][1..] == a[i..];
      ValHead(a[i - 1..]);
      quot := res + BASE * quot;
      i := i - 1;
    }
    assert a[0..] == a;
    DivModUnique(Val(a), d, quot, c);
    r := c;
  }

  // ---------------------------------------------------------------------------
  // Comparison

  /** The sign of an integer: -1, 0 or 1. */
  function Sign(x: int): int
  {
    if x < 0 then -1 else if x > 0 then 1 else 0
  }

  /**
   * Compares two lengths: -2 means "equal and non-zero, look at the limbs";
   * otherwise the sign of length1 - length2.
   */
  function CmpLen(length1: nat, length2: nat): (r: int)
    ensures r == -2 <==> length1 == length2 && length1 != 0
    ensures r != -2 ==> r == Sign(length1 - length2)
  {
    if length1 < length2 then -1
    else if length1 > length2 then 1
    else if length1 == 0 then 0
    else -2
  }

  /**
   * Compares two magnitudes by length first, then limb by limb from the top.
   * For trimmed runs this is the sign of Val(a) - Val(b).
   */
  method Cmp(a: seq<uint32>, b: seq<uint32>) returns (res: int)
    ensures |a| != |b| ==> res == Sign(|a| - |b|)
    ensures |a| == |b| ==> res == Sign(Val(a) - Val(b))
    ensures Trimmed(a) && Trimmed(b) ==> res == Sign(Val(a) - Val(b))
  {
    res := CmpLen(|a|, |b|);
    if res != -2 {
      if |a| < |b| && Trimmed(a) && Trimmed(b) {
        ValLengthOrder(a, b);
      } else if |b| < |a| && Trimmed(a) && Trimmed(b) {
        ValLengthOrder(b, a);
      }
      return;
    }
    var i := |a|;
    while i > 0
      invariant 0 <= i <= |a|
      invariant a[i..] == b[i..]
    {
      if a[i - 1] != b[i - 1] {
        if a[i - 1] < b[i - 1] {
          ValCompareAt(a, b, i - 1);
          return -1;
        } else {
          ValCompareAt(b, a, i - 1);
          return 1;
        }
      }
      assert a[i - 1..] == [a[i - 1]] + a[i..];
      assert b[i - 1..] == [b[i - 1]] + b[i..];
      i := i - 1;
    }
    assert a == a[0..] && b == b[0..];
    res := 0;
  }

  // ---------------------------------------------------------------------------
  // Right shift

  /**
   * Shifts the limb run `src` right by `rightShift` bits (0..31) into
   * res[resOff..). The top result limb is written only when it is non-zero;
   * the returned length says which. With `resHasOffset` the bits shifted out
   * of src[0] are kept, as the high bits of res[resOff - 1].
   */
  method Shr(src: seq<uint32>, res: array<uint32>, resOff: nat, rightShift: nat, resHasOffset: bool) returns (length: nat)
    requires rightShift <= 31
    requires resHasOffset ==> 1 <= rightShift && 1 <= resOff
    requires rightShift != 0 || resHasOffset ==> |src| >= 1
    requires rightShift == 0 ==> resOff + |src| <= res.Length
    requires rightShift != 0 ==> resOff + ShrLength(src, rightShift) <= res.Length
    modifies res
    ensures length == (if rightShift != 0 && Shr32(src[|src| - 1], rightShift) == 0 then |src| - 1 else |src|)
    ensures Val(res[resOff..resOff + length]) == Val(src) / Pow2(rightShift)
    ensures Trimmed(src) ==> Trimmed(res[resOff..resOff + length])
    ensures resHasOffset ==> res[resOff - 1] == Shl32(src[0], 32 - rightShift)
    ensures resHasOffset ==> Val(res[resOff - 1..resOff + length]) == Val(src) * Pow2(32 - rightShift)
    ensures forall k :: 0 <= k < res.Length && !(resOff - (if resHasOffset then 1 else 0) <= k < resOff + length) ==> res[k] == old(res[k])
  {
    if resHasOffset {
      res[resOff - 1] := Shl32(src[0], 32 - rightShift);
    }
    if rightShift == 0 {
      DigitHelper.DigitsBlockCopy(src, res, resOff, |src|);
      assert src[..|src|] == src;
      length := |src|;
      assert Pow2(0) == 1;
    } else {
      length := ShrShifted(src, res, resOff, rightShift);
      if resHasOffset {
        assert res[resOff - 1..resOff + length][1..] == res[resOff..resOff + length];
        ShrOffsetValue(src, res[resOff - 1..resOff + length], rightShift);
      }
    }
  }

  /** How many limbs a right shift by s (1..31) of a non-empty run leaves. */
  function ShrLength(src: seq<uint32>, s: nat): (n: nat)
    requires |src| >= 1
    ensures n == |src| || n == |src| - 1
    ensures n == |src| - 1 <==> Shr32(src[|src| - 1], s) == 0
  {
    if Shr32(src[|src| - 1], s) == 0 then |src| - 1 else |src|
  }

  /**
   * Shr of the run digits[offset..offset + length) into res[resOff..): the
   * bits shifted out of its lowest limb are kept, in res[resOff - 1],
   * exactly when resOff is not 0. The source returns no length; the ghost n
   * names the one written.
   */
  method ShrAt(digits: seq<uint32>, offset: nat, length: nat, res: array<uint32>, resOff: nat, rightShift: nat)
    returns (ghost n: nat)
    requires offset + length <= |digits| && 1 <= length
    requires 1 <= rightShift <= 31
    requires resOff + ShrLength(digits[offset..offset + length], rightShift) <= res.Length
    modifies res
    ensures n == ShrLength(digits[offset..offset + length], rightShift)
    ensures Val(res[resOff..resOff + n]) == Val(digits[offset..offset + length]) / Pow2(rightShift)
    ensures resOff != 0 ==> Val(res[resOff - 1..resOff + n]) == Val(digits[offset..offset + length]) * Pow2(32 - rightShift)
    ensures forall k :: 0 <= k < res.Length && !(resOff - (if resOff != 0 then 1 else 0) <= k < resOff + n) ==> res[k] == old(res[k])
  {
    n := Shr(digits[offset..offset + length], res, resOff, rightShift, resOff != 0);
  }

  /** The shift proper, for 1 <= s <= 31: all limbs, the top one only when non-zero. */
  method ShrShifted(src: seq<uint32>, res: array<uint32>, resOff: nat, s: nat) returns (length: nat)
    requires 1 <= s <= 31 && |src| >= 1 && resOff + ShrLength(src, s) <= res.Length
    modifies res
    ensures length == (if Shr32(src[|src| - 1], s) == 0 then |src| - 1 else |src|)
    ensures Val(res[resOff..resOff + length]) == Val(src) / Pow2(s)
    ensures Trimmed(src) ==> Trimmed(res[resOff..resOff + length])
    ensures forall k :: 0 <= k < resOff || resOff + length <= k < res.Length ==> res[k] == old(res[k])
  {
    ShrLimbs(src, res, resOff, s);
    ghost var r := res[resOff..resOff + |src| - 1];
    length := StoreTop(res, resOff, resOff + |src| - 1, Shr32(src[|src| - 1], s), r);
    ShrTop(src, s, r, res[resOff..resOff + length]);
  }

  /** Stores the top limb of a shift at res[hi] unless it is zero. */
  method StoreTop(res: array<uint32>, lo: nat, hi: nat, last: uint32, ghost r: seq<uint32>) returns (length: nat)
    requires lo <= hi <= res.Length && (last != 0 ==> hi < res.Length) && res[lo..hi] == r
    modifies res
    ensures length == (if last != 0 then hi - lo + 1 else hi - lo)
    ensures res[lo..lo + length] == if last != 0 then r + [last] else r
    ensures forall k :: 0 <= k < res.Length && (k != hi || last == 0) ==> res[k] == old(res[k])
  {
    if last != 0 {
      res[hi] := last;
      length := hi - lo + 1;
      assert res[lo..lo + length] == r + [last];
    } else {
      length := hi - lo;
    }
  }

  /** Adding the top limb, or leaving it out when it is zero, completes the shift. */
  lemma {:induction false} ShrTop(src: seq<uint32>, s: nat, r: seq<uint32>, result: seq<uint32>)
    requires 1 <= s <= 31 && |src| >= 1 && |r| == |src| - 1
    requires Val(r) + Pow(|src| - 1) * (src[|src| - 1] / Pow2(s)) == Val(src) / Pow2(s)
    requires result == if Shr32(src[|src| - 1], s) != 0 then r + [Shr32(src[|src| - 1], s)] else r
    ensures Val(result) == Val(src) / Pow2(s)
    ensures Trimmed(src) ==> Trimmed(result)
  {
    var last := Shr32(src[|src| - 1], s);
    if last != 0 {
      ValAppend(r, last);
      MulComm(last, Pow(|src| - 1));
    }
    if Trimmed(src) {
      ShrKeepsTrimmed(src, result, s);
    }
  }

  /**
   * All limbs but the top one: res[resOff + i] gets the high bits of src[i]
   * and the low bits of src[i + 1].
   */
  method ShrLimbs(src: seq<uint32>, res: array<uint32>, resOff: nat, s: nat)
    requires 1 <= s <= 31 && |src| >= 1 && resOff + |src| - 1 <= res.Length
    modifies res
    ensures Val(res[resOff..resOff + |src| - 1]) + Pow(|src| - 1) * (src[|src| - 1] / Pow2(s)) == Val(src) / Pow2(s)
    ensures forall k :: 0 <= k < resOff || resOff + |src| - 1 <= k < res.Length ==> res[k] == old(res[k])
  {
    var i := 0;
    assert src[..1] == [src[0]];
    ValSingle(src[0]);
    while i < |src| - 1
      invariant i <= |src| - 1
      invariant Val(res[resOff..resOff + i]) + Pow(i) * (src[i] / Pow2(s)) == Val(src[..i + 1]) / Pow2(s)
      invariant forall k :: 0 <= k < resOff || resOff + i <= k < res.Length ==> res[k] == old(res[k])
    {
      var j := i + 1;
      ShrLimb(src, res, resOff, s, i, j);
      i := j;
    }
    assert src[..i + 1] == src;
  }

  /** One pass of the ShrLimbs loop: limb i of the result from limbs i and i + 1 of the source. */
  method ShrLimb(src: seq<uint32>, res: array<uint32>, resOff: nat, s: nat, i: nat, j: nat)
    requires 1 <= s <= 31 && j == i + 1 && j < |src| && resOff + |src| - 1 <= res.Length
    requires Val(res[resOff..resOff + i]) + Pow(i) * (src[i] / Pow2(s)) == Val(src[..j]) / Pow2(s)
    modifies res
    ensures Val(res[resOff..resOff + j]) + Pow(j) * (src[j] / Pow2(s)) == Val(src[..j + 1]) / Pow2(s)
    ensures forall k :: 0 <= k < resOff + i || resOff + j <= k < res.Length ==> res[k] == old(res[k])
  {
    ghost var r := res[resOff..resOff + i];
    var w := Or32(Shr32(src[i], s), Shl32(src[j], 32 - s));
    res[resOff + i] := w;
    assert res[resOff..resOff + j] == r + [w];
    ShrLimbStep(src, i, j, s, r, w);
  }

  /** One limb of the shift loop keeps its invariant. */
  lemma {:induction false} ShrLimbStep(src: seq<uint32>, i: nat, j: nat, s: nat, r: seq<uint32>, w: uint32)
    requires 1 <= s <= 31 && j == i + 1 && j < |src| && |r| == i
    requires Val(r) + Pow(i) * (src[i] / Pow2(s)) == Val(src[..j]) / Pow2(s)
    requires w == Or32(Shr32(src[i], s), Shl32(src[j], 32 - s))
    ensures Val(r + [w]) + Pow(j) * (src[j] / Pow2(s)) == Val(src[..j + 1]) / Pow2(s)
  {
    SplitBase(s);
    ShrWord(src[i], src[j], s);
    ValAppend(r, w);
    PrefixLast(src, j);
    PowNext(i);
    ShrArith(Val(r), Pow(i), Pow(j), src[i], src[j], Val(src[..j]), Pow2(s), Pow2(32 - s), w);
  }

  lemma {:induction false} PowNext(i: nat)
    ensures Pow(i + 1) == Pow(i) * BASE
  {
    PowAdd(i, 1);
  }

  /** 2^s * 2^(32 - s) is the limb base. */
  lemma {:induction false} SplitBase(s: nat)
    requires s <= 32
    ensures Pow2(s) * Pow2(32 - s) == BASE
  {
    Pow2Add(s, 32 - s);
    Pow2Small();
  }

  /** The arithmetic of one shift step, with the weights abstract. */
  lemma {:induction false} ShrArith(vr: int, p: int, p1: int, x: int, y: int, v: int, t: int, h: int, w: int)
    requires t > 0 && h > 0 && p >= 0 && x >= 0 && y >= 0 && v >= 0
    requires p1 == p * (t * h) && w == x / t + h * (y % t)
    requires vr + p * (x / t) == v / t
    ensures (vr + w * p) + p1 * (y / t) == (v + p1 * y) / t
  {
    var q, r := y / t, y % t;
    var ph := p * h;
    var m := ph * y;
    ShrArithProducts(p, h, t, y, p1, x / t, r, q);
    DivAddMul(v, t, m);
  }

  /** The product identities behind ShrArith. */
  lemma {:induction false} ShrArithProducts(p: int, h: int, t: int, y: int, p1: int, a: int, r: int, q: int)
    requires p1 == p * (t * h) && y == t * q + r
    ensures p1 * y == t * ((p * h) * y)
    ensures (p * h) * y == (p * h) * t * q + (p * h) * r
    ensures (a + h * r) * p == p * a + (p * h) * r
    ensures p1 * q == (p * h) * t * q
  {
  }

  /** Adding a multiple of t adds to the quotient by t. */
  lemma {:induction false} DivAddMul(v: int, t: int, m: int)
    requires t > 0
    ensures (v + t * m) / t == v / t + m
  {
    DivModUnique(v + t * m, t, v / t + m, v % t);
  }

  /** `(x >> s) | (y << (32 - s))` puts the low s bits of y above the high bits of x. */
  lemma {:induction false} ShrWord(x: uint32, y: uint32, s: nat)
    requires 1 <= s <= 31
    ensures Or32(Shr32(x, s), Shl32(y, 32 - s)) == x / Pow2(s) + Pow2(32 - s) * (y % Pow2(s))
  {
    var p, q := Pow2(s), Pow2(32 - s);
    var hi, lo := x / p, y % p;
    SplitBase(s);
    ShlWord(y, s);
    DivBelow(x, p, q);
    assert Shr32(x, s) == hi;
    OrDisjoint(hi, lo, 32 - s);
  }

  /** x < t * h gives x / t < h. */
  lemma {:induction false} DivBelow(x: int, t: int, h: int)
    requires 0 <= x < t * h && t > 0
    ensures x / t < h
  {
    if x / t >= h {
      MulLe(h, x / t, t);
      assert false;
    }
  }

  /** `y << (32 - s)` keeps the low s bits of y, moved to the top of the word. */
  lemma {:induction false} ShlWord(y: uint32, s: nat)
    requires 1 <= s <= 31
    ensures Shl32(y, 32 - s) == Pow2(32 - s) * (y % Pow2(s))
  {
    SplitBase(s);
    MulModShift(y, Pow2(s), Pow2(32 - s));
  }

  /** (y * h) % (t * h) == (y % t) * h */
  lemma {:induction false} MulModShift(y: int, t: int, h: int)
    requires y >= 0 && t > 0 && h > 0
    ensures (y * h) % (t * h) == h * (y % t)
  {
    var q, r := y / t, y % t;
    assert y == q * t + r;
    assert y * h == q * (t * h) + r * h;
    MulLe(r + 1, t, h);
    DivModUnique(y * h, t * h, q, r * h);
  }

  /** A shift by at most 31 bits loses at most one top limb, so trimmed stays trimmed. */
  lemma {:induction false} ShrKeepsTrimmed(src: seq<uint32>, r: seq<uint32>, s: nat)
    requires 1 <= s <= 31 && Trimmed(src) && |src| >= 1
    requires |src| - 1 <= |r| <= |src|
    requires Val(r) == Val(src) / Pow2(s)
    requires |r| == |src| ==> r[|r| - 1] == src[|src| - 1] / Pow2(s) != 0
    ensures Trimmed(r)
  {
    var n := |src|;
    if |r| == n - 1 && n >= 2 {
      ValTrimmedRange(src);
      PowNext(n - 2);
      SplitBase(s);
      DivLowerBound(Val(src), Pow(n - 2), Pow2(s), Pow2(32 - s));
      TopLimbNonzero(r);
    }
  }

  /** v >= p * (t * h) with h >= 1 gives v / t >= p. */
  lemma {:induction false} DivLowerBound(v: int, p: int, t: int, h: int)
    requires p >= 0 && t > 0 && h >= 1 && v >= p * (t * h)
    ensures v / t >= p
  {
    assert p * (t * h) == t * (p * h);
    DivAddMul(0, t, p * h);
    DivMonotone(t * (p * h), v, t);
    MulLe(1, h, p);
  }

  lemma {:induction false} DivMonotone(x: int, y: int, t: int)
    requires 0 <= x <= y && t > 0
    ensures x / t <= y / t
  {
    if x / t > y / t {
      MulLe(y / t + 1, x / t, t);
      assert false;
    }
  }

  /** The extra low limb of a shift with offset makes the result src * 2^(32 - s). */
  lemma {:induction false} ShrOffsetValue(src: seq<uint32>, r: seq<uint32>, s: nat)
    requires 1 <= s <= 31 && |src| >= 1 && |r| >= 1
    requires r[0] == Shl32(src[0], 32 - s) && Val(r[1..]) == Val(src) / Pow2(s)
    ensures Val(r) == Val(src) * Pow2(32 - s)
  {
    SplitBase(s);
    ShlWord(src[0], s);
    ValHead(r);
    ValHead(src);
    OffsetArith(Val(src), src[0], Val(src[1..]), Pow2(s), Pow2(32 - s), BASE, r[0], Val(r[1..]));
  }

  /** The arithmetic of the offset limb, with the weights abstract. */
  lemma {:induction false} OffsetArith(v: int, x0: int, w: int, t: int, h: int, b: int, lo: int, hi: int)
    requires t > 0 && h > 0 && b == t * h && 0 <= x0
    requires v == x0 + b * w && lo == h * (x0 % t) && hi == v / t
    ensures lo + b * hi == v * h
  {
    var q, r := x0 / t, x0 % t;
    assert x0 == t * q + r;
    assert v == t * (q + h * w) + r;
    DivModUnique(v, t, q + h * w, r);
    assert b * hi == h * (t * q) + h * (t * (h * w));
    assert v * h == h * (t * q) + h * r + h * (b * w);
  }

  // ---------------------------------------------------------------------------
  // Bitwise operations

  /** The limb-wise operation over b's length, written to res[0..|b|). */
  method LimbwiseInto(op: BitOp, a: seq<uint32>, b: seq<uint32>, res: array<uint32>)
    requires |b| <= |a| && |b| <= res.Length
    modifies res
    ensures res[..|b|] == Limbwise(op, a[..|b|], b)
    ensures forall k :: |b| <= k < res.Length ==> res[k] == old(res[k])
  {
    var i := 0;
    while i < |b|
      invariant i <= |b|
      invariant forall k :: 0 <= k < i ==> res[k] == Word(op, a[k], b[k])
      invariant forall k :: |b| <= k < res.Length ==> res[k] == old(res[k])
    {
      res[i] := Word(op, a[i], b[i]);
      i := i + 1;
    }
  }

  /**
   * OR of two runs, the longer one (a) first: the common limbs are OR-ed and
   * the rest of a is copied. Writes res[0..|a|).
   */
  method BitwiseOr(a: seq<uint32>, b: seq<uint32>, res: array<uint32>)
    requires |b| <= |a| <= res.Length
    modifies res
    ensures Val(res[..|a|]) == Bitwise(OrOp, Val(a), Val(b))
    ensures forall k :: |a| <= k < res.Length ==> res[k] == old(res[k])
  {
    LimbwiseInto(OrOp, a, b, res);
    DigitHelper.DigitsBlockCopy(a[|b|..], res, |b|, |a| - |b|);
    LimbwiseTailValue(OrOp, a, b, res[..|a|]);
  }

  /**
   * The value of "operation on the common limbs, then a's tail copied":
   * for OR and XOR this is the operation on the whole numbers.
   */
  lemma {:induction false} LimbwiseTailValue(op: BitOp, a: seq<uint32>, b: seq<uint32>, r: seq<uint32>)
    requires op != AndOp && |b| <= |a| == |r|
    requires r[..|b|] == Limbwise(op, a[..|b|], b)
    requires r[|b|..] == a[|b|..][..|a| - |b|]
    ensures Val(r) == Bitwise(op, Val(a), Val(b))
  {
    ValSplit(r, |b|);
    ValLimbwise(op, a[..|b|], b);
    ValBitwiseTail(op, a, b);
    BitwiseWithZero(op, Val(a[|b|..]));
    assert r[|b|..] == a[|b|..];
  }

  /**
   * AND over the shorter length: limb-wise, and the length returned is the
   * real length of the result.
   */
  method BitwiseAnd(a: seq<uint32>, b: seq<uint32>, length: nat, res: array<uint32>) returns (r: nat)
    requires length <= |a| && length <= |b| && length <= res.Length
    modifies res
    ensures r <= length && Trimmed(res[..r]) && AllZero(res[r..length])
    ensures Val(res[..r]) == Bitwise(AndOp, Val(a[..length]), Val(b[..length]))
    ensures forall k :: length <= k < res.Length ==> res[k] == old(res[k])
  {
    LimbwiseInto(AndOp, a[..length], b[..length], res);
    assert Val(res[..length]) == Bitwise(AndOp, Val(a[..length]), Val(b[..length])) by {
      assert a[..length][..length] == a[..length];
      ValLimbwise(AndOp, a[..length], b[..length]);
    }
    r := TrimmedLength(res, 0, length);
    assert res[0..r] == res[..r] && res[0..length] == res[..length];
  }

  /** AND with the shorter run only needs the longer run's limbs below the shorter's length. */
  lemma {:induction false} AndShorter(a: seq<uint32>, b: seq<uint32>)
    requires |b| <= |a|
    ensures Bitwise(AndOp, Val(a), Val(b)) == Bitwise(AndOp, Val(a[..|b|]), Val(b[..|b|]))
  {
    assert b[..|b|] == b;
    ValBitwiseTail(AndOp, a, b);
    BitwiseWithZero(AndOp, Val(a[|b|..]));
    assert Pow(|b|) * 0 == 0;
  }

  /** XOR of two runs, the longer one (a) first; returns the real length of the result. */
  method ExclusiveOr(a: seq<uint32>, b: seq<uint32>, res: array<uint32>) returns (r: nat)
    requires |b| <= |a| <= res.Length
    modifies res
    ensures r <= |a| && Trimmed(res[..r]) && AllZero(res[r..|a|])
    ensures Val(res[..r]) == Bitwise(XorOp, Val(a), Val(b))
    ensures forall k :: |a| <= k < res.Length ==> res[k] == old(res[k])
  {
    LimbwiseInto(XorOp, a, b, res);
    DigitHelper.DigitsBlockCopy(a[|b|..], res, |b|, |a| - |b|);
    LimbwiseTailValue(XorOp, a, b, res[..|a|]);
    r := TrimmedLength(res, 0, |a|);
  }

  /** NOT of every limb; returns the real length of the result. */
  method OnesComplement(a: seq<uint32>, res: array<uint32>) returns (r: nat)
    requires |a| <= res.Length
    modifies res
    ensures r <= |a| && Trimmed(res[..r]) && AllZero(res[r..|a|])
    ensures Val(res[..r]) == Pow(|a|) - 1 - Val(a)
    ensures forall k :: |a| <= k < res.Length ==> res[k] == old(res[k])
  {
    ComplementInto(a, res);
    ValLimbNot(a);
    r := TrimmedLength(res, 0, |a|);
  }

  /** The complement loop: res[0..|a|) gets the limb-wise NOT of a. */
  method ComplementInto(a: seq<uint32>, res: array<uint32>)
    requires |a| <= res.Length
    modifies res
    ensures res[..|a|] == LimbNot(a)
    ensures forall k :: |a| <= k < res.Length ==> res[k] == old(res[k])
  {
    var i := 0;
    while i < |a|
      invariant i <= |a|
      invariant forall k :: 0 <= k < i ==> res[k] == Not32(a[k])
      invariant forall k :: |a| <= k < res.Length ==> res[k] == old(res[k])
    {
      res[i] := Not32(a[i]);
      i := i + 1;
    }
  }
}
