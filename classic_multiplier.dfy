/**
 * Schoolbook multiplication of two limb runs. The longer run is the inner
 * loop; a row for a zero limb of the shorter run is skipped, which is why the
 * result cells above the longer run's length must already be zero.
 */
module ClassicMultiplier {
  import opened Limbs
  import DigitHelper
  import DigitOpHelper

  /** The index of the last non-zero limb, or -1 when there is none. */
  function LastNonZero(y: seq<uint32>): (r: int)
    ensures -1 <= r < |y|
    ensures r >= 0 ==> y[r] != 0
    ensures forall k :: r < k < |y| ==> y[k] == 0
  {
    if |y| == 0 then -1
    else if y[|y| - 1] != 0 then |y| - 1
    else LastNonZero(y[..|y| - 1])
  }

  /** The index of the top cell the last non-skipped row wrote, or -1 when every row was skipped. */
  function TopWritten(x: seq<uint32>, y: seq<uint32>): int
  {
    if LastNonZero(y) < 0 then -1 else LastNonZero(y) + |x|
  }

  /**
   * Multiplies a by b into res[0..|a|+|b|). The returned length is
   * |a| + |b|, one less when no row was multiplied or the top cell of the
   * last multiplied row is zero.
   */
  method Multiply(a: seq<uint32>, b: seq<uint32>, res: array<uint32>) returns (newLength: nat)
    requires |a| + |b| <= res.Length
    requires AllZero(res[Max(|a|, |b|)..|a| + |b|])
    modifies res
    ensures Val(res[..|a| + |b|]) == Val(a) * Val(b)
    ensures var x, y := (if |a| < |b| then b else a), (if |a| < |b| then a else b);
      newLength == |a| + |b| - (if |a| + |b| > 0 && (TopWritten(x, y) < 0 || res[TopWritten(x, y)] == 0) then 1 else 0)
    ensures newLength <= |a| + |b| && Val(res[..newLength]) == Val(a) * Val(b)
    ensures Trimmed(a) && Trimmed(b) && |a| >= 1 && |b| >= 1 ==> Trimmed(res[..newLength])
    ensures forall k :: |a| + |b| <= k < res.Length ==> res[k] == old(res[k])
  {
    // the outer loop runs over the shorter operand: swap
    var x := if |a| < |b| then b else a;
    var y := if |a| < |b| then a else b;
    MulComm(Val(a), Val(b));
    newLength := MultiplyOrdered(x, y, res);
  }

  /** Multiply with the longer operand x first. */
  method MultiplyOrdered(x: seq<uint32>, y: seq<uint32>, res: array<uint32>) returns (newLength: nat)
    requires |y| <= |x| && |x| + |y| <= res.Length
    requires AllZero(res[|x|..|x| + |y|])
    modifies res
    ensures Val(res[..|x| + |y|]) == Val(x) * Val(y)
    ensures newLength == |x| + |y| - (if |x| + |y| > 0 && (TopWritten(x, y) < 0 || res[TopWritten(x, y)] == 0) then 1 else 0)
    ensures newLength <= |x| + |y| && Val(res[..newLength]) == Val(x) * Val(y)
    ensures Trimmed(x) && Trimmed(y) && |y| >= 1 ==> Trimmed(res[..newLength])
    ensures forall k :: |x| + |y| <= k < res.Length ==> res[k] == old(res[k])
  {
    ghost var zeros := res[|x|..|x| + |y|];
    DigitHelper.SetBlockDigits(res, 0, |x|, 0);
    assert AllZero(res[..|x|]);
    ValAllZero(res[..|x|]);
    assert res[|x|..|x| + |y|] == zeros;
    var top := MultiplyRows(x, y, res);
    newLength := |x| + |y|;
    ghost var r := res[..|x| + |y|];
    if newLength > 0 && (top < 0 || res[top] == 0) {
      newLength := newLength - 1;
    }
    ProductBounds(x, y, Val(r));
    ProductKeepsValue(x, y, r, top, newLength);
    if Trimmed(x) && Trimmed(y) && |y| >= 1 {
      ProductLength(x, y, r, newLength);
    }
    assert r[..newLength] == res[..newLength];
  }

  /** Dropping the top cell when it is zero keeps the value. */
  lemma {:induction false} ProductKeepsValue(x: seq<uint32>, y: seq<uint32>, r: seq<uint32>, top: int, newLength: nat)
    requires |y| <= |x| && |r| == |x| + |y| && top == TopWritten(x, y)
    requires LastNonZero(y) < 0 ==> Val(r) == 0
    requires LastNonZero(y) >= 0 ==> Val(r) < Pow(|x| + LastNonZero(y) + 1)
    requires newLength == |r| - (if |r| > 0 && (top < 0 || r[top] == 0) then 1 else 0)
    ensures Val(r[..newLength]) == Val(r)
  {
    if newLength < |r| {
      DroppedTopZero(x, y, r, top);
      assert |r[newLength..]| == 1 && r[newLength..][0] == r[|r| - 1];
      ValZeroTop(r, newLength);
    } else {
      assert r[..newLength] == r;
    }
  }

  /** What the product of x and y tells about the run r that holds it. */
  lemma {:induction false} ProductBounds(x: seq<uint32>, y: seq<uint32>, vr: int)
    requires vr == Val(x) * Val(y)
    ensures LastNonZero(y) < 0 ==> vr == 0
    ensures LastNonZero(y) >= 0 ==> vr < Pow(|x| + LastNonZero(y) + 1)
    ensures Trimmed(x) && Trimmed(y) && |x| >= 1 && |y| >= 1 ==> vr >= Pow(|x| + |y| - 2)
  {
    var last := LastNonZero(y);
    assert last < 0 ==> vr == 0 by {
      if last < 0 {
        YBelowPow(y, last);
        ZeroProduct(Val(x), Val(y), vr);
      }
    }
    assert last >= 0 ==> vr < Pow(|x| + last + 1) by {
      if last >= 0 {
        YBelowPow(y, last);
        ValBound(x);
        ProductBelowPow(Val(x), Val(y), vr, |x|, last + 1);
      }
    }
    assert Trimmed(x) && Trimmed(y) && |x| >= 1 && |y| >= 1 ==> vr >= Pow(|x| + |y| - 2) by {
      if Trimmed(x) && Trimmed(y) && |x| >= 1 && |y| >= 1 {
        ProductLowerBound(x, y);
      }
    }
  }

  /** The outer loop: one row per limb of y, zero limbs skipped. */
  method MultiplyRows(x: seq<uint32>, y: seq<uint32>, res: array<uint32>) returns (top: int)
    requires |y| <= |x| && |x| + |y| <= res.Length
    requires Val(res[..|x|]) == 0 && AllZero(res[|x|..|x| + |y|])
    modifies res
    ensures Val(res[..|x| + |y|]) == Val(x) * Val(y)
    ensures top == TopWritten(x, y)
    ensures forall k :: |x| + |y| <= k < res.Length ==> res[k] == old(res[k])
  {
    top := -1;
    var j := 0;
    assert y[..0] == [];
    while j < |y|
      invariant j <= |y|
      invariant Val(res[..j + |x|]) == Val(x) * Val(y[..j])
      invariant AllZero(res[j + |x|..|x| + |y|])
      invariant top == TopWritten(x, y[..j])
      invariant forall k :: |x| + |y| <= k < res.Length ==> res[k] == old(res[k])
    {
      top := RowStep(x, y, res, j, top);
      j := j + 1;
    }
    assert y[..j] == y;
  }

  /** One pass of the outer loop: row j is multiplied in, or skipped when y[j] is zero. */
  method RowStep(x: seq<uint32>, y: seq<uint32>, res: array<uint32>, j: nat, top0: int) returns (top: int)
    requires j < |y| <= |x| && |x| + |y| <= res.Length
    requires Val(res[..j + |x|]) == Val(x) * Val(y[..j])
    requires AllZero(res[j + |x|..|x| + |y|])
    requires top0 == TopWritten(x, y[..j])
    modifies res
    ensures Val(res[..j + 1 + |x|]) == Val(x) * Val(y[..j + 1])
    ensures AllZero(res[j + 1 + |x|..|x| + |y|])
    ensures top == TopWritten(x, y[..j + 1])
    ensures forall k :: j + |x| < k < res.Length ==> res[k] == old(res[k])
  {
    ghost var r0 := res[..j + |x|];
    ghost var tail := res[j + |x|..|x| + |y|];
    ghost var z := tail[0];
    assert y[..j + 1][..j] == y[..j];
    PrefixLast(y, j);
    if y[j] != 0 {
      AddRow(x, y[j], res, j, Val(y[..j]), Val(y[..j + 1]));
      top := j + |x|;
    } else {
      top := top0;
      assert res[..j + 1 + |x|] == r0 + [z];
      ValAppend(r0, z);
    }
    assert res[j + 1 + |x|..|x| + |y|] == tail[1..];
  }

  /** Row j of the product: y_j * x added at weight j, the running value becoming x * vy1. */
  method AddRow(x: seq<uint32>, yj: uint32, res: array<uint32>, j: nat, ghost vy: int, ghost vy1: int)
    requires j + |x| < res.Length
    requires Val(res[..j + |x|]) == Val(x) * vy && vy1 == vy + Pow(j) * yj
    modifies res
    ensures Val(res[..j + 1 + |x|]) == Val(x) * vy1
    ensures forall k :: j + |x| < k < res.Length ==> res[k] == old(res[k])
  {
    ghost var r0 := res[..j + |x|];
    MulRow(x, yj, res, j);
    assert res[..j + 1 + |x|][..j] == r0[..j];
    assert res[..j + 1 + |x|][j..] == res[j..j + |x| + 1];
    assert r0[j..] == old(res[j..j + |x|]);
    RowValue(res[..j + 1 + |x|], r0, j, Val(x), yj, vy, vy1);
  }

  /** A row adds y_j * x at weight j to the running product. */
  lemma {:induction false} RowValue(r1: seq<uint32>, r0: seq<uint32>, j: nat, vx: int, yj: int, vy: int, vy1: int)
    requires j <= |r0| && |r1| == |r0| + 1 && r1[..j] == r0[..j]
    requires Val(r0) == vx * vy && vy1 == vy + Pow(j) * yj
    requires Val(r1[j..]) == Val(r0[j..]) + yj * vx
    ensures Val(r1) == vx * vy1
  {
    ValSplit(r1, j);
    ValSplit(r0, j);
    RowArith(Val(r1[..j]), Val(r0[j..]), Val(r1[j..]), Pow(j), vx, yj, vy, vy1);
  }

  lemma {:induction false} RowArith(lo: int, hi0: int, hi1: int, p: int, vx: int, yj: int, vy: int, vy1: int)
    requires lo + p * hi0 == vx * vy && hi1 == hi0 + yj * vx && vy1 == vy + p * yj
    ensures lo + p * hi1 == vx * vy1
  {
    assert p * (yj * vx) == vx * (p * yj);
  }

  /**
   * One row: res[j..j+|x|] += yj * x, with the carry written (not added) to
   * the top cell res[j + |x|].
   */
  method MulRow(x: seq<uint32>, yj: uint32, res: array<uint32>, j: nat)
    requires j + |x| < res.Length
    modifies res
    ensures Val(res[j..j + |x| + 1]) == Val(old(res[j..j + |x|])) + yj * Val(x)
    ensures forall k :: 0 <= k < j || j + |x| < k < res.Length ==> res[k] == old(res[k])
  {
    ghost var o := res[j..j + |x|];
    var c: uint64 := 0;
    var i := 0;
    while i < |x|
      invariant i <= |x| && c < BASE
      invariant Val(res[j..j + i]) + c * Pow(i) == Val(o[..i]) + yj * Val(x[..i])
      invariant forall k :: j + i <= k < j + |x| ==> res[k] == o[k - j]
      invariant forall k :: 0 <= k < j || j + |x| <= k < res.Length ==> res[k] == old(res[k])
    {
      ghost var r := res[j..j + i];
      ghost var c0 := c;
      assert res[j + i] == o[i];
      MulWordBound(c, yj, x[i], res[j + i]);
      var t: int := c + yj * x[i] + res[j + i];
      c := t;
      res[j + i] := c % BASE;
      MulLimbStep(r, o, x, i, yj, c0, c % BASE, c / BASE);
      assert res[j..j + i + 1] == r + [res[j + i]];
      c := c / BASE;
      i := i + 1;
    }
    assert o[..i] == o && x[..i] == x;
    StoreTop(res, j, |x|, c as uint32);
  }

  /** Writes the final carry of a row above the row's n limbs. */
  method StoreTop(res: array<uint32>, j: nat, n: nat, c: uint32)
    requires j + n < res.Length
    modifies res
    ensures Val(res[j..j + n + 1]) == Val(old(res[j..j + n])) + c * Pow(n)
    ensures forall k :: 0 <= k < j + n || j + n < k < res.Length ==> res[k] == old(res[k])
  {
    ghost var r := res[j..j + n];
    res[j + n] := c;
    assert res[j..j + n + 1] == r + [c];
    ValAppend(r, c);
    MulComm(c, Pow(n));
  }

  /** The running value of one row step stays below 2^64 and its carry below 2^32. */
  lemma {:induction false} MulWordBound(c: int, y: uint32, x: uint32, r: uint32)
    requires 0 <= c < BASE
    ensures 0 <= c + y * x + r < 0x1_0000_0000_0000_0000
    ensures (c + y * x + r) / BASE < BASE
  {
    MulLe(0, y, x);
    MulLe(y, BASE - 1, x);
    MulLe(x, BASE - 1, BASE - 1);
    var t := c + y * x + r;
    assert 0 <= t;
    assert t <= (BASE - 1) * (BASE - 1) + 2 * (BASE - 1);
    assert (BASE - 1) * (BASE - 1) + 2 * (BASE - 1) == 0xFFFF_FFFF_FFFF_FFFF;
  }

  lemma {:induction false} MulLimbStep(r: seq<uint32>, o: seq<uint32>, x: seq<uint32>, i: nat, yj: int, c: int, d: uint32, c2: int)
    requires i < |x| && i < |o| && |r| == i
    requires Val(r) + c * Pow(i) == Val(o[..i]) + yj * Val(x[..i])
    requires c + yj * x[i] + o[i] == d + BASE * c2
    ensures Val(r + [d]) + c2 * Pow(i + 1) == Val(o[..i + 1]) + yj * Val(x[..i + 1])
  {
    PrefixLast(o, i);
    PrefixLast(x, i);
    ValAppend(r, d);
    DigitOpHelper.PowNext(i);
    MulArith(Val(r), Val(o[..i]), Val(x[..i]), Pow(i), Pow(i + 1), yj, c, x[i], o[i], d, c2);
  }

  lemma {:induction false} MulArith(vr: int, vo: int, vx: int, p: int, p1: int, yj: int, c: int, xi: int, oi: int, d: int, c2: int)
    requires vr + c * p == vo + yj * vx && c + yj * xi + oi == d + BASE * c2 && p1 == p * BASE
    ensures (vr + d * p) + c2 * p1 == (vo + p * oi) + yj * (vx + p * xi)
  {
    assert d * p == c * p + yj * xi * p + oi * p - c2 * p1;
    assert yj * (vx + p * xi) == yj * vx + yj * xi * p;
  }

  /**
   * The limb the returned length leaves out is zero: no row was multiplied,
   * or every limb from the top cell of the last multiplied row up is zero.
   */
  lemma {:induction false} DroppedTopZero(x: seq<uint32>, y: seq<uint32>, r: seq<uint32>, top: int)
    requires |y| <= |x| && |r| == |x| + |y| && |r| >= 1
    requires LastNonZero(y) < 0 ==> Val(r) == 0
    requires LastNonZero(y) >= 0 ==> Val(r) < Pow(|x| + LastNonZero(y) + 1)
    requires top == TopWritten(x, y) && (top < 0 || r[top] == 0)
    ensures r[|r| - 1] == 0
  {
    var last := LastNonZero(y);
    if last < 0 {
      ValZeroAllZero(r);
    } else {
      var k: nat := |x| + last + 1;
      assert Val(r) < Pow(k);
      assert top + 1 == k <= |r|;
      if k < |r| {
        ValBelowPow(r, k);
        assert r[k..][|r| - 1 - k] == r[|r| - 1];
      }
    }
  }

  /** y is below BASE^(k+1) when none of its limbs above k is non-zero. */
  lemma {:induction false} YBelowPow(y: seq<uint32>, k: int)
    requires -1 <= k < |y| && forall i :: k < i < |y| ==> y[i] == 0
    ensures Val(y) < Pow(k + 1)
    ensures k < 0 ==> Val(y) == 0
  {
    assert AllZero(y[k + 1..]);
    ValZeroTop(y, k + 1);
    ValBound(y[..k + 1]);
  }

  lemma {:induction false} ZeroProduct(vx: int, vy: int, vr: int)
    requires vy == 0 && vr == vx * vy
    ensures vr == 0
  {
  }

  lemma {:induction false} ProductBelowPow(vx: int, vy: int, vr: int, n: nat, k: nat)
    requires 0 <= vx < Pow(n) && 0 <= vy < Pow(k) && vr == vx * vy
    ensures vr < Pow(n + k)
  {
    ProductBelow(vx, vy, Pow(n), Pow(k));
    PowAdd(n, k);
  }

  /**
   * For trimmed operands of lengths n and m the product needs n + m - 1 or
   * n + m limbs, and the returned length is the real length.
   */
  lemma {:induction false} ProductLength(x: seq<uint32>, y: seq<uint32>, r: seq<uint32>, newLength: nat)
    requires Trimmed(x) && Trimmed(y) && |x| >= 1 && |y| >= 1 && |r| == |x| + |y|
    requires Val(r) >= Pow(|r| - 2)
    requires newLength == |r| - (if r[TopWritten(x, y)] == 0 then 1 else 0)
    ensures Trimmed(r[..newLength])
  {
    assert LastNonZero(y) == |y| - 1;
    if r[|r| - 1] == 0 {
      DropZeroTop(r);
    } else {
      assert r[..newLength] == r;
    }
  }

  /** A run whose top limb is zero but whose value reaches 2^(32(n-2)) is trimmed once that limb is dropped. */
  lemma {:induction false} DropZeroTop(r: seq<uint32>)
    requires |r| >= 2 && r[|r| - 1] == 0 && Val(r) >= Pow(|r| - 2)
    ensures Trimmed(r[..|r| - 1]) && Val(r[..|r| - 1]) == Val(r)
  {
    var t := r[..|r| - 1];
    ValLast(r);
    assert Pow(|r| - 1) * r[|r| - 1] == 0;
    assert |t| - 1 == |r| - 2;
    TopLimbNonzero(t);
  }

  /** The product of trimmed runs of lengths n and m is at least 2^(32(n+m-2)). */
  lemma {:induction false} ProductLowerBound(x: seq<uint32>, y: seq<uint32>)
    requires Trimmed(x) && Trimmed(y) && |x| >= 1 && |y| >= 1
    ensures Val(x) * Val(y) >= Pow(|x| + |y| - 2)
  {
    ValTrimmedRange(x);
    ValTrimmedRange(y);
    ProductLower(Val(x), Val(y), Pow(|x| - 1), Pow(|y| - 1));
    PowAdd(|x| - 1, |y| - 1);
    assert |x| - 1 + (|y| - 1) == |x| + |y| - 2;
  }

  lemma {:induction false} ProductLower(vx: int, vy: int, px: int, py: int)
    requires 0 <= px <= vx && 0 <= py <= vy
    ensures px * py <= vx * vy
  {
    MulLe(px, vx, py);
    MulLe(py, vy, vx);
  }
}
