/**
 * Long division of limb runs: Knuth's Algorithm D (The Art of Computer
 * Programming, Vol. 2, section 4.3.1). Both operands are shifted left until
 * the divisor's top limb has its top bit set; every quotient digit is then
 * estimated from the top limbs, corrected, multiplied back and subtracted,
 * with one add-back when the estimate was one too large. The remainder is
 * shifted back at the end.
 */
module ClassicDivider {
  import opened Limbs
  import Bits
  import Constants
  import DigitHelper
  import DigitOpHelper
  import DividerBase

  const HALF: nat := 0x8000_0000

  // ---------------------------------------------------------------------------
  // The trial digit

  /**
   * The estimate of one quotient digit from the top two limbs of the
   * current remainder window (longDigit), its third limb (next) and the top
   * two limbs of the normalised divisor. It starts from longDigit / top limb
   * and is lowered while it is 2^32 or the second divisor limb shows it too
   * large. With X = longDigit * 2^32 + next and T the divisor's top two limbs
   * as one number: the result is a digit, at most X / T, and the largest such
   * one unless it is 2^32 - 1.
   */
  method EstimateDigit(longDigit: nat, next: uint32, lastDigit2: uint32, preLastDigit2: uint32) returns (divEst: int)
    requires lastDigit2 >= HALF
    requires longDigit * BASE + next < BASE * (lastDigit2 * BASE + preLastDigit2 + 1)
    ensures 0 <= divEst < BASE
    ensures divEst * (lastDigit2 * BASE + preLastDigit2) <= longDigit * BASE + next
    ensures divEst == BASE - 1 || (divEst + 1) * (lastDigit2 * BASE + preLastDigit2) > longDigit * BASE + next
  {
    ghost var top2 := lastDigit2 * BASE + preLastDigit2;
    ghost var x := longDigit * BASE + next;
    divEst := longDigit / lastDigit2;
    var modEst: int := longDigit - divEst * lastDigit2;
    EstimateStart(longDigit, next, lastDigit2, preLastDigit2, divEst, modEst);
    while true
      invariant 0 <= divEst && 0 <= modEst < BASE && modEst == longDigit - divEst * lastDigit2
      invariant (divEst + 1) * top2 > x || divEst >= BASE - 1
      decreases divEst
    {
      if divEst == BASE || divEst * preLastDigit2 > modEst * BASE + next {
        EstimateLower(longDigit, next, lastDigit2, preLastDigit2, divEst, modEst);
        divEst := divEst - 1;
        modEst := modEst + lastDigit2;
        if modEst < BASE {
          continue;
        }
        EstimateOverflow(longDigit, next, lastDigit2, preLastDigit2, divEst, modEst);
      } else {
        EstimateAccept(longDigit, next, lastDigit2, preLastDigit2, divEst, modEst);
      }
      break;
    }
  }

  /** The first estimate longDigit / top limb is larger than X / T. */
  lemma {:induction false} EstimateStart(longDigit: nat, next: uint32, vtop: uint32, v2: uint32, d: int, m: int)
    requires vtop >= HALF && d == longDigit / vtop && m == longDigit - d * vtop
    ensures 0 <= d && 0 <= m < BASE
    ensures (d + 1) * (vtop * BASE + v2) > longDigit * BASE + next
  {
    assert longDigit == d * vtop + longDigit % vtop;
    if d < 0 {
      MulLe(d, -1, vtop);
    }
    assert (d + 1) * vtop >= longDigit + 1;
    MulLe(longDigit + 1, (d + 1) * vtop, BASE);
    assert (d + 1) * (vtop * BASE + v2) == (d + 1) * vtop * BASE + (d + 1) * v2;
  }

  /** A rejected estimate is at least 1, and one less is still larger than X / T. */
  lemma {:induction false} EstimateLower(longDigit: nat, next: uint32, vtop: uint32, v2: uint32, d: nat, m: int)
    requires vtop >= HALF && 0 <= m < BASE && m == longDigit - d * vtop
    requires d == BASE || d * v2 > m * BASE + next
    ensures d >= 1 && m + vtop == longDigit - (d - 1) * vtop
    ensures d == BASE || d * (vtop * BASE + v2) > longDigit * BASE + next
  {
    if d != BASE {
      assert d * (vtop * BASE + v2) == (longDigit - m) * BASE + d * v2;
    }
  }

  /** Leaving through the overflow of modEst: the estimate is a digit and at most X / T. */
  lemma {:induction false} EstimateOverflow(longDigit: nat, next: uint32, vtop: uint32, v2: uint32, d: nat, m: int)
    requires vtop >= HALF && m >= BASE && m == longDigit - d * vtop
    requires longDigit * BASE + next < BASE * (vtop * BASE + v2 + 1)
    ensures d < BASE
    ensures d * (vtop * BASE + v2) <= longDigit * BASE + next
  {
    assert longDigit * BASE < BASE * (vtop * BASE + v2 + 1);
    assert longDigit < vtop * BASE + BASE;
    assert d * vtop < vtop * BASE;
    if d >= BASE {
      MulLe(BASE, d, vtop);
    }
    MulLe(d, BASE - 1, v2);
    MulLe(v2, BASE - 1, BASE - 1);
    MulLe(BASE, m, BASE);
    assert d * (vtop * BASE + v2) == (longDigit - m) * BASE + d * v2;
  }

  /** An accepted estimate is a digit and at most X / T. */
  lemma {:induction false} EstimateAccept(longDigit: nat, next: uint32, vtop: uint32, v2: uint32, d: nat, m: int)
    requires vtop >= HALF && 0 <= m < BASE && m == longDigit - d * vtop
    requires longDigit * BASE + next < BASE * (vtop * BASE + v2 + 1)
    requires d != BASE && d * v2 <= m * BASE + next
    ensures d < BASE
    ensures d * (vtop * BASE + v2) <= longDigit * BASE + next
  {
    var top2 := vtop * BASE + v2;
    assert d * top2 == (longDigit - m) * BASE + d * v2;
    if d > BASE {
      MulLe(BASE + 1, d, top2);
    }
  }

  /**
   * The trial digit against the whole window: with U the window value (below
   * BASE * V), X its top three limbs and T the divisor's top two limbs, a
   * digit d with d * T <= X that is maximal (or BASE - 1) lies between the
   * true quotient digit U / V and one more than it.
   */
  lemma {:induction false} TrialDigitBounds(u: nat, v: nat, x: nat, ulow: nat, top2: nat, vlow: nat, p: nat, d: nat)
    requires p >= 1 && v == top2 * p + vlow && vlow < p && u == x * p + ulow && ulow < p
    requires top2 >= BASE && u < BASE * v
    requires d < BASE && d * top2 <= x && (d == BASE - 1 || (d + 1) * top2 > x)
    ensures u / v <= d <= u / v + 1
  {
    TrialNotBelow(u, v, x, ulow, top2, vlow, p, d);
    TrialNotAbove(u, v, x, ulow, top2, vlow, p, d);
  }

  /** The trial digit is not below the true digit. */
  lemma {:induction false} TrialNotBelow(u: nat, v: nat, x: nat, ulow: nat, top2: nat, vlow: nat, p: nat, d: nat)
    requires p >= 1 && v == top2 * p + vlow && vlow < p && u == x * p + ulow && ulow < p
    requires top2 >= 1 && u < BASE * v
    requires d < BASE && (d == BASE - 1 || (d + 1) * top2 > x)
    ensures u / v <= d
  {
    var q: int := u / v;
    assert q * v <= u by { DivIdentity(u, v); }
    if d == BASE - 1 {
      QuotientBelowBase(u, v, q);
    } else {
      QuotientBelowTrial(u, v, x, ulow, top2, vlow, p, d, q);
    }
  }

  lemma {:induction false} QuotientBelowBase(u: int, v: int, q: int)
    requires v >= 1 && q * v <= u && u < BASE * v
    ensures q <= BASE - 1
  {
    if q > BASE - 1 {
      MulLe(BASE, q, v);
    }
  }

  lemma {:induction false} QuotientBelowTrial(u: int, v: int, x: int, ulow: int, top2: int, vlow: int, p: int, d: int, q: int)
    requires p >= 1 && v == top2 * p + vlow && 0 <= vlow < p && u == x * p + ulow && 0 <= ulow < p
    requires top2 >= 1 && d >= 0 && (d + 1) * top2 > x && q * v <= u
    ensures q <= d
  {
    if q > d {
      var t := (d + 1) * top2;
      MulLe(x + 1, t, p);
      assert (d + 1) * v == t * p + (d + 1) * vlow;
      MulLe(0, d + 1, vlow);
      MulLe(d + 1, q, v);
    }
  }

  /** The trial digit is at most one above the true digit. */
  lemma {:induction false} TrialNotAbove(u: nat, v: nat, x: nat, ulow: nat, top2: nat, vlow: nat, p: nat, d: nat)
    requires p >= 1 && v == top2 * p + vlow && vlow < p && u == x * p + ulow && ulow < p
    requires top2 >= BASE
    requires d < BASE && d * top2 <= x
    ensures d <= u / v + 1
  {
    var q := u / v;
    assert u < (q + 1) * v by { assert u == q * v + u % v; }
    var t := d * top2;
    MulLe(t, x, p);
    assert d * v == t * p + d * vlow;
    MulLe(d, BASE, vlow);
    MulLe(vlow, p, BASE);
    MulLe(BASE, top2, p);
    assert d * v < u + v;
    if d > q + 1 {
      MulLe(q + 2, d, v);
    }
  }

  /** The top three limbs of the window bound it by the divisor's top two limbs. */
  lemma {:induction false} WindowTop(u: nat, v: nat, x: nat, ulow: nat, top2: nat, vlow: nat, p: nat)
    requires p >= 1 && v == top2 * p + vlow && vlow < p && u == x * p + ulow && ulow < p
    requires u < BASE * v
    ensures x < BASE * (top2 + 1)
  {
    MulLe(x, x, p);
    assert x * p <= u;
    assert BASE * v == BASE * top2 * p + BASE * vlow;
    MulLe(vlow, p, BASE);
    assert BASE * v < (BASE * top2 + BASE) * p;
    if x >= BASE * (top2 + 1) {
      MulLe(BASE * (top2 + 1), x, p);
    }
  }

  /** A run of two or more limbs split below its top two: the top two limbs as one number. */
  lemma {:induction false} TopTwo(s: seq<uint32>)
    requires |s| >= 2
    ensures Val(s) == (s[|s| - 1] * BASE + s[|s| - 2]) * Pow(|s| - 2) + Val(s[..|s| - 2])
    ensures Val(s[..|s| - 2]) < Pow(|s| - 2)
  {
    var n := |s|;
    var lo, d0, d1 := s[..n - 2], s[n - 2], s[n - 1];
    var x: int := d1 * BASE + d0;
    assert Val(s) == x * Pow(n - 2) + Val(lo) by {
      assert s == lo + [d0, d1];
      ValConcat(lo, [d0, d1]);
      ValTwo(d0, d1);
      SplitArith(Val(s), Val(lo), Pow(n - 2), Val([d0, d1]), x);
    }
    ValBound(lo);
  }

  /** A run of three or more limbs split below its top three; x is the top three limbs as one number. */
  lemma {:induction false} TopThree(s: seq<uint32>) returns (x: int)
    requires |s| >= 3
    ensures x == (s[|s| - 1] * BASE + s[|s| - 2]) * BASE + s[|s| - 3]
    ensures Val(s) == x * Pow(|s| - 3) + Val(s[..|s| - 3])
    ensures Val(s[..|s| - 3]) < Pow(|s| - 3)
  {
    var n := |s|;
    var top: int := s[n - 1] * BASE + s[n - 2];
    var lo2, lo3 := s[..n - 2], s[..n - 3];
    TopTwo(s);
    assert lo2[..n - 3] == lo3;
    PrefixLast(lo2, n - 3);
    ValBound(lo3);
    x := ThreeArith(Val(s), Val(lo2), Val(lo3), Pow(n - 2), Pow(n - 3), top, s[n - 3]);
  }

  lemma {:induction false} ThreeArith(vs: int, v2: int, v3: int, p2: int, p3: int, top: int, d: int) returns (x: int)
    requires vs == top * p2 + v2 && v2 == v3 + p3 * d && p2 == BASE * p3
    ensures x == top * BASE + d && vs == x * p3 + v3
  {
    x := top * BASE + d;
  }

  lemma {:induction false} SplitArith(vs: int, lo: int, p: int, vt: int, x: int)
    requires vs == lo + p * vt && vt == x
    ensures vs == x * p + lo
  {
  }

  /** Three limbs as one number. */
  lemma {:induction false} ValThree(d0: uint32, d1: uint32, d2: uint32)
    ensures Val([d0, d1, d2]) == (d2 * BASE + d1) * BASE + d0
  {
    ValHead([d0, d1, d2]);
    assert [d0, d1, d2][1..] == [d1, d2];
    ValTwo(d1, d2);
  }

  /** Two limbs as one number. */
  lemma {:induction false} ValTwo(d0: uint32, d1: uint32)
    ensures Val([d0, d1]) == d1 * BASE + d0
  {
    ValHead([d0, d1]);
    assert [d0, d1][1..] == [d1];
    ValSingle(d1);
  }

  // ---------------------------------------------------------------------------
  // Multiply-subtract and add-back

  /**
   * u[i..i+|v|) -= q * v, limb by limb, with a signed 64-bit borrow `k`:
   * `(mulRes & 0xFFFFFFFF)` is the low word of the product, `>> 32` of a
   * negative difference is an arithmetic shift (a floor division). The final
   * borrow k (0 <= k <= 2^32) is what the window's top limb still owes.
   */
  method MulSubLimbs(u: array<uint32>, i: nat, v: seq<uint32>, q: uint32) returns (k: int)
    requires i + |v| <= u.Length
    modifies u
    ensures 0 <= k <= BASE
    ensures Val(u[i..i + |v|]) - k * Pow(|v|) == Val(old(u[i..i + |v|])) - q * Val(v)
    ensures forall m :: 0 <= m < u.Length && !(i <= m < i + |v|) ==> u[m] == old(u[m])
  {
    ghost var orig := u[i..i + |v|];
    k := 0;
    var j := 0;
    while j < |v|
      invariant 0 <= j <= |v| && 0 <= k <= BASE
      invariant forall m :: j <= m < |v| ==> u[i + m] == orig[m]
      invariant Val(u[i..i + j]) - k * Pow(j) == Val(orig[..j]) - q * Val(v[..j])
      invariant forall m :: 0 <= m < u.Length && !(i <= m < i + |v|) ==> u[m] == old(u[m])
    {
      k := MulSubAt(u, i, v, q, j, orig, k);
      j := j + 1;
    }
    assert Val(orig[..|v|]) == Val(orig) by { assert orig[..|v|] == orig; }
    assert Val(v[..|v|]) == Val(v) by { assert v[..|v|] == v; }
  }

  /** Limb j of the multiply-subtract, in place. */
  method MulSubAt(u: array<uint32>, i: nat, v: seq<uint32>, q: uint32, j: nat, ghost orig: seq<uint32>, k: int)
    returns (k2: int)
    requires i + |v| <= u.Length && j < |v| && |orig| == |v| && 0 <= k <= BASE
    requires u[i + j] == orig[j]
    requires Val(u[i..i + j]) - k * Pow(j) == Val(orig[..j]) - q * Val(v[..j])
    modifies u
    ensures 0 <= k2 <= BASE
    ensures Val(u[i..i + j + 1]) - k2 * Pow(j + 1) == Val(orig[..j + 1]) - q * Val(v[..j + 1])
    ensures forall m :: 0 <= m < u.Length && m != i + j ==> u[m] == old(u[m])
  {
    ghost var r := u[i..i + j];
    var limb := MulSubLimb(u[i + j], v[j], q, k);
    u[i + j], k2 := limb.0, limb.1;
    assert u[i..i + j + 1] == r + [limb.0];
    MulSubStep(r, orig, v, j, q, k, limb.0, k2);
  }

  /**
   * One limb of the multiply-subtract: the product's low word and the borrow
   * come off the limb, which keeps the difference's low 32 bits; the new
   * borrow is the product's high word minus the (floored) high part of the
   * difference.
   */
  function MulSubLimb(x: uint32, y: uint32, q: uint32, k: int): (r: (uint32, int))
    requires 0 <= k <= BASE
    ensures 0 <= r.1 <= BASE
    ensures r.0 - r.1 * BASE == x - k - q * y
  {
    var mulRes := q * y;
    var t := x - k - mulRes % BASE;
    BorrowBounds(x, k, q, y, t, mulRes / BASE - t / BASE);
    DivIdentity(t, BASE);
    DivIdentity(mulRes, BASE);
    ((t % BASE) as uint32, mulRes / BASE - t / BASE)
  }

  /** One limb of the multiply-subtract keeps its invariant. */
  lemma {:induction false} MulSubStep(r: seq<uint32>, orig: seq<uint32>, v: seq<uint32>, j: nat, q: uint32, k: int, d: uint32, k2: int)
    requires j < |v| && j < |orig| && |r| == j
    requires Val(r) - k * Pow(j) == Val(orig[..j]) - q * Val(v[..j])
    requires d - k2 * BASE == orig[j] - k - q * v[j]
    ensures Val(r + [d]) - k2 * Pow(j + 1) == Val(orig[..j + 1]) - q * Val(v[..j + 1])
  {
    var vr, vo, vv, p := Val(r), Val(orig[..j]), Val(v[..j]), Pow(j);
    var r1, o1, v1, p1 := Val(r + [d]), Val(orig[..j + 1]), Val(v[..j + 1]), Pow(j + 1);
    StepValues(r, orig, v, j, d);
    MulSubArith(vr, k, p, p1, d, orig[j], q, v[j], k2, vo, vv, r1, o1, v1);
  }

  /** The borrow of one multiply-subtract limb stays within 0..2^32. */
  lemma {:induction false} BorrowBounds(x: uint32, k: int, q: uint32, y: uint32, t: int, k2: int)
    requires 0 <= k <= BASE
    requires t == x - k - (q * y) % BASE && k2 == (q * y) / BASE - t / BASE
    ensures 0 <= k2 <= BASE
  {
    HighWordBound(q, y);
    BorrowFloor(t);
  }

  /** The high word of a product of two limbs is at most 2^32 - 2. */
  lemma {:induction false} HighWordBound(q: uint32, y: uint32)
    ensures 0 <= (q * y) / BASE <= BASE - 2
  {
    var m: int := q * y;
    MulLe(0, q, y);
    MulLe(q, BASE - 1, y);
    var c: int := (BASE - 1) * y;
    assert c == y * (BASE - 1);
    MulLe(y, BASE - 1, BASE - 1);
    assert m <= (BASE - 1) * (BASE - 1);
    HighWord(m);
  }

  lemma {:induction false} HighWord(m: int)
    requires 0 <= m <= (BASE - 1) * (BASE - 1)
    ensures 0 <= m / BASE <= BASE - 2
  {
    var hi := m / BASE;
    assert m == hi * BASE + m % BASE;
    if hi > BASE - 2 {
      MulLe(BASE - 1, hi, BASE);
    } else if hi < 0 {
      MulLe(hi, -1, BASE);
    }
  }

  /** The arithmetic shift by 32 of a borrow difference is -2, -1 or 0. */
  lemma {:induction false} BorrowFloor(t: int)
    requires -2 * BASE < t < BASE
    ensures -2 <= t / BASE <= 0
  {
    var f := t / BASE;
    assert t == f * BASE + t % BASE;
    if f < -2 {
      MulLe(f, -3, BASE);
    } else if f > 0 {
      MulLe(1, f, BASE);
    }
  }

  lemma {:induction false} MulSubArith(vr: int, k: int, p: int, p1: int, d: int, x: int, q: int, y: int,
                    k2: int, vo: int, vv: int, r1: int, o1: int, v1: int)
    requires vr - k * p == vo - q * vv
    requires d - k2 * BASE == x - k - q * y && p1 == BASE * p
    requires r1 == vr + d * p && o1 == vo + p * x && v1 == vv + p * y
    ensures r1 - k2 * p1 == o1 - q * v1
  {
    assert (d - k2 * BASE) * p == (x - k - q * y) * p;
    assert q * v1 == q * vv + q * y * p;
  }

  /**
   * u[i..i+|v|) += v with a carry; the carry out of the top limb is returned
   * (0 or 1).
   */
  method AddBackLimbs(u: array<uint32>, i: nat, v: seq<uint32>) returns (k: int)
    requires i + |v| <= u.Length
    modifies u
    ensures 0 <= k <= 1
    ensures Val(u[i..i + |v|]) + k * Pow(|v|) == Val(old(u[i..i + |v|])) + Val(v)
    ensures forall m :: 0 <= m < u.Length && !(i <= m < i + |v|) ==> u[m] == old(u[m])
  {
    ghost var orig := u[i..i + |v|];
    k := 0;
    var j := 0;
    while j < |v|
      invariant 0 <= j <= |v| && 0 <= k <= 1
      invariant forall m :: j <= m < |v| ==> u[i + m] == orig[m]
      invariant Val(u[i..i + j]) + k * Pow(j) == Val(orig[..j]) + Val(v[..j])
      invariant forall m :: 0 <= m < u.Length && !(i <= m < i + |v|) ==> u[m] == old(u[m])
    {
      k := AddBackAt(u, i, v, j, orig, k);
      j := j + 1;
    }
    assert Val(orig[..|v|]) == Val(orig) by { assert orig[..|v|] == orig; }
    assert Val(v[..|v|]) == Val(v) by { assert v[..|v|] == v; }
  }

  /** Limb j of the add-back, in place. */
  method AddBackAt(u: array<uint32>, i: nat, v: seq<uint32>, j: nat, ghost orig: seq<uint32>, k: int)
    returns (k2: int)
    requires i + |v| <= u.Length && j < |v| && |orig| == |v| && 0 <= k <= 1
    requires u[i + j] == orig[j]
    requires Val(u[i..i + j]) + k * Pow(j) == Val(orig[..j]) + Val(v[..j])
    modifies u
    ensures 0 <= k2 <= 1
    ensures Val(u[i..i + j + 1]) + k2 * Pow(j + 1) == Val(orig[..j + 1]) + Val(v[..j + 1])
    ensures forall m :: 0 <= m < u.Length && m != i + j ==> u[m] == old(u[m])
  {
    ghost var r := u[i..i + j];
    var limb := AddBackLimb(u[i + j], v[j], k);
    u[i + j], k2 := limb.0, limb.1;
    assert u[i..i + j + 1] == r + [limb.0];
    AddBackStep(r, orig, v, j, k, limb.0, k2);
  }

  /** One limb of the add-back: the sum's low 32 bits and its carry. */
  function AddBackLimb(x: uint32, y: uint32, k: int): (r: (uint32, int))
    requires 0 <= k <= 1
    ensures 0 <= r.1 <= 1
    ensures r.0 + r.1 * BASE == x + y + k
  {
    var t := x + y + k;
    DivIdentity(t, BASE);
    ((t % BASE) as uint32, t / BASE)
  }

  /** One limb of the add-back keeps its invariant. */
  lemma {:induction false} AddBackStep(r: seq<uint32>, orig: seq<uint32>, v: seq<uint32>, j: nat, k: int, d: uint32, k2: int)
    requires j < |v| && j < |orig| && |r| == j
    requires Val(r) + k * Pow(j) == Val(orig[..j]) + Val(v[..j])
    requires d + k2 * BASE == orig[j] + v[j] + k
    ensures Val(r + [d]) + k2 * Pow(j + 1) == Val(orig[..j + 1]) + Val(v[..j + 1])
  {
    var vr, vo, vv, p := Val(r), Val(orig[..j]), Val(v[..j]), Pow(j);
    var r1, o1, v1, p1 := Val(r + [d]), Val(orig[..j + 1]), Val(v[..j + 1]), Pow(j + 1);
    StepValues(r, orig, v, j, d);
    AddBackArith(vr, k, p, p1, d, k2, orig[j], v[j], vo, vv, r1, o1, v1);
  }

  /** The values one limb further along in the three runs of a limb loop. */
  lemma {:induction false} StepValues(r: seq<uint32>, orig: seq<uint32>, v: seq<uint32>, j: nat, d: uint32)
    requires j < |v| && j < |orig| && |r| == j
    ensures Val(r + [d]) == Val(r) + d * Pow(j)
    ensures Val(orig[..j + 1]) == Val(orig[..j]) + Pow(j) * orig[j]
    ensures Val(v[..j + 1]) == Val(v[..j]) + Pow(j) * v[j]
    ensures Pow(j + 1) == BASE * Pow(j)
  {
    ValAppend(r, d);
    PrefixLast(orig, j);
    PrefixLast(v, j);
  }

  lemma {:induction false} AddBackArith(vr: int, k: int, p: int, p1: int, d: int, k2: int, x: int, y: int, vo: int, vv: int,
                     r1: int, o1: int, v1: int)
    requires vr + k * p == vo + vv
    requires d + k2 * BASE == x + y + k && p1 == BASE * p
    requires r1 == vr + d * p && o1 == vo + p * x && v1 == vv + p * y
    ensures r1 + k2 * p1 == o1 + v1
  {
    assert (d + k2 * BASE) * p == (x + y + k) * p;
  }

  // ---------------------------------------------------------------------------
  // One quotient digit

  /**
   * What the subtraction leaves: the window's new top t is 0 when the trial
   * digit was right and -1 (a wrapped top limb) when it was one too large;
   * in the first case the low limbs already hold the remainder, in the
   * second they hold it plus the divisor less 2^(32n).
   */
  lemma {:induction false} SubtractOutcome(u: int, v: int, d: int, low1: int, t: int, pn: int)
    requires 1 <= v <= pn && u >= 0 && u / v <= d <= u / v + 1
    requires 0 <= low1 < pn && low1 + t * pn == u - d * v
    ensures t == 0 || t == -1
    ensures t == 0 <==> d == u / v
    ensures t == 0 ==> low1 == u % v
    ensures t == -1 ==> d == u / v + 1 && low1 + v == u % v + pn
  {
    var q := u / v;
    assert u == q * v + u % v;
    var diff := u - d * v;
    if d == q {
      assert 0 <= diff < v;
    } else {
      assert diff == u % v - v;
      assert -v <= diff < 0;
    }
    if t >= 1 {
      MulLe(1, t, pn);
    } else if t <= -2 {
      MulLe(t, -2, pn);
    }
  }

  /** The add-back after an over-estimate carries out exactly once and leaves the remainder. */
  lemma {:induction false} AddBackOutcome(r: int, v: int, pn: int, low2: int, c: int)
    requires 0 <= r < v <= pn && 0 <= low2 < pn && 0 <= c <= 1
    requires low2 + c * pn == r + pn
    ensures c == 1 && low2 == r
  {
  }

  /**
   * One step of the main loop: the window u[i..iLen2] (plus u[iLen2] unless
   * this is the first, isMaxLength step, where that limb is an implied zero)
   * is divided by the normalised divisor v. The returned digit is the
   * window's quotient, and the window's low |v| limbs then hold its
   * remainder, with the top limb cleared.
   */
  method DivideStep(u: array<uint32>, i: nat, iLen2: nat, isMaxLength: bool, v: seq<uint32>) returns (divRes: uint32)
    requires |v| >= 2 && v[|v| - 1] >= HALF && iLen2 == i + |v|
    requires iLen2 + (if isMaxLength then 0 else 1) <= u.Length
    requires Val(u[i + 1..iLen2 + (if isMaxLength then 0 else 1)]) < Val(v)
    modifies u
    ensures divRes == Val(old(u[i..iLen2 + (if isMaxLength then 0 else 1)])) / Val(v)
    ensures Val(u[i..iLen2]) == Val(old(u[i..iLen2 + (if isMaxLength then 0 else 1)])) % Val(v)
    ensures !isMaxLength ==> u[iLen2] == 0
    ensures forall m :: 0 <= m < u.Length && !(i <= m < iLen2 + (if isMaxLength then 0 else 1)) ==> u[m] == old(u[m])
  {
    var divEst := TrialDigit(u, i, iLen2, isMaxLength, v);
    divRes := SubtractAndCorrect(u, i, iLen2, isMaxLength, v, divEst);
  }

  /**
   * The trial quotient digit for the window u[i..iLen2] (plus u[iLen2]
   * unless isMaxLength): the true digit or one more.
   */
  method TrialDigit(u: array<uint32>, i: nat, iLen2: nat, isMaxLength: bool, v: seq<uint32>) returns (divEst: uint32)
    requires |v| >= 2 && v[|v| - 1] >= HALF && iLen2 == i + |v|
    requires iLen2 + (if isMaxLength then 0 else 1) <= u.Length
    requires Val(u[i + 1..iLen2 + (if isMaxLength then 0 else 1)]) < Val(v)
    ensures Val(u[i..iLen2 + (if isMaxLength then 0 else 1)]) / Val(v) <= divEst <= Val(u[i..iLen2 + (if isMaxLength then 0 else 1)]) / Val(v) + 1
  {
    var n := |v|;
    ghost var top := iLen2 + (if isMaxLength then 0 else 1);
    ghost var w := u[i..top];
    assert w[1..] == u[i + 1..top];
    ghost var uv := WindowFacts(w, v, isMaxLength);
    var lastDigit2, preLastDigit2 := v[n - 1], v[n - 2];
    var longDigit: nat;
    if isMaxLength {
      longDigit := u[iLen2 - 1];
    } else {
      longDigit := u[iLen2] * BASE + u[iLen2 - 1];
    }
    assert w[n - 1] == u[iLen2 - 1] && w[n - 2] == u[iLen2 - 2];
    assert !isMaxLength ==> w[n] == u[iLen2];
    assert longDigit * BASE + u[iLen2 - 2] == uv.0;
    var d := EstimateDigit(longDigit, u[iLen2 - 2], lastDigit2, preLastDigit2);
    TrialDigitBounds(Val(w), Val(v), uv.0, uv.1, lastDigit2 * BASE + preLastDigit2, uv.2, Pow(n - 2), d);
    divEst := d as uint32;
  }

  /**
   * Multiply-subtract of the trial digit, and the add-back when the window
   * went negative: the digit becomes the window's true quotient digit and
   * the window's low |v| limbs its remainder.
   */
  method SubtractAndCorrect(u: array<uint32>, i: nat, iLen2: nat, isMaxLength: bool, v: seq<uint32>, divEst: uint32)
    returns (divRes: uint32)
    requires |v| >= 2 && v[|v| - 1] >= HALF && iLen2 == i + |v|
    requires iLen2 + (if isMaxLength then 0 else 1) <= u.Length
    requires Val(u[i..iLen2 + (if isMaxLength then 0 else 1)]) / Val(v) <= divEst <= Val(u[i..iLen2 + (if isMaxLength then 0 else 1)]) / Val(v) + 1
    modifies u
    ensures divRes == Val(old(u[i..iLen2 + (if isMaxLength then 0 else 1)])) / Val(v)
    ensures Val(u[i..iLen2]) == Val(old(u[i..iLen2 + (if isMaxLength then 0 else 1)])) % Val(v)
    ensures !isMaxLength ==> u[iLen2] == 0
    ensures forall m :: 0 <= m < u.Length && !(i <= m < iLen2 + (if isMaxLength then 0 else 1)) ==> u[m] == old(u[m])
  {
    ghost var U: int, V: int := Val(u[i..iLen2 + (if isMaxLength then 0 else 1)]), Val(v);
    ghost var pn := Pow(|v|);
    assert 1 <= V <= pn by {
      ValTrimmedTopPositive(v);
      ValBound(v);
    }
    var t := MulSubWindow(u, i, iLen2, isMaxLength, v, divEst);
    ValBound(u[i..iLen2]);
    SubtractOutcome(U, V, divEst, Val(u[i..iLen2]), t, pn);
    divRes := divEst;
    if t < 0 {
      divRes := divRes - 1;
      AddBack(u, i, iLen2, isMaxLength, v, U % V);
    }
  }

  /**
   * Multiply-subtract of a digit q from the window, the top limb (unless
   * isMaxLength) taking the last borrow: t is the window's new top as a
   * signed number, stored in the top limb modulo 2^32.
   */
  method MulSubWindow(u: array<uint32>, i: nat, iLen2: nat, isMaxLength: bool, v: seq<uint32>, q: uint32)
    returns (t: int)
    requires |v| >= 1 && iLen2 == i + |v| && iLen2 + (if isMaxLength then 0 else 1) <= u.Length
    modifies u
    ensures Val(u[i..iLen2]) + t * Pow(|v|) == Val(old(u[i..iLen2 + (if isMaxLength then 0 else 1)])) - q * Val(v)
    ensures !isMaxLength ==> u[iLen2] == t % BASE
    ensures forall m :: 0 <= m < u.Length && !(i <= m < iLen2 + (if isMaxLength then 0 else 1)) ==> u[m] == old(u[m])
  {
    ghost var w := u[i..iLen2 + (if isMaxLength then 0 else 1)];
    ghost var wn: int := if isMaxLength then 0 else u[iLen2];
    ghost var lowOld := Val(u[i..iLen2]);
    assert Val(w) == lowOld + wn * Pow(|v|) by {
      LowAndTop(w, |v|, isMaxLength);
      assert w[..|v|] == u[i..iLen2];
    }
    var k := MulSubLimbs(u, i, v, q);
    ghost var low: seq<uint32> := u[i..iLen2];
    if !isMaxLength {
      t := u[iLen2] - k;
      u[iLen2] := t % BASE;
      assert u[i..iLen2] == low;
    } else {
      t := -k;
    }
    WindowArith(Val(low), lowOld, k, Pow(|v|), wn, t, q * Val(v), Val(w));
  }

  lemma {:induction false} WindowArith(low1: int, lowOld: int, k: int, pn: int, wn: int, t: int, qv: int, w: int)
    requires low1 - k * pn == lowOld - qv && w == lowOld + wn * pn && t == wn - k
    ensures low1 + t * pn == w - qv
  {
    assert t * pn == wn * pn - k * pn;
  }

  /**
   * The add-back after an over-estimated digit: the window's low limbs hold
   * its remainder plus the divisor less 2^(32|v|), and its top limb (unless
   * isMaxLength) wrapped to 2^32 - 1; adding v back carries out once, which
   * clears the top limb.
   */
  method AddBack(u: array<uint32>, i: nat, iLen2: nat, isMaxLength: bool, v: seq<uint32>, ghost r: int)
    requires |v| >= 1 && iLen2 == i + |v| && iLen2 + (if isMaxLength then 0 else 1) <= u.Length
    requires 0 <= r < Val(v) && Val(v) <= Pow(|v|)
    requires Val(u[i..iLen2]) + Val(v) == r + Pow(|v|)
    requires !isMaxLength ==> u[iLen2] == BASE - 1
    modifies u
    ensures Val(u[i..iLen2]) == r
    ensures !isMaxLength ==> u[iLen2] == 0
    ensures forall m :: 0 <= m < u.Length && !(i <= m < iLen2 + (if isMaxLength then 0 else 1)) ==> u[m] == old(u[m])
  {
    var c := AddBackLimbs(u, i, v);
    ghost var low := u[i..iLen2];
    assert Val(low) == r && c == 1 by {
      ValBound(low);
      AddBackOutcome(r, Val(v), Pow(|v|), Val(low), c);
    }
    if !isMaxLength {
      u[iLen2] := (c + u[iLen2]) % BASE;
      assert u[i..iLen2] == low;
    }
  }

  /** A divisor whose top limb is nonzero is positive. */
  lemma {:induction false} ValTrimmedTopPositive(v: seq<uint32>)
    requires |v| >= 1 && v[|v| - 1] >= 1
    ensures Val(v) >= 1
  {
    ValLast(v);
    MulLe(1, v[|v| - 1], Pow(|v| - 1));
  }

  /** The window split for the estimate: its top three limbs, the rest, and the divisor's low part. */
  lemma {:induction false} WindowFacts(w: seq<uint32>, v: seq<uint32>, isMaxLength: bool) returns (r: (nat, nat, nat))
    requires |v| >= 2 && v[|v| - 1] >= HALF && |w| == |v| + (if isMaxLength then 0 else 1)
    requires Val(w[1..]) < Val(v)
    ensures r.0 == (if isMaxLength then w[|v| - 1] else w[|v|] * BASE + w[|v| - 1]) * BASE + w[|v| - 2]
    ensures Val(w) == r.0 * Pow(|v| - 2) + r.1 && r.1 < Pow(|v| - 2)
    ensures Val(v) == (v[|v| - 1] * BASE + v[|v| - 2]) * Pow(|v| - 2) + r.2 && r.2 < Pow(|v| - 2)
    ensures Val(w) < BASE * Val(v)
    ensures r.0 < BASE * ((v[|v| - 1] * BASE + v[|v| - 2]) + 1)
  {
    var n := |v|;
    TopTwo(v);
    if isMaxLength {
      TopTwo(w);
      r := (w[n - 1] * BASE + w[n - 2], Val(w[..n - 2]), Val(v[..n - 2]));
    } else {
      var x := TopThree(w);
      r := (x, Val(w[..n - 2]), Val(v[..n - 2]));
    }
    ValHead(w);
    assert Val(w) < BASE * Val(v) by {
      MulLe(Val(w[1..]) + 1, Val(v), BASE);
    }
    assert v[n - 1] * BASE + v[n - 2] >= BASE;
    WindowTop(Val(w), Val(v), r.0, r.1, v[n - 1] * BASE + v[n - 2], r.2, Pow(n - 2));
  }

  /** The window's value is its low |v| limbs plus the top limb (zero in the first step). */
  lemma {:induction false} LowAndTop(w: seq<uint32>, n: nat, isMaxLength: bool)
    requires |w| == n + (if isMaxLength then 0 else 1)
    ensures Val(w) == Val(w[..n]) + (if isMaxLength then 0 else w[n]) * Pow(n)
  {
    if isMaxLength {
      assert w[..n] == w;
    } else {
      ValLast(w);
    }
  }

  // ---------------------------------------------------------------------------
  // The main loop

  /** Where the window of step i ends: one limb past i + |v|, except in the first step. */
  function WindowEnd(i: int, maxLength: nat, n: nat): (e: nat)
    requires -1 <= i <= maxLength
    ensures e == (if i == maxLength then maxLength + n else i + n + 1)
  {
    if i == maxLength then maxLength + n else i + n + 1
  }

  /**
   * The main divide loop over the normalised dividend u[..length1] and the
   * normalised divisor v: quotient digits from position length1 - |v| down
   * to 0 (written to digitsRes when divNeeded), leaving the remainder in
   * u[..|v|]. The ghost qs holds the quotient digits, low digit first.
   */
  method DivideLoop(u: array<uint32>, length1: nat, v: seq<uint32>, digitsRes: array<uint32>, divNeeded: bool)
    returns (ghost qs: seq<uint32>)
    requires |v| >= 2 && v[|v| - 1] >= HALF && |v| <= length1 <= u.Length
    requires divNeeded ==> length1 - |v| + 1 <= digitsRes.Length
    requires u != digitsRes
    modifies u, digitsRes
    ensures |qs| == length1 - |v| + 1
    ensures Val(old(u[..length1])) == Val(qs) * Val(v) + Val(u[..|v|])
    ensures Val(u[..|v|]) < Val(v)
    ensures divNeeded ==> digitsRes[..|qs|] == qs
    ensures !divNeeded ==> unchanged(digitsRes)
    ensures forall m :: length1 <= m < u.Length ==> u[m] == old(u[m])
    ensures forall m :: |qs| <= m < digitsRes.Length ==> digitsRes[m] == old(digitsRes[m])
  {
    var n := |v|;
    var maxLength := length1 - n;
    ghost var u0 := Val(u[..length1]);
    ghost var vv := Val(v);
    ValTrimmedTopPositive(v);
    TopBelowDivisor(u[maxLength + 1..length1], v);
    qs := [];
    assert u[..][..length1] == u[..length1];
    assert u[..][maxLength + 1..length1] == u[maxLength + 1..length1];
    LoopInvInit(u[..], maxLength, n, u0, vv);
    var i: int := maxLength;
    while i >= 0
      invariant LoopInv(u[..], i, maxLength, n, qs, u0, vv)
      invariant divNeeded ==> digitsRes[i + 1..maxLength + 1] == qs
      invariant !divNeeded ==> unchanged(digitsRes)
      invariant forall m :: length1 <= m < u.Length ==> u[m] == old(u[m])
      invariant forall m :: maxLength + 1 <= m < digitsRes.Length ==> digitsRes[m] == old(digitsRes[m])
      decreases i
    {
      qs := Round(u, i, maxLength, v, digitsRes, divNeeded, qs, u0, vv);
      i := i - 1;
    }
    assert u[..][..n] == u[..n];
    LoopInvExit(u[..], maxLength, n, qs, u0, vv);
  }

  /** Before the first round the whole dividend is the window, and no digit is produced yet. */
  lemma {:induction false} LoopInvInit(us: seq<uint32>, maxLength: nat, n: nat, u0: nat, vv: nat)
    requires 1 <= n && maxLength + n <= |us| && vv >= 1
    requires u0 == Val(us[..maxLength + n]) && Val(us[maxLength + 1..maxLength + n]) < vv
    ensures LoopInv(us, maxLength, maxLength, n, [], u0, vv)
  {
    assert Val([]) == 0;
  }

  /** After the last round the quotient digits and the low n limbs make up the dividend. */
  lemma {:induction false} LoopInvExit(us: seq<uint32>, maxLength: nat, n: nat, qs: seq<uint32>, u0: nat, vv: nat)
    requires LoopInv(us, -1, maxLength, n, qs, u0, vv)
    ensures |qs| == maxLength + 1 && u0 == Val(qs) * vv + Val(us[..n]) && Val(us[..n]) < vv
  {
    assert Pow(0) == 1;
    assert us[0..n] == us[..n];
  }

  /** One round of the main loop: the quotient digit at position i. */
  method Round(u: array<uint32>, i: nat, maxLength: nat, v: seq<uint32>, digitsRes: array<uint32>, divNeeded: bool,
               ghost qs: seq<uint32>, ghost u0: nat, ghost vv: nat) returns (ghost qs2: seq<uint32>)
    requires |v| >= 2 && v[|v| - 1] >= HALF && vv == Val(v) && maxLength + |v| <= u.Length
    requires LoopInv(u[..], i, maxLength, |v|, qs, u0, vv)
    requires divNeeded ==> maxLength + 1 <= digitsRes.Length && digitsRes[i + 1..maxLength + 1] == qs
    requires u != digitsRes
    modifies u, digitsRes
    ensures LoopInv(u[..], i - 1, maxLength, |v|, qs2, u0, vv)
    ensures divNeeded ==> digitsRes[i..maxLength + 1] == qs2
    ensures !divNeeded ==> unchanged(digitsRes)
    ensures forall m :: maxLength + |v| <= m < u.Length ==> u[m] == old(u[m])
    ensures forall m :: 0 <= m < digitsRes.Length && m != i ==> digitsRes[m] == old(digitsRes[m])
  {
    var n := |v|;
    var iLen2 := i + n;
    var isMaxLength := iLen2 == maxLength + n;
    ghost var before := u[..];
    ghost var e := WindowEnd(i, maxLength, n);
    assert before[i + 1..e] == u[i + 1..e];
    var divRes := DivideStep(u, i, iLen2, isMaxLength, v);
    if divNeeded {
      digitsRes[i] := divRes;
      assert digitsRes[i..maxLength + 1] == [divRes] + digitsRes[i + 1..maxLength + 1];
    }
    RoundKeepsInv(before, u[..], i, maxLength, n, qs, divRes, u0, vv);
    qs2 := [divRes] + qs;
  }

  /**
   * The main loop's invariant before the step at i (after it when i = -1):
   * the dividend equals the quotient digits found so far, scaled to their
   * position, plus what is left in us below the window end; and the part of
   * the next window above its lowest limb is below the divisor.
   */
  ghost predicate LoopInv(us: seq<uint32>, i: int, maxLength: nat, n: nat, qs: seq<uint32>, u0: nat, vv: nat)
  {
    -1 <= i <= maxLength && |qs| == maxLength - i && 1 <= n && maxLength + n <= |us| && vv >= 1
    && u0 == Val(qs) * vv * Pow(i + 1) + Val(us[..WindowEnd(i, maxLength, n)])
    && Val(us[i + 1..WindowEnd(i, maxLength, n)]) < vv
  }

  /** One round of the main loop keeps its invariant. */
  lemma {:induction false} RoundKeepsInv(before: seq<uint32>, after: seq<uint32>, i: int, maxLength: nat, n: nat, qs: seq<uint32>,
                      d: uint32, u0: nat, vv: nat)
    requires LoopInv(before, i, maxLength, n, qs, u0, vv) && 0 <= i
    requires |after| == |before|
    requires forall m :: 0 <= m < |before| && !(i <= m < WindowEnd(i, maxLength, n)) ==> after[m] == before[m]
    requires d == Val(before[i..WindowEnd(i, maxLength, n)]) / vv
    requires Val(after[i..i + n]) == Val(before[i..WindowEnd(i, maxLength, n)]) % vv
    ensures LoopInv(after, i - 1, maxLength, n, [d] + qs, u0, vv)
  {
    var e := WindowEnd(i, maxLength, n);
    var e2 := WindowEnd(i - 1, maxLength, n);
    assert e2 == i + n;
    var b := before[..e];
    var a := after[..e2];
    assert a[..i] == b[..i];
    assert b[i..] == before[i..e];
    assert a[i..] == after[i..i + n];
    LoopStep(b, a, i, n, qs, d, vv, u0);
    assert after[i..e2] == after[i..i + n];
  }

  /** The limbs of the dividend above the first window are below the divisor. */
  lemma {:induction false} TopBelowDivisor(top: seq<uint32>, v: seq<uint32>)
    requires |v| >= 2 && v[|v| - 1] >= 1 && |top| == |v| - 1
    ensures Val(top) < Val(v)
  {
    ValBound(top);
    ValLast(v);
    MulLe(1, v[|v| - 1], Pow(|v| - 1));
  }

  /**
   * One round of the main loop keeps its invariant: the digit found for the
   * window at i joins the quotient and the window's remainder replaces it.
   */
  lemma {:induction false} LoopStep(before: seq<uint32>, after: seq<uint32>, i: nat, n: nat, qs: seq<uint32>, d: uint32, vv: nat, u0: nat)
    requires vv >= 1 && |after| == i + n && i + n <= |before|
    requires after[..i] == before[..i]
    requires u0 == Val(qs) * vv * Pow(i + 1) + Val(before)
    requires d == Val(before[i..]) / vv && Val(after[i..]) == Val(before[i..]) % vv
    ensures u0 == Val([d] + qs) * vv * Pow(i) + Val(after)
  {
    var w := before[i..];
    ValSplit(before, i);
    ValSplit(after, i);
    ValHead([d] + qs);
    assert ([d] + qs)[1..] == qs;
    var q: int, lo: int, p: int, ww: int, r: int := Val(qs), Val(before[..i]), Pow(i), Val(w), Val(after[i..]);
    var vi: int := vv;
    assert Pow(i + 1) == BASE * p;
    assert Val(before) == lo + p * ww;
    assert Val(after) == lo + p * r;
    DivIdentity(ww, vi);
    LoopArith(u0, q, vi, p, lo, ww, d, r);
    var q2: int := Val([d] + qs);
    assert q2 == d + BASE * q;
    var a: int := Val(after);
    assert u0 == q2 * vi * p + a;
  }

  lemma {:induction false} DivIdentity(x: int, m: int)
    requires m > 0
    ensures x == (x / m) * m + x % m
  {
  }

  lemma {:induction false} LoopArith(u0: int, q: int, v: int, p: int, lo: int, w: int, d: int, r: int)
    requires v >= 1 && w == d * v + r
    requires u0 == q * v * (BASE * p) + (lo + p * w)
    ensures u0 == (d + BASE * q) * v * p + (lo + p * r)
  {
    assert p * w == p * (d * v) + p * r;
    assert q * v * (BASE * p) == BASE * q * v * p;
    assert (d + BASE * q) * v * p == d * v * p + BASE * q * v * p;
  }

  // ---------------------------------------------------------------------------
  // Normalisation and the whole division

  /**
   * Shifts both operands left by shift1 = 31 - Msb(top limb of b) bits, so
   * that the divisor's top limb has its top bit set: a plain copy of a when
   * shift1 is 0 (the divisor is then used as it is), else a right shift by
   * 32 - shift1 into buffer1[1..] with the spilled low bits in buffer1[0],
   * and the same for b into buffer2.
   */
  method Normalize(a: seq<uint32>, b: seq<uint32>, buffer1: array<uint32>, buffer2: array<uint32>)
    returns (shift1: nat, length1: nat, v: seq<uint32>)
    requires Trimmed(a) && Trimmed(b) && |a| >= |b| >= 2
    requires |a| + 1 <= buffer1.Length && |b| <= buffer2.Length && buffer1 != buffer2
    modifies buffer1, buffer2
    ensures shift1 <= 31
    ensures |v| == |b| && v[|b| - 1] >= HALF && Val(v) == Val(b) * Pow2(shift1)
    ensures shift1 == 0 ==> v == b
    ensures shift1 != 0 ==> v == buffer2[..|b|]
    ensures |a| <= length1 <= |a| + 1 && Trimmed(buffer1[..length1])
    ensures Val(buffer1[..length1]) == Val(a) * Pow2(shift1)
  {
    var n := |b|;
    var msb := Bits.Msb(b[n - 1]);
    shift1 := 31 - msb;
    Pow2Add(msb, shift1);
    MulLe(Pow2(msb), b[n - 1], Pow2(shift1));
    Pow2Small();
    length1 := NormalizeDividend(a, buffer1, shift1);
    v := NormalizeDivisor(b, buffer2, shift1);
    NormalizedTop(b, v, Pow2(shift1));
  }

  /** The dividend into buffer1, shifted left by shift1 bits (a copy when shift1 is 0). */
  method NormalizeDividend(a: seq<uint32>, buffer1: array<uint32>, shift1: nat) returns (length1: nat)
    requires Trimmed(a) && |a| >= 2 && |a| + 1 <= buffer1.Length && shift1 <= 31
    modifies buffer1
    ensures |a| <= length1 <= |a| + 1 && Trimmed(buffer1[..length1])
    ensures Val(buffer1[..length1]) == Val(a) * Pow2(shift1)
  {
    if shift1 == 0 {
      DigitHelper.DigitsBlockCopy(a, buffer1, 0, |a|);
      length1 := |a|;
      assert buffer1[..length1] == buffer1[0..|a|] == a;
      assert Pow2(shift1) == 1;
    } else {
      var rightShift1 := Constants.DigitBitCount - shift1;
      var l := DigitOpHelper.Shr(a, buffer1, 1, rightShift1, true);
      length1 := l + 1;
      assert buffer1[..length1] == buffer1[0..1 + l];
      assert buffer1[..length1][1..] == buffer1[1..1 + l];
      TrimmedShifted(buffer1[..length1]);
    }
  }

  /**
   * The divisor shifted left by shift1 bits: b itself when shift1 is 0, else
   * buffer2[..|b|]; shift1 is chosen so that its top limb does not overflow.
   */
  method NormalizeDivisor(b: seq<uint32>, buffer2: array<uint32>, shift1: nat) returns (v: seq<uint32>)
    requires |b| >= 2 && |b| <= buffer2.Length && shift1 <= 31 && b[|b| - 1] < Pow2(32 - shift1)
    modifies buffer2
    ensures |v| == |b| && Val(v) == Val(b) * Pow2(shift1)
    ensures shift1 == 0 ==> v == b
    ensures shift1 != 0 ==> v == buffer2[..|b|]
  {
    var n := |b|;
    if shift1 == 0 {
      v := b;
      assert Pow2(shift1) == 1;
    } else {
      var rightShift1: nat := Constants.DigitBitCount - shift1;
      assert 32 - rightShift1 == shift1;
      ShrOfSmall(b[n - 1], rightShift1);
      var l2 := DigitOpHelper.Shr(b, buffer2, 1, rightShift1, true);
      assert l2 == n - 1;
      v := buffer2[..n];
      assert buffer2[0..1 + l2] == v;
    }
  }

  /** A limb below 2^k shifts right by k to zero. */
  lemma {:induction false} ShrOfSmall(x: uint32, k: nat)
    requires x < Pow2(k)
    ensures Shr32(x, k) == 0
  {
    DivModUnique(x, Pow2(k), 0, x);
  }

  /** A shifted trimmed run is trimmed when its top limb came from the source's top limb. */
  lemma {:induction false} TrimmedShifted(s: seq<uint32>)
    requires |s| >= 2 && Trimmed(s[1..])
    ensures Trimmed(s)
  {
    assert s[|s| - 1] == s[1..][|s| - 2];
  }

  /** After normalisation the divisor's top limb has its top bit set. */
  lemma {:induction false} NormalizedTop(b: seq<uint32>, v: seq<uint32>, ps: int)
    requires |b| >= 1 && |v| == |b| && ps >= 1 && Val(v) == Val(b) * ps
    requires HALF <= b[|b| - 1] * ps
    ensures v[|v| - 1] >= HALF
  {
    var n := |b|;
    ValLast(b);
    ValLast(v);
    ValBound(v[..n - 1]);
    NormalizedTopArith(b[n - 1], Pow(n - 1), Val(b), Val(v), Val(v[..n - 1]), v[n - 1], ps);
  }

  lemma {:induction false} NormalizedTopArith(top: int, p: int, vb: int, vv: int, lowv: int, vt: int, ps: int)
    requires p >= 1 && ps >= 1 && top >= 0 && 0 <= lowv < p
    requires vb >= p * top && vv == vb * ps && vv == lowv + p * vt && top * ps >= HALF
    ensures vt >= HALF
  {
    MulLe(p * top, vb, ps);
    assert p * top * ps == (top * ps) * p;
    MulLe(HALF, top * ps, p);
    if vt < HALF {
      MulLe(vt + 1, HALF, p);
    }
  }

  /**
   * Knuth's division from the dividend a and divisor b, both trimmed, with
   * at least two limbs in b and a greater than b. The quotient goes to
   * digitsRes when divNeeded, the remainder to buffer1 when modNeeded; the
   * returned length is the quotient's, length1 the remainder's.
   */
  method DivModGeneral(a: seq<uint32>, buffer1: array<uint32>, b: seq<uint32>, buffer2: array<uint32>,
                       digitsRes: array<uint32>, flags: DividerBase.ResultFlags) returns (resultLength: nat, length1: nat)
    requires Trimmed(a) && Trimmed(b) && DividerBase.NeedsGeneral(a, b)
    requires |a| + 1 <= buffer1.Length && |b| <= buffer2.Length
    requires flags.divNeeded ==> |a| + 2 <= digitsRes.Length + |b|
    requires buffer1 != buffer2 && buffer1 != digitsRes && buffer2 != digitsRes
    modifies buffer1, buffer2, digitsRes
    ensures flags.divNeeded ==>
      resultLength <= digitsRes.Length && Val(digitsRes[..resultLength]) == Val(a) / Val(b) && Trimmed(digitsRes[..resultLength])
    ensures !flags.divNeeded ==> resultLength == 0
    ensures flags.modNeeded ==>
      length1 <= buffer1.Length && Val(buffer1[..length1]) == Val(a) % Val(b) && Trimmed(buffer1[..length1])
  {
    LongerDividend(a, b);
    ghost var x: nat, y: nat := Val(a), Val(b);
    assert 1 <= y < x by { ValTrimmedRange(b); }
    var shift1, len1, v := Normalize(a, b, buffer1, buffer2);
    assert |v| <= len1 && len1 <= buffer1.Length && v[|v| - 1] >= HALF;
    assert Pow(len1 - 1) <= Val(buffer1[..len1]) by { ValTrimmedRange(buffer1[..len1]); }
    assert flags.divNeeded ==> len1 - |v| + 1 <= digitsRes.Length;
    resultLength, length1 := DivideNormalized(buffer1, len1, v, digitsRes, flags, shift1, x, y);
  }

  /** A dividend greater than a divisor of at least two limbs has at least as many limbs. */
  lemma {:induction false} LongerDividend(a: seq<uint32>, b: seq<uint32>)
    requires Trimmed(a) && Trimmed(b) && DividerBase.NeedsGeneral(a, b)
    ensures |a| >= |b|
  {
    ValTrimmedRange(a);
    ValTrimmedRange(b);
    if |a| < |b| {
      PowMonotone(|a|, |b| - 1);
    }
  }

  /**
   * The division proper on the normalised operands (dividend buffer1[..len1]
   * equal to x * 2^shift1, divisor v equal to y * 2^shift1): the main loop,
   * then the remainder shifted back and the quotient's length.
   */
  method DivideNormalized(buffer1: array<uint32>, len1: nat, v: seq<uint32>, digitsRes: array<uint32>,
                          flags: DividerBase.ResultFlags, shift1: nat, ghost x: nat, ghost y: nat)
    returns (resultLength: nat, length1: nat)
    requires |v| >= 2 && v[|v| - 1] >= HALF && |v| <= len1 <= buffer1.Length && shift1 <= 31
    requires 1 <= y < x && Val(buffer1[..len1]) == x * Pow2(shift1) && Val(v) == y * Pow2(shift1)
    requires Pow(len1 - 1) <= Val(buffer1[..len1])
    requires flags.divNeeded ==> len1 - |v| + 1 <= digitsRes.Length
    requires buffer1 != digitsRes
    modifies buffer1, digitsRes
    ensures flags.divNeeded ==>
      resultLength <= digitsRes.Length && Val(digitsRes[..resultLength]) == x / y && Trimmed(digitsRes[..resultLength])
    ensures !flags.divNeeded ==> resultLength == 0
    ensures flags.modNeeded ==> length1 <= buffer1.Length && Val(buffer1[..length1]) == x % y && Trimmed(buffer1[..length1])
  {
    var n := |v|;
    var maxLength := len1 - n;
    ghost var u0 := Val(buffer1[..len1]);
    ghost var qs := DivideLoop(buffer1, len1, v, digitsRes, flags.divNeeded);
    ghost var r := Val(buffer1[..n]);
    KnuthResult(x, y, Pow2(shift1), Val(qs), r);
    length1 := len1;
    if flags.modNeeded {
      length1 := ShiftBackRemainder(buffer1, n, shift1, x % y);
    }
    if !flags.divNeeded {
      resultLength := 0;
    } else {
      ValBound(v);
      QuotientAtLeast(u0, Val(v), n, len1, Val(qs), r);
      QuotientPositive(x, y);
      QuotientLength(qs, maxLength);
      if digitsRes[maxLength] == 0 {
        resultLength := maxLength;
        assert digitsRes[..resultLength] == qs[..maxLength];
      } else {
        resultLength := maxLength + 1;
        assert digitsRes[..resultLength] == qs;
      }
    }
  }

  /** A dividend above the divisor has a positive quotient. */
  lemma {:induction false} QuotientPositive(x: nat, y: nat)
    requires 1 <= y < x
    ensures x / y >= 1
  {
    if x / y == 0 {
      DivIdentity(x, y);
    }
  }

  /**
   * The remainder back in place: its real length below |v|, then a right
   * shift by shift1 in place when both are nonzero.
   */
  method ShiftBackRemainder(buffer1: array<uint32>, n: nat, shift1: nat, ghost r: nat) returns (length1: nat)
    requires n <= buffer1.Length && shift1 <= 31 && Val(buffer1[..n]) == r * Pow2(shift1)
    modifies buffer1
    ensures length1 <= n && Val(buffer1[..length1]) == r && Trimmed(buffer1[..length1])
  {
    length1 := DigitHelper.GetRealDigitsLength(buffer1[..], n);
    assert buffer1[..][..n] == buffer1[..n] && buffer1[..][..length1] == buffer1[..length1];
    ScaledBack(r, Pow2(shift1));
    if shift1 != 0 && length1 != 0 {
      length1 := DigitOpHelper.Shr(buffer1[..length1], buffer1, 0, shift1, false);
      assert buffer1[..length1] == buffer1[0..length1];
    } else if length1 == 0 {
      assert Val(buffer1[..n]) == 0;
      ZeroScaled(r, Pow2(shift1));
    }
  }

  /** (r * p) / p == r. */
  lemma {:induction false} ScaledBack(r: nat, p: nat)
    requires p >= 1
    ensures (r * p) / p == r
  {
    DivModUnique(r * p, p, r, 0);
  }

  /** r * p == 0 with p >= 1 makes r zero. */
  lemma {:induction false} ZeroScaled(r: nat, p: nat)
    requires p >= 1 && r * p == 0
    ensures r == 0
  {
    if r > 0 {
      MulLe(1, r, p);
    }
  }

  /**
   * The normalisation scales dividend and divisor alike: the loop's result
   * x * p = q * (y * p) + r with r below y * p is the quotient of x by y and
   * its remainder scaled by p.
   */
  lemma {:induction false} KnuthResult(x: nat, y: nat, p: nat, q: nat, r: nat)
    requires y >= 1 && p >= 1 && x * p == q * (y * p) + r && r < y * p
    ensures q == x / y && r == (x % y) * p
  {
    var z := x - q * y;
    assert r == z * p by {
      assert q * (y * p) == (q * y) * p;
    }
    if z < 0 {
      MulLe(z, -1, p);
    }
    if z >= y {
      MulLe(y, z, p);
    }
    DivModUnique(x, y, q, z);
  }

  /**
   * The quotient is large: a normalised dividend of L limbs (top limb
   * nonzero) over an n-limb divisor gives a quotient of at least
   * 2^(32 (L - n - 1)).
   */
  lemma {:induction false} QuotientAtLeast(u0: nat, v: nat, n: nat, len: nat, q: nat, r: nat)
    requires n <= len && 1 <= len && Pow(len - 1) <= u0 && 1 <= v < Pow(n) && u0 == q * v + r && r < v
    ensures len - n >= 1 ==> q >= Pow(len - n - 1)
  {
    if len - n >= 1 {
      PowAdd(len - n - 1, n);
      MulLe(q + 1, q + 1, v);
      assert u0 < (q + 1) * v;
      MulLe(v, Pow(n), q + 1);
      if q + 1 <= Pow(len - n - 1) {
        MulLe(q + 1, Pow(len - n - 1), Pow(n));
      }
    }
  }

  /**
   * The quotient digits with a zero top digit dropped are trimmed and keep
   * their value, given the quotient's lower bound.
   */
  lemma {:induction false} QuotientLength(qs: seq<uint32>, maxLength: nat)
    requires |qs| == maxLength + 1 && Val(qs) >= 1
    requires maxLength >= 1 ==> Val(qs) >= Pow(maxLength - 1)
    ensures qs[maxLength] != 0 ==> Trimmed(qs)
    ensures qs[maxLength] == 0 ==> Val(qs[..maxLength]) == Val(qs) && Trimmed(qs[..maxLength])
  {
    if qs[maxLength] == 0 {
      var t := qs[..maxLength];
      assert Val(t) == Val(qs) by { ValLast(qs); }
      if maxLength >= 1 {
        TopLimbNonzero(t);
      }
    }
  }

  /**
   * Division of the limb runs a by b: the common special cases first, then
   * Knuth's algorithm. The quotient goes to digitsRes when divNeeded (its
   * length is returned), the remainder to buffer1 when modNeeded (its length
   * in length1); buffer2 is scratch space for the shifted divisor.
   */
  method DivMod(a: seq<uint32>, buffer1: array<uint32>, b: seq<uint32>, buffer2: array<uint32>,
                digitsRes: array<uint32>, flags: DividerBase.ResultFlags, cmpResult: int)
    returns (resultLength: nat, length1: nat)
    requires Trimmed(a) && Trimmed(b) && |b| >= 1 && |a| < Constants.MaxUInt32Value
    requires DividerBase.CmpArgument(a, b, cmpResult)
    requires |a| + 1 <= buffer1.Length && |b| <= buffer2.Length
    requires flags.divNeeded ==> 1 <= digitsRes.Length && |a| + 2 <= digitsRes.Length + |b|
    requires buffer1 != buffer2 && buffer1 != digitsRes && buffer2 != digitsRes
    modifies buffer1, buffer2, digitsRes
    ensures flags.divNeeded ==>
      resultLength <= digitsRes.Length && Val(digitsRes[..resultLength]) == Val(a) / Val(b) && Trimmed(digitsRes[..resultLength])
    ensures flags.modNeeded ==>
      length1 <= buffer1.Length && Val(buffer1[..length1]) == Val(a) % Val(b) && Trimmed(buffer1[..length1])
  {
    resultLength, length1 := DividerBase.DivModSpecial(a, buffer1, b, digitsRes, flags, cmpResult);
    if resultLength != Constants.MaxUInt32Value {
      return;
    }
    resultLength, length1 := DivModGeneral(a, buffer1, b, buffer2, digitsRes, flags);
  }

  /**
   * The overload on growable buffers: an empty remainder buffer is replaced
   * by a zeroed one of |a| + 1 limbs, an empty divisor buffer by one of |b|
   * limbs, before the division runs. The remainder buffer actually used is
   * returned with the lengths.
   */
  method DivModBuffers(a: seq<uint32>, buffer1: array<uint32>, b: seq<uint32>, buffer2: array<uint32>,
                       digitsRes: array<uint32>, flags: DividerBase.ResultFlags, cmpResult: int)
    returns (resultLength: nat, length1: nat, modDigits: array<uint32>)
    requires Trimmed(a) && Trimmed(b) && |b| >= 1 && |a| < Constants.MaxUInt32Value
    requires DividerBase.CmpArgument(a, b, cmpResult)
    requires buffer1.Length == 0 || |a| + 1 <= buffer1.Length
    requires buffer2.Length == 0 || |b| <= buffer2.Length
    requires flags.divNeeded ==> 1 <= digitsRes.Length && |a| + 2 <= digitsRes.Length + |b|
    requires buffer1 != buffer2 && buffer1 != digitsRes && buffer2 != digitsRes
    modifies buffer1, buffer2, digitsRes
    ensures modDigits == buffer1 || (buffer1.Length == 0 && fresh(modDigits) && modDigits.Length == |a| + 1)
    ensures flags.divNeeded ==>
      resultLength <= digitsRes.Length && Val(digitsRes[..resultLength]) == Val(a) / Val(b) && Trimmed(digitsRes[..resultLength])
    ensures flags.modNeeded ==>
      length1 <= modDigits.Length && Val(modDigits[..length1]) == Val(a) % Val(b) && Trimmed(modDigits[..length1])
  {
    modDigits := buffer1;
    if buffer1.Length == 0 {
      modDigits := new uint32[|a| + 1](_ => 0);
    }
    var divisorDigits := buffer2;
    if buffer2.Length == 0 {
      divisorDigits := new uint32[|b|](_ => 0);
    }
    resultLength, length1 := DivMod(a, modDigits, b, divisorDigits, digitsRes, flags, cmpResult);
  }
}
