/**
 * Bit helpers on 32-bit words: leading zeros, most significant bit and
 * ceiling of the binary logarithm.
 */
module Bits {
  import opened Limbs

  /** Number of significant bits of x (0 for 0). */
  function BitLength(x: nat): nat
  {
    if x == 0 then 0 else 1 + BitLength(x / 2)
  }

  ghost predicate IsPow2(x: nat)
  {
    exists k: nat :: Pow2(k) == x
  }

  lemma {:induction false} BitLengthBounds(x: nat)
    ensures x < Pow2(BitLength(x))
    ensures x > 0 ==> BitLength(x) >= 1 && Pow2(BitLength(x) - 1) <= x
  {
    if x > 0 {
      BitLengthBounds(x / 2);
    }
  }

  /** The bit length is the one b with 2^(b-1) <= x < 2^b. */
  lemma {:induction false} BitLengthUnique(x: nat, b: nat)
    requires x > 0 && b >= 1 && Pow2(b - 1) <= x < Pow2(b)
    ensures BitLength(x) == b
  {
    if b > 1 {
      BitLengthUnique(x / 2, b - 1);
    } else {
      assert x == 1;
    }
  }

  /** Shifting a non-zero value left by k bits adds k to its bit length. */
  lemma {:induction false} BitLengthShift(x: nat, k: nat)
    requires x > 0
    ensures BitLength(x * Pow2(k)) == BitLength(x) + k
  {
    if k > 0 {
      BitLengthShift(x, k - 1);
      var y := x * Pow2(k - 1);
      assert x * Pow2(k) == 2 * y;
      assert (2 * y) / 2 == y;
    }
  }

  /**
   * Number of leading zero bits of a 32-bit word, by binary search:
   * whenever the top half of what is left is empty, shift it out.
   */
  method Nlz(value: uint32) returns (n: int)
    ensures n == 32 - BitLength(value)
    ensures value == 0 ==> n == 32
    ensures value > 0 ==> 0 <= n <= 31 && Pow2(31 - n) <= value < Pow2(32 - n)
  {
    var x := value;
    if x == 0 {
      return 32;
    }
    n := 1;
    Pow2Small();
    SearchStep(value, x, n, 16, 0x1_0000, 0x1_0000, 1);
    if x / 0x1_0000 == 0 {
      n, x := n + 16, (x * 0x1_0000) % BASE;
    }
    SearchStep(value, x, n, 8, 0x100, 0x100_0000, 0x1_0000);
    if x / 0x100_0000 == 0 {
      n, x := n + 8, (x * 0x100) % BASE;
    }
    SearchStep(value, x, n, 4, 0x10, 0x1000_0000, 0x100_0000);
    if x / 0x1000_0000 == 0 {
      n, x := n + 4, (x * 0x10) % BASE;
    }
    SearchStep(value, x, n, 2, 4, 0x4000_0000, 0x1000_0000);
    if x / 0x4000_0000 == 0 {
      n, x := n + 2, (x * 4) % BASE;
    }
    FinalStep(value, x, n);
    n := n - x / 0x8000_0000;
  }

  /**
   * One step of the binary search keeps `BitLength(x) == BitLength(value) + n - 1`
   * and raises the known lower bound of x from lo to lim.
   */
  lemma {:induction false} SearchStep(value: nat, x: nat, n: int, k: nat, p: nat, lim: nat, lo: nat)
    requires p == Pow2(k) && lim * p == BASE && lo * p == lim && lo > 0 && lim > 0
    requires lo <= x < BASE && BitLength(x) == BitLength(value) + n - 1
    ensures x / lim == 0 ==> lim <= (x * p) % BASE < BASE && BitLength((x * p) % BASE) == BitLength(value) + n + k - 1
    ensures x / lim != 0 ==> lim <= x
  {
    DivZero(x, lim);
    if x / lim == 0 {
      var y := x * p;
      MulLe(x, lim - 1, p);
      assert (lim - 1) * p == BASE - p;
      MulLe(lo, x, p);
      ModSmall(y, BASE);
      BitLengthShift(x, k);
    }
  }

  lemma {:induction false} FinalStep(value: uint32, x: nat, n: int)
    requires value > 0
    requires 0x4000_0000 <= x < BASE && BitLength(x) == BitLength(value) + n - 1
    ensures n - x / 0x8000_0000 == 32 - BitLength(value)
    ensures 0 <= 32 - BitLength(value) <= 31
    ensures Pow2(BitLength(value) - 1) <= value < Pow2(BitLength(value))
  {
    Pow2Small();
    var b := if x >= 0x8000_0000 then 32 else 31;
    BitLengthUnique(x, b);
    assert x / 0x8000_0000 == b - 31;
    BitLengthWord(value);
  }

  /** Position of the most significant one bit, -1 for zero: floor(log2 x). */
  function Msb(x: uint32): (r: int)
    ensures x == 0 ==> r == -1
    ensures x > 0 ==> 0 <= r <= 31 && Pow2(r) <= x < Pow2(r + 1)
  {
    BitLengthWord(x);
    BitLength(x) - 1
  }

  lemma {:induction false} BitLengthWord(x: uint32)
    ensures BitLength(x) <= 32
    ensures x < Pow2(BitLength(x))
    ensures x > 0 ==> BitLength(x) >= 1 && Pow2(BitLength(x) - 1) <= x
  {
    BitLengthBounds(x);
    Pow2Small();
    if x > 0 && BitLength(x) > 32 {
      Pow2Monotone(32, BitLength(x) - 1);
    }
  }

  /** Ceil(log2 x); `1 << Msb(x)` is only defined for x >= 1. */
  function CeilLog2(x: uint32): (r: nat)
    requires x >= 1
    ensures x <= Pow2(r) && (r == 0 || Pow2(r - 1) < x)
  {
    var msb := Msb(x);
    if x != Pow2(msb) then msb + 1 else msb
  }

  /** CeilLog2 is the least k with x <= 2^k. */
  lemma {:induction false} CeilLog2Least(x: uint32, k: nat)
    requires x >= 1 && x <= Pow2(k)
    ensures CeilLog2(x) <= k
  {
    var r := CeilLog2(x);
    if k < r {
      Pow2Monotone(k, r - 1);
    }
  }

  /** CeilLog2 equals Msb exactly for powers of two, and exceeds it by one otherwise. */
  lemma {:induction false} CeilLog2VsMsb(x: uint32)
    requires x >= 1
    ensures CeilLog2(x) == Msb(x) <==> IsPow2(x)
    ensures !IsPow2(x) ==> CeilLog2(x) == Msb(x) + 1
  {
    var m := Msb(x);
    if IsPow2(x) {
      var k: nat :| Pow2(k) == x;
      if k < m {
        Pow2Monotone(k + 1, m);
      } else if m < k {
        Pow2Monotone(m + 1, k);
      }
    } else {
      assert x != Pow2(m);
    }
  }
}
