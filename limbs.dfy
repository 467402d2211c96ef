/**
 * 32-bit limbs, powers of two and the value of a little-endian limb sequence.
 * Every kernel of the library works on a run of `UInt32` limbs; its meaning is
 * `Val(s) = s[0] + s[1]*2^32 + ... + s[n-1]*2^(32(n-1))`.
 */
module Limbs {

  const BASE: int := 0x1_0000_0000

  /** An unsigned 32-bit machine word. */
  type uint32 = x: int | 0 <= x < 0x1_0000_0000

  /** An unsigned 64-bit machine word. */
  type uint64 = x: int | 0 <= x < 0x1_0000_0000_0000_0000

  /** A signed 32-bit machine word. */
  type int32 = x: int | -0x8000_0000 <= x < 0x8000_0000

  /** A signed 64-bit machine word. */
  type int64 = x: int | -0x8000_0000_0000_0000 <= x < 0x8000_0000_0000_0000

  /** A byte. */
  type uint8 = x: int | 0 <= x < 0x100

  /** 2^n */
  function Pow2(n: nat): (r: nat)
    ensures r >= 1
  {
    if n == 0 then 1 else 2 * Pow2(n - 1)
  }

  /** BASE^n, the weight of limb n */
  function Pow(n: nat): (r: nat)
    ensures r >= 1
  {
    if n == 0 then 1 else BASE * Pow(n - 1)
  }

  /** x^n over the integers. */
  function IntPow(x: int, n: nat): (r: int)
    ensures x >= 0 ==> r >= 0
    ensures x >= 1 ==> r >= 1
  {
    if n == 0 then 1 else x * IntPow(x, n - 1)
  }

  function Max(a: int, b: int): int
  {
    if a < b then b else a
  }

  function Min(a: int, b: int): int
  {
    if a <= b then a else b
  }

  /** The number a little-endian limb sequence denotes. */
  function Val(s: seq<uint32>): nat
  {
    if |s| == 0 then 0 else Val(s[..|s| - 1]) + s[|s| - 1] * Pow(|s| - 1)
  }

  /** No leading (most significant) zero limb: the length is the real length. */
  predicate Trimmed(s: seq<uint32>)
  {
    |s| == 0 || s[|s| - 1] != 0
  }

  predicate AllZero(s: seq<uint32>)
  {
    forall i :: 0 <= i < |s| ==> s[i] == 0
  }

  function Zeros(n: nat): (z: seq<uint32>)
    ensures |z| == n && AllZero(z)
  {
    if n == 0 then [] else Zeros(n - 1) + [0]
  }

  // ---------------------------------------------------------------------------
  // Powers

  lemma {:induction false} Pow2Add(a: nat, b: nat)
    ensures Pow2(a + b) == Pow2(a) * Pow2(b)
  {
    if a > 0 {
      Pow2Add(a - 1, b);
      assert Pow2(a + b) == 2 * Pow2(a - 1 + b);
    }
  }

  lemma {:induction false} PowAdd(a: nat, b: nat)
    ensures Pow(a + b) == Pow(a) * Pow(b)
  {
    if a > 0 {
      PowAdd(a - 1, b);
      assert Pow(a + b) == BASE * Pow(a - 1 + b);
    }
  }

  lemma {:induction false} Pow2Monotone(a: nat, b: nat)
    requires a <= b
    ensures Pow2(a) <= Pow2(b)
  {
    if a < b {
      Pow2Monotone(a, b - 1);
    }
  }

  lemma {:induction false} PowMonotone(a: nat, b: nat)
    requires a <= b
    ensures Pow(a) <= Pow(b)
  {
    if a < b {
      PowMonotone(a, b - 1);
    }
  }

  lemma {:induction false} Pow2Small()
    ensures Pow2(1) == 2 && Pow2(2) == 4 && Pow2(4) == 16 && Pow2(8) == 0x100
    ensures Pow2(16) == 0x1_0000 && Pow2(24) == 0x100_0000 && Pow2(28) == 0x1000_0000
    ensures Pow2(30) == 0x4000_0000 && Pow2(31) == 0x8000_0000 && Pow2(32) == BASE
  {
    assert Pow2(2) == 4;
    assert Pow2(4) == 16 by { assert Pow2(3) == 8; }
    Pow2Add(4, 4);
    Pow2Add(8, 8);
    Pow2Add(16, 8);
    Pow2Add(24, 4);
    Pow2Add(28, 2);
    Pow2Add(30, 1);
    Pow2Add(16, 16);
  }

  /** A limb weight is a power of two. */
  lemma {:induction false} PowIsPow2(n: nat)
    ensures Pow(n) == Pow2(32 * n)
  {
    if n > 0 {
      PowIsPow2(n - 1);
      Pow2Small();
      Pow2Add(32 * (n - 1), 32);
    }
  }

  // ---------------------------------------------------------------------------
  // Value of a limb sequence

  /** p*x + d*(p*q) == p*(x + d*q) */
  lemma {:induction false} Distribute(p: int, x: int, d: int, q: int)
    ensures p * x + d * (p * q) == p * (x + d * q)
  {
  }

  lemma {:induction false} MulAssoc(a: int, b: int, c: int)
    ensures a * (b * c) == (a * b) * c
  {
  }

  lemma {:induction false} MulLe(a: int, b: int, c: int)
    requires a <= b && 0 <= c
    ensures a * c <= b * c
  {
  }

  lemma {:induction false} DivZero(x: int, m: int)
    requires 0 <= x && m > 0
    ensures x / m == 0 <==> x < m
  {
    var q, r := x / m, x % m;
    assert x == q * m + r && 0 <= r < m;
    if q >= 1 {
      MulLe(1, q, m);
    } else if q < 0 {
      MulLe(q, -1, m);
    }
  }

  /** x == q*m + r with 0 <= r < m fixes the quotient and remainder. */
  lemma {:induction false} DivModUnique(x: int, m: int, q: int, r: int)
    requires m > 0 && 0 <= r < m && x == q * m + r
    ensures x / m == q && x % m == r
  {
    var q', r' := x / m, x % m;
    assert q' * m + r' == q * m + r;
    if q' < q {
      MulLe(q' + 1, q, m);
    } else if q < q' {
      MulLe(q + 1, q', m);
    }
  }

  lemma {:induction false} ModSmall(a: int, m: int)
    requires 0 <= a < m
    ensures a % m == a
  {
  }

  /** Adding a multiple of m does not change the remainder. */
  lemma {:induction false} ModAddMultiple(x: int, m: int, k: int)
    requires m >= 1
    ensures (x + m * k) % m == x % m
  {
    assert x + m * k == (x / m + k) * m + x % m;
    DivModUnique(x + m * k, m, x / m + k, x % m);
  }

  /** One more limb on top of a value below p stays below BASE * p. */
  lemma {:induction false} LimbStep(lo: int, d: int, p: int)
    requires 0 <= lo < p && 0 <= d < BASE
    ensures lo + d * p < BASE * p
  {
    MulLe(d, BASE - 1, p);
  }

  lemma {:induction false} ValBound(s: seq<uint32>)
    ensures Val(s) < Pow(|s|)
  {
    if |s| > 0 {
      var n := |s| - 1;
      ValBound(s[..n]);
      LimbStep(Val(s[..n]), s[n], Pow(n));
    }
  }

  lemma {:induction false} ValConcat(s: seq<uint32>, t: seq<uint32>)
    ensures Val(s + t) == Val(s) + Pow(|s|) * Val(t)
    decreases |t|
  {
    if |t| == 0 {
      assert s + t == s;
    } else {
      var n := |t| - 1;
      assert (s + t)[..|s + t| - 1] == s + t[..n];
      ValConcat(s, t[..n]);
      PowAdd(|s|, n);
      assert Val(s + t) == Val(s + t[..n]) + t[n] * Pow(|s| + n);
      Distribute(Pow(|s|), Val(t[..n]), t[n], Pow(n));
    }
  }

  /** The value split at limb k. */
  lemma {:induction false} ValSplit(s: seq<uint32>, k: nat)
    requires k <= |s|
    ensures Val(s) == Val(s[..k]) + Pow(k) * Val(s[k..])
  {
    assert s == s[..k] + s[k..];
    ValConcat(s[..k], s[k..]);
  }

  /** Peeling the least significant limb. */
  lemma {:induction false} ValHead(s: seq<uint32>)
    requires |s| > 0
    ensures Val(s) == s[0] + BASE * Val(s[1..])
  {
    ValSplit(s, 1);
    assert Val(s[..1]) == s[0] by {
      assert s[..1][..0] == [];
    }
  }

  lemma {:induction false} ValSingle(d: uint32)
    ensures Val([d]) == d
  {
    assert [d][..0] == [];
  }

  lemma {:induction false} ValAppend(s: seq<uint32>, d: uint32)
    ensures Val(s + [d]) == Val(s) + d * Pow(|s|)
  {
    assert (s + [d])[..|s|] == s;
  }

  /** A run that extends r by one limb has the value of r with that limb appended. */
  lemma {:induction false} ValSnoc(t: seq<uint32>, r: seq<uint32>)
    requires |t| == |r| + 1 && t[..|r|] == r
    ensures Val(t) == Val(r + [t[|r|]])
  {
    ValAppend(r, t[|r|]);
    assert t[..|t| - 1] == r;
  }

  /** The top limb peeled off, weight first. */
  lemma {:induction false} ValLast(s: seq<uint32>)
    requires |s| > 0
    ensures Val(s) == Val(s[..|s| - 1]) + Pow(|s| - 1) * s[|s| - 1]
  {
    var d, p := s[|s| - 1], Pow(|s| - 1);
    assert Val(s) == Val(s[..|s| - 1]) + d * p;
    MulComm(d, p);
  }

  /** The prefix of i+1 limbs is the prefix of i limbs plus limb i. */
  lemma {:induction false} PrefixLast(s: seq<uint32>, i: nat)
    requires i < |s|
    ensures Val(s[..i + 1]) == Val(s[..i]) + Pow(i) * s[i]
  {
    assert s[..i + 1][..i] == s[..i];
    ValLast(s[..i + 1]);
  }

  /** Equal factors, equal products (the solver does not always see this itself). */
  lemma {:induction false} MulArgs(a: int, b: int, a': int, b': int)
    requires a == a' && b == b'
    ensures a * b == a' * b'
  {
  }

  lemma {:induction false} MulComm(a: int, b: int)
    ensures a * b == b * a
  {
  }

  lemma {:induction false} ValAllZero(s: seq<uint32>)
    requires AllZero(s)
    ensures Val(s) == 0
  {
    if |s| > 0 {
      ValAllZero(s[..|s| - 1]);
    }
  }

  /** Only all-zero runs are worth zero. */
  lemma {:induction false} ValZeroAllZero(s: seq<uint32>)
    requires Val(s) == 0
    ensures AllZero(s)
  {
    if |s| > 0 {
      var n := |s| - 1;
      ZeroSum(Val(s[..n]), s[n], Pow(n));
      ValZeroAllZero(s[..n]);
      assert forall i :: 0 <= i < n ==> s[i] == s[..n][i];
    }
  }

  /** A zero sum of a natural number and a multiple of a positive weight. */
  lemma {:induction false} ZeroSum(a: nat, d: nat, p: nat)
    requires a + d * p == 0 && p >= 1
    ensures a == 0 && d == 0
  {
    MulLe(0, d, p);
    if d > 0 {
      MulLe(1, d, p);
    }
  }

  /** A value below BASE^k has no non-zero limb from k upwards. */
  lemma {:induction false} ValBelowPow(s: seq<uint32>, k: nat)
    requires k <= |s| && Val(s) < Pow(k)
    ensures AllZero(s[k..])
  {
    ValSplit(s, k);
    HighPartZero(Val(s), Val(s[..k]), Pow(k), Val(s[k..]));
    ValZeroAllZero(s[k..]);
  }

  /** v == lo + p * hi below p leaves no room for a non-zero hi. */
  lemma {:induction false} HighPartZero(v: int, lo: int, p: int, hi: int)
    requires v == lo + p * hi && lo >= 0 && hi >= 0 && p >= 0 && v < p
    ensures hi == 0
  {
    if hi != 0 {
      MulLe(1, hi, p);
    }
  }

  /** a < p and b < q give a * b < p * q for naturals. */
  lemma {:induction false} ProductBelow(a: int, b: int, p: int, q: int)
    requires 0 <= a < p && 0 <= b < q
    ensures a * b < p * q
  {
    MulLe(b, q - 1, a);
    MulLe(a, p - 1, q - 1);
  }

  /** Zero limbs on top do not change the value. */
  lemma {:induction false} ValZeroTop(s: seq<uint32>, k: nat)
    requires k <= |s| && AllZero(s[k..])
    ensures Val(s) == Val(s[..k])
  {
    ValSplit(s, k);
    ValAllZero(s[k..]);
  }

  /** A non-zero top limb bounds the value from below. */
  lemma {:induction false} ValTopLower(s: seq<uint32>)
    requires |s| > 0 && s[|s| - 1] != 0
    ensures Val(s) >= Pow(|s| - 1)
  {
    var n := |s| - 1;
    MulLe(1, s[n], Pow(n));
  }

  /** A trimmed sequence of n limbs lies in [BASE^(n-1), BASE^n). */
  lemma {:induction false} ValTrimmedRange(s: seq<uint32>)
    requires Trimmed(s)
    ensures Val(s) < Pow(|s|)
    ensures |s| > 0 ==> Pow(|s| - 1) <= Val(s)
    ensures Val(s) == 0 <==> |s| == 0
  {
    ValBound(s);
    if |s| > 0 {
      ValTopLower(s);
    }
  }

  /** Trimmed limb sequences of different lengths have ordered values. */
  lemma {:induction false} ValLengthOrder(a: seq<uint32>, b: seq<uint32>)
    requires Trimmed(a) && Trimmed(b) && |a| < |b|
    ensures Val(a) < Val(b)
  {
    ValTrimmedRange(a);
    ValTrimmedRange(b);
    PowMonotone(|a|, |b| - 1);
  }

  /** Trimmed limb sequences are determined by their value. */
  lemma {:induction false} ValInjective(a: seq<uint32>, b: seq<uint32>)
    requires Trimmed(a) && Trimmed(b) && Val(a) == Val(b)
    ensures a == b
    decreases |a|
  {
    if |a| < |b| {
      ValLengthOrder(a, b);
    } else if |b| < |a| {
      ValLengthOrder(b, a);
    } else if |a| > 0 {
      ValHead(a);
      ValHead(b);
      assert a[0] == b[0] && Val(a[1..]) == Val(b[1..]);
      assert Trimmed(a[1..]) && Trimmed(b[1..]);
      ValInjective(a[1..], b[1..]);
      assert a == [a[0]] + a[1..] && b == [b[0]] + b[1..];
    }
  }

  /**
   * Two sequences of equal length that agree above limb i and differ at limb i
   * are ordered like their limb i.
   */
  lemma {:induction false} ValCompareAt(a: seq<uint32>, b: seq<uint32>, i: nat)
    requires |a| == |b| && i < |a|
    requires a[i + 1..] == b[i + 1..] && a[i] < b[i]
    ensures Val(a) < Val(b)
  {
    ValSplit(a, i);
    ValSplit(b, i);
    ValBound(a[..i]);
    assert a[i..][1..] == a[i + 1..] && b[i..][1..] == b[i + 1..];
    ValHead(a[i..]);
    ValHead(b[i..]);
    LowerPlusScaled(Val(a[..i]), Val(b[..i]), Val(a[i..]), Val(b[i..]), Pow(i));
  }

  /** lo1 + p*x < lo2 + p*y when lo1 < p, lo2 >= 0 and x < y. */
  lemma {:induction false} LowerPlusScaled(lo1: int, lo2: int, x: int, y: int, p: int)
    requires 0 <= lo1 < p && 0 <= lo2 && x < y
    ensures lo1 + p * x < lo2 + p * y
  {
    MulLe(x + 1, y, p);
  }

  /** The real length of a sequence: without its leading zero limbs. */
  function RealLength(s: seq<uint32>): (r: nat)
    ensures r <= |s| && Trimmed(s[..r]) && AllZero(s[r..])
  {
    if |s| == 0 then 0
    else if s[|s| - 1] == 0 then (assert s[..|s| - 1][..RealLength(s[..|s| - 1])] == s[..RealLength(s[..|s| - 1])]; RealLength(s[..|s| - 1]))
    else |s|
  }

  /** The real length is the only cut with a trimmed prefix and an all-zero rest. */
  lemma {:induction false} RealLengthUnique(s: seq<uint32>, r: nat)
    requires r <= |s| && Trimmed(s[..r]) && AllZero(s[r..])
    ensures r == RealLength(s)
  {
    var q := RealLength(s);
    if r < q {
      assert false;
    } else if q < r {
      assert false;
    }
  }

  /** Trimming keeps the value. */
  lemma {:induction false} TrimKeepsValue(s: seq<uint32>)
    ensures Val(s[..RealLength(s)]) == Val(s)
  {
    ValZeroTop(s, RealLength(s));
  }

  // ---------------------------------------------------------------------------
  // Word operations, written the way C evaluates them on unsigned words.

  /** `x << k` on a 32-bit word: the bits shifted past bit 31 are lost. */
  function Shl32(x: uint32, k: nat): uint32
  {
    (x * Pow2(k)) % BASE
  }

  /** `x >> k` on a 32-bit word. */
  function Shr32(x: uint32, k: nat): uint32
  {
    DivShrinks(x, Pow2(k));
    x / Pow2(k)
  }

  /** Dividing a natural number by a positive one does not make it larger. */
  lemma {:induction false} DivShrinks(x: int, d: int)
    requires x >= 0 && d >= 1
    ensures 0 <= x / d <= x
  {
    var q, r := x / d, x % d;
    assert x == q * d + r && 0 <= r;
    if q < 0 {
      MulLe(q, -1, d);
      assert false;
    }
    MulLe(1, d, q);
  }

  /** 2^c == 2^a 2^b when c == a + b. */
  lemma {:induction false} Pow2Sum(a: nat, b: nat, c: nat)
    requires c == a + b
    ensures Pow2(c) == Pow2(a) * Pow2(b)
  {
    Pow2Add(a, b);
  }

  /** Adding y to limb j adds y BASE^j to the value. */
  lemma {:induction false} ValAddAt(s: seq<uint32>, j: nat, y: nat)
    requires j < |s| && s[j] + y < BASE
    ensures Val(s[j := s[j] + y]) == Val(s) + y * Pow(j)
  {
    var t := s[j := s[j] + y];
    ValSplit(s, j);
    ValSplit(t, j);
    assert t[..j] == s[..j];
    ValHead(s[j..]);
    ValHead(t[j..]);
    assert t[j..][1..] == s[j..][1..];
    Distribute(Pow(j), Val(s[j..]), y, 1);
  }

  /** A run of n >= 1 limbs worth at least BASE^(n-1) has a non-zero top limb. */
  lemma {:induction false} TopLimbNonzero(t: seq<uint32>)
    requires |t| >= 1 && Val(t) >= Pow(|t| - 1)
    ensures t[|t| - 1] != 0
  {
    ValLast(t);
    ValBound(t[..|t| - 1]);
  }
}
