/**
 * The Miller–Rabin probable-prime test, on the integer value of the number
 * under test, and the modular power it is built on. The random witnesses
 * are an input: one 32-bit value per round, as the PCG generator supplies
 * them.
 *
 * As written, the flag that records "this round reached n - 1 by squaring"
 * is set once and never cleared, so every later round passes as long as it
 * does not reach 1. IsProbablyPrime is the test as written;
 * IsProbablyPrimeFixed clears the flag at the start of each round, which is
 * the standard test.
 *
 * As written, d = (n - 1) / (1 << s) shifts a 32-bit int: for s = 31 the
 * divisor is -2^31, d comes out negative and the first ModPow rejects it.
 * Decompose is that computation; DecomposeExact divides by 2^s.
 */
module MillerRabin {
  import opened Limbs
  import opened Errors
  import BigInteger
  import IntXDivider

  /** Products of congruent factors are congruent. */
  lemma {:induction false} ModMulCongruent(a: int, a': int, b: int, b': int, m: int)
    requires m >= 1 && a % m == a' % m && b % m == b' % m
    ensures (a * b) % m == (a' * b') % m
  {
    var p, q := a / m - a' / m, b / m - b' / m;
    assert a == a' + m * p && b == b' + m * q;
    assert a * b == a' * b' + m * (p * b' + a' * q + m * p * q);
    ModAddMultiple(a' * b', m, p * b' + a' * q + m * p * q);
  }

  /** The base may be reduced before raising it to a power. */
  lemma {:induction false} PowerModBase(b: int, e: nat, m: int)
    requires m >= 1
    ensures IntPow(b % m, e) % m == IntPow(b, e) % m
  {
    if e > 0 {
      PowerModBase(b, e - 1, m);
      ModSmall(b % m, m);
      ModMulCongruent(b % m, b, IntPow(b % m, e - 1), IntPow(b, e - 1), m);
    }
  }

  /** b^(2k) == (b*b)^k */
  lemma {:induction false} PowerSquare(b: int, k: nat)
    ensures IntPow(b, 2 * k) == IntPow(b * b, k)
  {
    if k > 0 {
      PowerSquare(b, k - 1);
      assert IntPow(b, 2 * k) == b * (b * IntPow(b, 2 * (k - 1)));
    }
  }

  /**
   * OpHelper::ModPow: square-and-multiply from the lowest exponent bit, each
   * product reduced modulo `modulus`. The result starts at 1 and is only
   * reduced when an exponent bit is set, so a zero exponent gives 1 even for
   * a modulus of 1.
   */
  method ModPow(value: nat, exponent: nat, modulus: nat) returns (result: nat)
    requires modulus >= 1
    ensures exponent > 0 ==> result == IntPow(value, exponent) % modulus
    ensures exponent == 0 ==> result == 1
  {
    result := 1;
    var mValue := value % modulus;
    var mExponent := exponent;
    PowerModBase(value, exponent, modulus);
    while mExponent > 0
      invariant mValue < modulus
      invariant (result * IntPow(mValue, mExponent)) % modulus == IntPow(value, exponent) % modulus
      invariant mExponent > 0 || exponent == 0 || result < modulus
      invariant exponent == 0 ==> result == 1
    {
      ghost var r0, v0, e0 := result, mValue, mExponent;
      if mExponent % 2 == 1 {
        result := (result * mValue) % modulus;
      }
      mExponent := mExponent / 2;
      mValue := (mValue * mValue) % modulus;
      ModPowStep(r0, v0, e0, result, mValue, mExponent, modulus);
    }
    if exponent > 0 {
      ModSmall(result, modulus);
    }
  }

  /** One round of ModPow keeps result * mValue^mExponent fixed modulo m. */
  lemma {:induction false} ModPowStep(r: int, v: int, e: nat, r': int, v': int, e': nat, m: int)
    requires m >= 1 && e > 0 && e' == e / 2 && v' == (v * v) % m
    requires r' == (if e % 2 == 1 then (r * v) % m else r)
    ensures (r' * IntPow(v', e')) % m == (r * IntPow(v, e)) % m
  {
    var p, p' := IntPow(v * v, e'), IntPow(v', e');
    assert p' % m == p % m by {
      PowerModBase(v * v, e', m);
    }
    if e % 2 == 1 {
      assert IntPow(v, e) == v * p by {
        PowerSquare(v, e');
      }
      assert r' % m == (r * v) % m by {
        ModSmall((r * v) % m, m);
      }
      ModMulCongruent(r', r * v, p', p, m);
      MulAssoc(r, v, p);
    } else {
      assert IntPow(v, e) == p by {
        PowerSquare(v, e');
      }
      ModMulCongruent(r', r, p', p, m);
    }
  }

  // ---------------------------------------------------------------------------
  // The decomposition n - 1 == d * 2^s

  /** The number of times 2 divides x. */
  function TwoExponent(x: nat): nat
    requires x >= 1
  {
    if x % 2 == 1 then 0 else 1 + TwoExponent(x / 2)
  }

  /** x with every factor 2 removed. */
  function OddPart(x: nat): nat
    requires x >= 1
  {
    if x % 2 == 1 then x else OddPart(x / 2)
  }

  /** x == OddPart(x) * 2^TwoExponent(x), and the odd part is odd. */
  lemma {:induction false} Decomposition(x: nat)
    requires x >= 1
    ensures x == OddPart(x) * Pow2(TwoExponent(x)) && OddPart(x) % 2 == 1
  {
    if x % 2 == 0 {
      var h := x / 2;
      Decomposition(h);
      var o, t := OddPart(h), TwoExponent(h);
      assert OddPart(x) == o && TwoExponent(x) == t + 1;
      assert Pow2(t + 1) == 2 * Pow2(t);
      MulShift(o, Pow2(t));
    }
  }

  /** The halving loop: shift n - 1 right while it is even, counting the shifts. */
  method Halving(n: int) returns (s: nat)
    requires n >= 3 && n % 2 == 1
    ensures s == TwoExponent(n - 1) && s >= 1
  {
    s := 0;
    var m: nat := n - 1;
    while m % 2 == 0
      invariant m >= 1
      invariant s + TwoExponent(m) == TwoExponent(n - 1) && OddPart(m) == OddPart(n - 1)
      invariant m * Pow2(s) == n - 1
      decreases m
    {
      HalveStep(m, s, n - 1);
      s := s + 1;
      m := m / 2;
    }
    OddQuotient(n - 1, m, s);
  }

  /**
   * The halving loop, then d = (n - 1) / (1 << s) with 1 << s an int, the
   * quotient truncated toward zero. Up to s = 30 the shift is 2^s and d is
   * the odd part; at s = 31 it is the least int, -2^31, and d is the odd
   * part negated. A larger s shifts past the width of an int.
   */
  method Decompose(n: int) returns (s: nat, d: int)
    requires n >= 3 && n % 2 == 1 && TwoExponent(n - 1) < 32
    ensures s == TwoExponent(n - 1) && s >= 1
    ensures s <= 30 ==> d == OddPart(n - 1) && d >= 1 && n - 1 == d * Pow2(s)
    ensures s == 31 ==> d == -(OddPart(n - 1) as int) && d <= -1
  {
    s := Halving(n);
    var shift: int := BigInteger.WrapInt32(Pow2(s));
    assert shift != 0 by {
      Pow2Small();
      Pow2Monotone(s, 31);
    }
    d := IntXDivider.Quotient(n - 1, shift);
    ShiftQuotient(n - 1, s, shift, d);
  }

  /** The quotient by the int 1 << s: the odd part, negated when the shift reaches the sign bit. */
  lemma {:induction false} ShiftQuotient(x: nat, s: nat, shift: int, d: int)
    requires x >= 1 && s == TwoExponent(x) && s < 32
    requires shift == BigInteger.WrapInt32(Pow2(s)) && shift != 0 && d == IntXDivider.Quotient(x, shift)
    ensures s <= 30 ==> d == OddPart(x) && d >= 1 && x == d * Pow2(s)
    ensures s == 31 ==> d == -(OddPart(x) as int) && d <= -1
  {
    Decomposition(x);
    Pow2Small();
    DivModUnique(x, Pow2(s), OddPart(x), 0);
    if s <= 30 {
      Pow2Monotone(s, 30);
    }
  }

  /** The decomposition with d = (n - 1) / 2^s, as the halving loop means it. */
  method DecomposeExact(n: int) returns (s: nat, d: nat)
    requires n >= 3 && n % 2 == 1
    ensures s == TwoExponent(n - 1) && d == OddPart(n - 1)
    ensures s >= 1 && d >= 1 && n - 1 == d * Pow2(s)
  {
    s := Halving(n);
    d := (n - 1) / Pow2(s);
    Decomposition(n - 1);
    DivModUnique(n - 1, Pow2(s), OddPart(n - 1), 0);
  }

  /** One pass of the halving loop keeps its invariant. */
  lemma {:induction false} HalveStep(m: nat, s: nat, x: nat)
    requires m >= 1 && m % 2 == 0 && x >= 1
    requires s + TwoExponent(m) == TwoExponent(x) && OddPart(m) == OddPart(x) && m * Pow2(s) == x
    ensures m / 2 >= 1 && s + 1 + TwoExponent(m / 2) == TwoExponent(x) && OddPart(m / 2) == OddPart(x)
    ensures (m / 2) * Pow2(s + 1) == x
  {
    var h, p := m / 2, Pow2(s);
    assert m == 2 * h;
    assert Pow2(s + 1) == 2 * p;
    MulShift(h, p);
  }

  /** h * (2p) == (2h) * p */
  lemma {:induction false} MulShift(h: int, p: int)
    ensures h * (2 * p) == (2 * h) * p
  {
  }

  /** When the loop stops, m is the odd part, and so is (n - 1) / 2^s. */
  lemma {:induction false} OddQuotient(x: nat, m: nat, s: nat)
    requires x >= 1 && m >= 1 && m % 2 == 1
    requires s + TwoExponent(m) == TwoExponent(x) && OddPart(m) == OddPart(x) && m * Pow2(s) == x
    ensures s == TwoExponent(x) && x / Pow2(s) == OddPart(x) && OddPart(x) >= 1
    ensures s >= 1 || x % 2 == 1
  {
    DivModUnique(x, Pow2(s), m, 0);
    if s == 0 {
      assert Pow2(0) == 1;
    }
  }

  // ---------------------------------------------------------------------------
  // One round

  /** The values a round looks at: x_0 = a^d mod n and x_(r+1) = x_r^2 mod n. */
  function Chain(n: int, a: int, d: nat, r: nat): int
    requires n >= 1
  {
    if r == 0 then IntPow(a, d) % n else IntPow(Chain(n, a, d, r - 1), 2) % n
  }

  /** The round passes at once: x_0 is 1 or n - 1. */
  predicate Immediate(n: int, a: int, d: nat)
    requires n >= 1
  {
    Chain(n, a, d, 0) == 1 || Chain(n, a, d, 0) == n - 1
  }

  /** n is a strong probable prime to base a: x_0 is 1 or n - 1, or some x_r with 1 <= r < s is n - 1. */
  predicate StrongProbablePrime(n: int, a: int, d: nat, s: nat)
    requires n >= 1
  {
    Immediate(n, a, d) || exists r :: 1 <= r < s && Chain(n, a, d, r) == n - 1
  }

  /** Squaring reaches 1 before it reaches n - 1: the round proves n composite. */
  predicate HitsOne(n: int, a: int, d: nat, s: nat)
    requires n >= 1
  {
    !Immediate(n, a, d) &&
    exists r :: 1 <= r < s && Chain(n, a, d, r) == 1 && forall j :: 1 <= j < r ==> Chain(n, a, d, j) != n - 1
  }

  /** The round reaches n - 1 by squaring, which sets the flag Redo. */
  predicate SetsRedo(n: int, a: int, d: nat, s: nat)
    requires n >= 1
  {
    !Immediate(n, a, d) && StrongProbablePrime(n, a, d, s)
  }

  /** Once the chain is 1 it stays 1. */
  lemma {:induction false} ChainStaysOne(n: int, a: int, d: nat, r: nat, r': nat)
    requires n >= 2 && r <= r' && Chain(n, a, d, r) == 1
    ensures Chain(n, a, d, r') == 1
    decreases r' - r
  {
    if r < r' {
      ChainStaysOne(n, a, d, r, r' - 1);
      assert IntPow(1, 2) == 1;
      assert Chain(n, a, d, r') == IntPow(Chain(n, a, d, r' - 1), 2) % n;
      ModSmall(1, n);
    }
  }

  /** Reaching 1 first and reaching n - 1 exclude each other. */
  lemma {:induction false} HitsOneNotStrong(n: int, a: int, d: nat, s: nat)
    requires n >= 3 && HitsOne(n, a, d, s)
    ensures !StrongProbablePrime(n, a, d, s)
  {
    var r :| 1 <= r < s && Chain(n, a, d, r) == 1 && forall j :: 1 <= j < r ==> Chain(n, a, d, j) != n - 1;
    forall r' | 1 <= r' < s
      ensures Chain(n, a, d, r') != n - 1
    {
      if r <= r' {
        ChainStaysOne(n, a, d, r, r');
      }
    }
  }

  /** How a round ends: passed at x_0, reached n - 1, reached 1 first, or neither within s - 1 squarings. */
  datatype RoundEnd = PassedAtOnce | ReachedMinusOne | ReachedOne | Exhausted

  /**
   * One round with witness a: x = a^d mod n, then up to s - 1 squarings,
   * stopping at 1 or at n - 1.
   */
  method Round(n: int, a: nat, d: nat, s: nat) returns (end: RoundEnd)
    requires n >= 5 && d >= 1
    ensures end == PassedAtOnce <==> Immediate(n, a, d)
    ensures end == ReachedMinusOne <==> SetsRedo(n, a, d, s)
    ensures end == ReachedOne <==> HitsOne(n, a, d, s)
    ensures end == Exhausted ==> !StrongProbablePrime(n, a, d, s)
  {
    var x := ModPow(a, d, n);
    if x == 1 || x == n - 1 {
      return PassedAtOnce;
    }
    var r := 1;
    while r <= s - 1
      invariant 1 <= r <= Max(s, 1)
      invariant x == Chain(n, a, d, r - 1) && 0 <= x < n
      invariant forall j :: 1 <= j < r ==> Chain(n, a, d, j) != 1 && Chain(n, a, d, j) != n - 1
    {
      x := ModPow(x, 2, n);
      if x == 1 {
        NotStrongAfterOne(n, a, d, s, r);
        return ReachedOne;
      } else if x == n - 1 {
        NotHitsOneAfterMinusOne(n, a, d, s, r);
        return ReachedMinusOne;
      }
      r := r + 1;
    }
    end := Exhausted;
  }

  /** The round stopped at 1 on squaring r: it reached 1 first, so no n - 1 follows. */
  lemma {:induction false} NotStrongAfterOne(n: int, a: nat, d: nat, s: nat, r: nat)
    requires n >= 5 && 1 <= r < s && Chain(n, a, d, r) == 1 && !Immediate(n, a, d)
    requires forall j :: 1 <= j < r ==> Chain(n, a, d, j) != 1 && Chain(n, a, d, j) != n - 1
    ensures HitsOne(n, a, d, s) && !SetsRedo(n, a, d, s)
  {
    HitsOneNotStrong(n, a, d, s);
  }

  /** The round stopped at n - 1 on squaring r: no 1 came before it. */
  lemma {:induction false} NotHitsOneAfterMinusOne(n: int, a: nat, d: nat, s: nat, r: nat)
    requires n >= 5 && 1 <= r < s && Chain(n, a, d, r) == n - 1 && !Immediate(n, a, d)
    requires forall j :: 1 <= j < r ==> Chain(n, a, d, j) != 1 && Chain(n, a, d, j) != n - 1
    ensures SetsRedo(n, a, d, s) && !HitsOne(n, a, d, s)
  {
    if HitsOne(n, a, d, s) {
      HitsOneNotStrong(n, a, d, s);
    }
  }

  // ---------------------------------------------------------------------------
  // The test

  /**
   * Round i passes as the library runs it: n is a strong probable prime to
   * its witness, or the round does not reach 1 and an earlier round has set
   * Redo.
   */
  predicate PassesAsWritten(n: int, witnesses: seq<uint32>, i: int, d: nat, s: nat)
    requires n >= 1 && 0 <= i < |witnesses|
  {
    StrongProbablePrime(n, witnesses[i], d, s) ||
    (!HitsOne(n, witnesses[i], d, s) && exists j :: 0 <= j < i && SetsRedo(n, witnesses[j], d, s))
  }

  /** What IsProbablyPrime accepts: 2 and 3, and odd n >= 5 whose first k rounds all pass as written. */
  predicate AcceptsAsWritten(n: int, k: int, witnesses: seq<uint32>)
    requires k <= |witnesses|
  {
    n == 2 || n == 3 ||
    (n >= 5 && n % 2 == 1 && AllPassAsWritten(n, k, witnesses, OddPart(n - 1), TwoExponent(n - 1)))
  }

  /** Each of the first k rounds passes as written. */
  predicate AllPassAsWritten(n: int, k: int, witnesses: seq<uint32>, d: nat, s: nat)
    requires n >= 1 && k <= |witnesses|
  {
    forall i :: 0 <= i < k ==> PassesAsWritten(n, witnesses, i, d, s)
  }

  /** The standard test: 2 and 3, and odd n >= 5 that is a strong probable prime to each of the first k witnesses. */
  predicate AcceptsStrong(n: int, k: int, witnesses: seq<uint32>)
    requires k <= |witnesses|
  {
    n == 2 || n == 3 ||
    (n >= 5 && n % 2 == 1 &&
     forall i :: 0 <= i < k ==> StrongProbablePrime(n, witnesses[i], OddPart(n - 1), TwoExponent(n - 1)))
  }

  /**
   * MillerRabin::IsProbablyPrimeMR as written: k rounds, the i-th with
   * witnesses[i]; Redo is set by the first round that reaches n - 1 by
   * squaring and stays set for the rounds after it. When 2^31 divides n - 1
   * the d of Decompose is negative and the first round's ModPow fails with
   * an ArgumentException.
   */
  method IsProbablyPrime(n: int, k: int, witnesses: seq<uint32>) returns (r: Result<bool>)
    requires k <= |witnesses|
    requires n >= 5 && n % 2 == 1 ==> TwoExponent(n - 1) < 32
    ensures r.Failure? <==> n >= 5 && n % 2 == 1 && TwoExponent(n - 1) == 31 && k >= 1
    ensures r.Failure? ==> r.error == Argument
    ensures r.Success? ==> (r.value <==> AcceptsAsWritten(n, k, witnesses))
    ensures n == 2 || n == 3 ==> r == Success(true)
    ensures n != 2 && (n <= 1 || n % 2 == 0) ==> r == Success(false)
  {
    if n == 2 || n == 3 {
      return Success(true);
    } else if n <= 1 || n % 2 == 0 {
      return Success(false);
    }
    var s, d := Decompose(n);
    ghost var od := OddPart(n - 1);
    var redo := false;
    var i := 0;
    while i < k
      invariant 0 <= i <= |witnesses| && (i <= k || i == 0)
      invariant i > 0 ==> d == od && s <= 30
      invariant forall i' :: 0 <= i' < i ==> PassesAsWritten(n, witnesses, i', od, s)
      invariant redo <==> exists j :: 0 <= j < i && SetsRedo(n, witnesses[j], od, s)
    {
      if d < 0 {
        // IntX::ModPow rejects a negative exponent
        return Failure(Argument);
      }
      var fails;
      fails, redo := RoundAsWritten(n, witnesses, i, d, s, redo);
      if fails {
        assert !AllPassAsWritten(n, k, witnesses, od, s);
        return Success(false);
      }
      i := i + 1;
    }
    assert AllPassAsWritten(n, k, witnesses, od, s);
    return Success(true);
  }

  /**
   * n = 2^31 + 1 = 3 * 715827883: n - 1 is 2^31, so Decompose divides by the
   * int 1 << 31 and the test as written fails where the decomposition by
   * 2^s gives d = 1.
   */
  method ShiftOverflow() returns (r: Result<bool>, s: nat, d: nat)
    ensures 0x8000_0001 == 3 * 715827883
    ensures r == Failure(Argument)
    ensures s == 31 && d == 1
  {
    TwoExponentPow2(31);
    Pow2Small();
    r := IsProbablyPrime(0x8000_0001, 1, [2]);
    s, d := DecomposeExact(0x8000_0001);
  }

  /** 2^k has k factors 2 and odd part 1. */
  lemma {:induction false} TwoExponentPow2(k: nat)
    ensures TwoExponent(Pow2(k)) == k && OddPart(Pow2(k)) == 1
  {
    if k > 0 {
      TwoExponentPow2(k - 1);
      assert Pow2(k) == 2 * Pow2(k - 1);
      assert Pow2(k) % 2 == 0 && Pow2(k) / 2 == Pow2(k - 1);
    }
  }

  /**
   * One round of the loop in IsProbablyPrimeMR, given the Redo flag left
   * by the rounds before it: the round fails exactly when it does not pass
   * as written, and the flag afterwards records whether any round so far
   * has reached n - 1 by squaring.
   */
  method RoundAsWritten(n: int, witnesses: seq<uint32>, i: nat, d: nat, s: nat, redo: bool)
    returns (fails: bool, redo': bool)
    requires n >= 5 && d >= 1 && i < |witnesses|
    requires redo <==> exists j :: 0 <= j < i && SetsRedo(n, witnesses[j], d, s)
    ensures fails <==> !PassesAsWritten(n, witnesses, i, d, s)
    ensures redo' <==> exists j :: 0 <= j < i + 1 && SetsRedo(n, witnesses[j], d, s)
  {
    var end := Round(n, witnesses[i], d, s);
    redo' := redo || end == ReachedMinusOne;
    if end == ReachedOne {
      HitsOneNotStrong(n, witnesses[i], d, s);
      fails := true;
    } else {
      fails := end == Exhausted && !redo;
    }
  }

  /** The test with Redo cleared at the start of every round. */
  method IsProbablyPrimeFixed(n: int, k: int, witnesses: seq<uint32>) returns (r: bool)
    requires k <= |witnesses|
    ensures r <==> AcceptsStrong(n, k, witnesses)
    ensures n == 2 || n == 3 ==> r
    ensures n != 2 && (n <= 1 || n % 2 == 0) ==> !r
  {
    if n == 2 || n == 3 {
      return true;
    } else if n <= 1 || n % 2 == 0 {
      return false;
    }
    var s, d := DecomposeExact(n);
    var i := 0;
    while i < k
      invariant 0 <= i <= |witnesses| && (i <= k || i == 0)
      invariant forall i' :: 0 <= i' < i ==> StrongProbablePrime(n, witnesses[i'], d, s)
    {
      var redo := false;
      var end := Round(n, witnesses[i], d, s);
      if end == ReachedOne {
        HitsOneNotStrong(n, witnesses[i], d, s);
        return false;
      } else if end == ReachedMinusOne {
        redo := true;
      } else if end == Exhausted && !redo {
        return false;
      }
      i := i + 1;
    }
    return true;
  }

  /** Whatever the standard test accepts, the test as written accepts too. */
  lemma {:induction false} StrongAcceptedAsWritten(n: int, k: int, witnesses: seq<uint32>)
    requires k <= |witnesses| && AcceptsStrong(n, k, witnesses)
    ensures AcceptsAsWritten(n, k, witnesses)
  {
  }

  /**
   * The converse fails: 65 == 5 * 13, and with the witnesses 8, 2, 2, 2, 2
   * the first round reaches 64 == n - 1 (8^2 mod 65) and sets Redo, after
   * which the rounds with witness 2 (2, 4, 16, 61, 16, 61: never 1 nor 64)
   * pass although 65 is not a strong probable prime to base 2.
   */
  lemma {:induction false} RedoCounterexample()
    ensures 65 == 5 * 13
    ensures AcceptsAsWritten(65, 5, [8, 2, 2, 2, 2])
    ensures !AcceptsStrong(65, 5, [8, 2, 2, 2, 2])
  {
    var w: seq<uint32> := [8, 2, 2, 2, 2];
    SixtyFour();
    EightSetsRedo();
    TwoNotStrong();
    assert PassesAsWritten(65, w, 0, 1, 6);
    forall i | 1 <= i < 5
      ensures PassesAsWritten(65, w, i, 1, 6)
    {
      assert w[i] == 2 && SetsRedo(65, w[0], 1, 6);
    }
    assert !StrongProbablePrime(65, w[1], 1, 6);
  }

  /** 64 == 1 * 2^6. */
  lemma {:induction false} SixtyFour()
    ensures OddPart(64) == 1 && TwoExponent(64) == 6
  {
    assert OddPart(1) == 1 && TwoExponent(1) == 0;
    assert OddPart(2) == 1 && TwoExponent(2) == 1;
    assert OddPart(4) == 1 && TwoExponent(4) == 2;
    assert OddPart(8) == 1 && TwoExponent(8) == 3;
    assert OddPart(16) == 1 && TwoExponent(16) == 4;
    assert OddPart(32) == 1 && TwoExponent(32) == 5;
  }

  /** Witness 8 modulo 65: 8, then 64 == n - 1 after one squaring. */
  lemma {:induction false} EightSetsRedo()
    ensures SetsRedo(65, 8, 1, 6)
  {
    assert Chain(65, 8, 1, 0) == 8;
    assert Chain(65, 8, 1, 1) == 64;
  }

  /** Witness 2 modulo 65 neither passes nor reaches 1. */
  lemma {:induction false} TwoNotStrong()
    ensures !StrongProbablePrime(65, 2, 1, 6) && !HitsOne(65, 2, 1, 6)
  {
    TwoChain();
  }

  /** The chain of witness 2 modulo 65: 2, 4, 16, 61, 16, 61. */
  lemma {:induction false} TwoChain()
    ensures Chain(65, 2, 1, 0) == 2 && Chain(65, 2, 1, 1) == 4 && Chain(65, 2, 1, 2) == 16
    ensures Chain(65, 2, 1, 3) == 61 && Chain(65, 2, 1, 4) == 16 && Chain(65, 2, 1, 5) == 61
    ensures forall r :: 0 <= r < 6 ==> Chain(65, 2, 1, r) != 1 && Chain(65, 2, 1, r) != 64
  {
    assert Chain(65, 2, 1, 0) == 2;
    assert Chain(65, 2, 1, 1) == 4;
    assert Chain(65, 2, 1, 2) == 16;
    assert Chain(65, 2, 1, 3) == 61;
    assert Chain(65, 2, 1, 4) == 16;
    assert Chain(65, 2, 1, 5) == 61;
  }
}
