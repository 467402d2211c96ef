/**
 * Positional notation in an arbitrary base, shared by the parsers and the
 * string converters: the value of a digit string read most significant digit
 * first (`Horner`), the value of a digit run stored least significant digit
 * first (`Eval`), and the canonical digits of a number (`ToDigits`).
 */
module Radix {
  import opened Limbs

  predicate DigitsBelow(ds: seq<nat>, b: nat)
  {
    forall i :: 0 <= i < |ds| ==> ds[i] < b
  }

  /** The value of a digit string written most significant digit first. */
  function Horner(ds: seq<nat>, b: nat): nat
  {
    if |ds| == 0 then 0 else Horner(ds[..|ds| - 1], b) * b + ds[|ds| - 1]
  }

  /** The value of a digit run stored least significant digit first. */
  function Eval(ds: seq<nat>, b: nat): nat
  {
    if |ds| == 0 then 0 else ds[0] + b * Eval(ds[1..], b)
  }

  function Reverse(s: seq<nat>): (r: seq<nat>)
    ensures |r| == |s|
    ensures forall i :: 0 <= i < |s| ==> r[i] == s[|s| - 1 - i]
  {
    if |s| == 0 then [] else [s[|s| - 1]] + Reverse(s[..|s| - 1])
  }

  /** The canonical digits of v in base b, least significant first. */
  function ToDigits(v: nat, b: nat): seq<nat>
    requires b >= 2
    decreases v
  {
    if v == 0 then [] else [v % b] + ToDigits(v / b, b)
  }

  // ---------------------------------------------------------------------------
  // Powers of an arbitrary base

  /** x^(m + n) == x^m x^n. */
  lemma {:induction false} IntPowAdd(x: int, m: nat, n: nat)
    ensures IntPow(x, m + n) == IntPow(x, m) * IntPow(x, n)
  {
    if m > 0 {
      var p, q, r := IntPow(x, m - 1), IntPow(x, n), IntPow(x, m - 1 + n);
      assert r == p * q by { IntPowAdd(x, m - 1, n); }
      assert IntPow(x, m + n) == x * r;
      assert IntPow(x, m) == x * p;
      MulAssoc(x, p, q);
    }
  }

  lemma {:induction false} IntPowMonotone(b: nat, m: nat, n: nat)
    requires b >= 1 && m <= n
    ensures IntPow(b, m) <= IntPow(b, n)
  {
    if m < n {
      IntPowMonotone(b, m, n - 1);
      MulLe(1, b, IntPow(b, n - 1));
    }
  }

  /** A larger base gives a larger power. */
  lemma {:induction false} IntPowBaseMonotone(a: nat, b: nat, n: nat)
    requires a <= b
    ensures IntPow(a, n) <= IntPow(b, n)
  {
    if n > 0 {
      IntPowBaseMonotone(a, b, n - 1);
      MulLe(a, b, IntPow(a, n - 1));
      MulLe(IntPow(a, n - 1), IntPow(b, n - 1), b);
    }
  }

  /** (2^k)^n == 2^(k n) */
  lemma {:induction false} IntPowOfPow2(k: nat, n: nat)
    ensures IntPow(Pow2(k), n) == Pow2(k * n)
  {
    if n > 0 {
      IntPowOfPow2(k, n - 1);
      Pow2Sum(k, k * (n - 1), k * n);
    }
  }

  /** BASE^n is the limb weight Pow(n). */
  lemma {:induction false} IntPowIsPow(n: nat)
    ensures IntPow(BASE, n) == Pow(n)
  {
    if n > 0 {
      IntPowIsPow(n - 1);
    }
  }

  /** (v / p) / q == v / (p q) */
  lemma {:induction false} DivDiv(v: nat, p: nat, q: nat)
    requires p >= 1 && q >= 1
    ensures v / p / q == v / (p * q)
  {
    var a, r := v / p, v % p;
    var c, s := a / q, a % q;
    assert v == (c * q + s) * p + r;
    assert v == c * (p * q) + (s * p + r);
    MulLe(s, q - 1, p);
    DivModUnique(v, p * q, c, s * p + r);
  }

  /** Dividing lo + p hi by p ps, with lo < p, drops lo and divides hi by ps. */
  lemma {:induction false} DropLow(v: int, hi: int, lo: int, p: int, ps: int, q: int)
    requires p > 0 && ps > 0 && 0 <= lo < p && hi >= 0 && v == hi * p + lo && q == p * ps
    ensures v / q == hi / ps
  {
    DivModUnique(v, p, hi, lo);
    DivDiv(v, p, ps);
  }

  /** (v % (p q)) / p == (v / p) % q */
  lemma {:induction false} ModDiv(v: nat, p: nat, q: nat)
    requires p >= 1 && q >= 1
    ensures (v % (p * q)) / p == (v / p) % q
    ensures (v % (p * q)) % p == v % p
  {
    var a, r := v / p, v % p;
    var c, s := a / q, a % q;
    assert v == c * (p * q) + (s * p + r);
    MulLe(s, q - 1, p);
    DivModUnique(v, p * q, c, s * p + r);
    DivModUnique(s * p + r, p, s, r);
  }

  /** Dividing a positive number by b >= 2 makes it smaller. */
  lemma {:induction false} DivLess(v: nat, b: nat)
    requires v >= 1 && b >= 2
    ensures v / b < v
  {
    var q := v / b;
    assert v == q * b + v % b;
    MulLe(1, b, q);
  }

  lemma {:induction false} DivMulBack(v: int, b: int)
    requires b >= 1
    ensures v == v % b + b * (v / b)
  {
  }

  // ---------------------------------------------------------------------------
  // Horner and Eval

  /** n digits below b are worth less than b^n. */
  lemma {:induction false} HornerBound(ds: seq<nat>, b: nat)
    requires b >= 1 && DigitsBelow(ds, b)
    ensures Horner(ds, b) < IntPow(b, |ds|)
  {
    if |ds| > 0 {
      var p := ds[..|ds| - 1];
      HornerBound(p, b);
      DigitStep(Horner(p, b), ds[|ds| - 1], b, IntPow(b, |p|));
    }
  }

  /** The leading digit weighs at least d_0 b^(n-1). */
  lemma {:induction false} HornerLeading(ds: seq<nat>, b: nat)
    requires |ds| >= 1
    ensures Horner(ds, b) >= ds[0] * IntPow(b, |ds| - 1)
  {
    if |ds| > 1 {
      var p := ds[..|ds| - 1];
      var hp, q, d := Horner(p, b), IntPow(b, |p| - 1), ds[0];
      assert Horner(ds, b) >= hp * b;
      assert IntPow(b, |ds| - 1) == b * q;
      assert d * q <= hp by {
        assert p[0] == d;
        HornerLeading(p, b);
      }
      MulLe(d * q, hp, b);
      MulAssoc(d, q, b);
    } else {
      assert ds[..0] == [];
    }
  }

  /** h < q and d < b give h b + d < b q. */
  lemma {:induction false} DigitStep(h: nat, d: nat, b: nat, q: nat)
    requires h < q && d < b
    ensures h * b + d < b * q
  {
    MulLe(h + 1, q, b);
  }

  /** A prefix is worth no more than the whole string. */
  lemma {:induction false} HornerPrefix(ds: seq<nat>, b: nat, i: nat)
    requires b >= 1 && i <= |ds|
    ensures Horner(ds[..i], b) <= Horner(ds, b)
    decreases |ds| - i
  {
    if i < |ds| {
      var p := ds[..|ds| - 1];
      assert p[..i] == ds[..i];
      HornerPrefix(p, b, i);
      MulLe(1, b, Horner(p, b));
    } else {
      assert ds[..i] == ds;
    }
  }

  /** Reading a string most significant first is reading its reverse least significant first. */
  lemma {:induction false} EvalReverse(ds: seq<nat>, b: nat)
    ensures Eval(Reverse(ds), b) == Horner(ds, b)
  {
    if |ds| > 0 {
      var p := ds[..|ds| - 1];
      EvalReverse(p, b);
      assert Reverse(ds)[1..] == Reverse(p);
    }
  }

  lemma {:induction false} EvalConcat(x: seq<nat>, y: seq<nat>, b: nat)
    ensures Eval(x + y, b) == Eval(x, b) + IntPow(b, |x|) * Eval(y, b)
  {
    if |x| > 0 {
      assert (x + y)[1..] == x[1..] + y;
      EvalConcat(x[1..], y, b);
      var e, q, ey := Eval(x[1..], b), IntPow(b, |x| - 1), Eval(y, b);
      assert Eval(x + y, b) == x[0] + b * (e + q * ey);
      Regroup(x[0], b, e, q, ey);
    } else {
      assert x + y == y;
    }
  }

  /** d + b (e + q y) == (d + b e) + (b q) y */
  lemma {:induction false} Regroup(d: int, b: int, e: int, q: int, y: int)
    ensures d + b * (e + q * y) == (d + b * e) + (b * q) * y
  {
  }

  lemma {:induction false} EvalZeros(z: seq<nat>, b: nat)
    requires forall i :: 0 <= i < |z| ==> z[i] == 0
    ensures Eval(z, b) == 0
  {
    if |z| > 0 {
      EvalZeros(z[1..], b);
    }
  }

  /** A run whose top digit is not zero is worth at least b^(n-1). */
  lemma {:induction false} EvalTopDigit(ds: seq<nat>, b: nat)
    requires b >= 1 && |ds| >= 1 && ds[|ds| - 1] != 0
    ensures Eval(ds, b) >= IntPow(b, |ds| - 1)
  {
    if |ds| > 1 {
      EvalTopDigit(ds[1..], b);
      MulLe(IntPow(b, |ds| - 2), Eval(ds[1..], b), b);
    }
  }

  // ---------------------------------------------------------------------------
  // Canonical digits

  /** A positive v == q b + r with r < b has r as its lowest digit and the digits of q above it. */
  lemma {:induction false} ToDigitsStep(v: nat, b: nat, q: nat, r: nat)
    requires b >= 2 && r < b && v == q * b + r && v > 0
    ensures ToDigits(v, b) == [r] + ToDigits(q, b)
  {
    DivModUnique(v, b, q, r);
  }

  /** The canonical digits are digits, denote v, and have no zero on top. */
  lemma {:induction false} ToDigitsValue(v: nat, b: nat)
    requires b >= 2
    ensures DigitsBelow(ToDigits(v, b), b)
    ensures Eval(ToDigits(v, b), b) == v
    ensures |ToDigits(v, b)| == 0 || ToDigits(v, b)[|ToDigits(v, b)| - 1] != 0
  {
    ToDigitsBelow(v, b);
    ToDigitsEval(v, b);
    ToDigitsTop(v, b);
  }

  lemma {:induction false} ToDigitsBelow(v: nat, b: nat)
    requires b >= 2
    ensures DigitsBelow(ToDigits(v, b), b)
    decreases v
  {
    if v > 0 {
      var q, r := v / b, v % b;
      DivLess(v, b);
      ToDigitsBelow(q, b);
      assert ToDigits(v, b) == [r] + ToDigits(q, b);
    }
  }

  lemma {:induction false} ToDigitsEval(v: nat, b: nat)
    requires b >= 2
    ensures Eval(ToDigits(v, b), b) == v
    decreases v
  {
    if v > 0 {
      var q, r := v / b, v % b;
      DivLess(v, b);
      ToDigitsEval(q, b);
      var t := ToDigits(q, b);
      assert ToDigits(v, b) == [r] + t;
      assert ([r] + t)[1..] == t;
      assert Eval(ToDigits(v, b), b) == r + b * Eval(t, b);
      DivMulBack(v, b);
    }
  }

  lemma {:induction false} ToDigitsTop(v: nat, b: nat)
    requires b >= 2
    ensures |ToDigits(v, b)| == 0 || ToDigits(v, b)[|ToDigits(v, b)| - 1] != 0
    decreases v
  {
    if v > 0 {
      var q, r := v / b, v % b;
      DivLess(v, b);
      ToDigitsTop(q, b);
      var t := ToDigits(q, b);
      assert ToDigits(v, b) == [r] + t;
      if q == 0 {
        assert r == v;
      }
    }
  }

  /** Any digit run below b without a zero on top is the canonical digits of its value. */
  lemma {:induction false} ToDigitsUnique(ds: seq<nat>, b: nat)
    requires b >= 2 && DigitsBelow(ds, b)
    requires |ds| == 0 || ds[|ds| - 1] != 0
    ensures ToDigits(Eval(ds, b), b) == ds
  {
    if |ds| > 0 {
      var v := Eval(ds, b);
      EvalTopDigit(ds, b);
      DivModUnique(v, b, Eval(ds[1..], b), ds[0]);
      ToDigitsUnique(ds[1..], b);
    }
  }

  /** Digit i of the canonical digits is (v / b^i) mod b. */
  lemma {:induction false} ToDigitsAt(v: nat, b: nat, i: nat)
    requires b >= 2 && i < |ToDigits(v, b)|
    ensures ToDigits(v, b)[i] == v / IntPow(b, i) % b
    decreases i
  {
    if i > 0 {
      ToDigitsShift(v, b, i);
      ToDigitsAt(v / b, b, i - 1);
      DivPowStep(v, b, i);
    }
  }

  /** v / b / b^(i-1) == v / b^i */
  lemma {:induction false} DivPowStep(v: nat, b: nat, i: nat)
    requires b >= 2 && i > 0
    ensures v / b / IntPow(b, i - 1) == v / IntPow(b, i)
  {
    DivDiv(v, b, IntPow(b, i - 1));
  }

  /** Past the first digit, the canonical digits of v are those of v / b. */
  lemma {:induction false} ToDigitsShift(v: nat, b: nat, i: nat)
    requires b >= 2 && 0 < i < |ToDigits(v, b)|
    ensures i - 1 < |ToDigits(v / b, b)| && ToDigits(v, b)[i] == ToDigits(v / b, b)[i - 1]
  {
    var q, r := v / b, v % b;
    assert ToDigits(v, b) == [r] + ToDigits(q, b);
  }

  /** Digits below b of a run of n are worth less than b^n. */
  lemma {:induction false} EvalBound(ds: seq<nat>, b: nat)
    requires b >= 1 && DigitsBelow(ds, b)
    ensures Eval(ds, b) < IntPow(b, |ds|)
  {
    if |ds| > 0 {
      EvalBound(ds[1..], b);
      DigitStep(Eval(ds[1..], b), ds[0], b, IntPow(b, |ds| - 1));
    }
  }

  /** v has exactly n canonical digits when b^(n-1) <= v < b^n, and v < b^|ToDigits(v)|. */
  lemma {:induction false} ToDigitsLength(v: nat, b: nat)
    requires b >= 2
    ensures v < IntPow(b, |ToDigits(v, b)|)
    ensures v > 0 ==> IntPow(b, |ToDigits(v, b)| - 1) <= v
    decreases v
  {
    ToDigitsValue(v, b);
    var ds := ToDigits(v, b);
    EvalBound(ds, b);
    if v > 0 {
      EvalTopDigit(ds, b);
    }
  }

  /** The number of canonical digits is the n with b^(n-1) <= v < b^n. */
  lemma {:induction false} ToDigitsCount(v: nat, b: nat, n: nat)
    requires b >= 2 && v < IntPow(b, n)
    ensures |ToDigits(v, b)| <= n
    ensures v >= 1 && n >= 1 && IntPow(b, n - 1) <= v ==> |ToDigits(v, b)| == n
  {
    ToDigitsLength(v, b);
    var m := |ToDigits(v, b)|;
    if m > n {
      IntPowMonotone(b, n, m - 1);
    }
    if v >= 1 && n >= 1 && IntPow(b, n - 1) <= v && m < n {
      IntPowMonotone(b, m, n - 1);
    }
  }

  /** Above its canonical digits a number has only zero digits. */
  lemma {:induction false} DigitBeyond(v: nat, b: nat, i: nat)
    requires b >= 2 && i >= |ToDigits(v, b)|
    ensures v / IntPow(b, i) % b == 0
  {
    var p := IntPow(b, i);
    assert v < p by {
      ToDigitsLength(v, b);
      IntPowMonotone(b, |ToDigits(v, b)|, i);
    }
    DivZero(v, p);
  }

  /**
   * Digits that are, position by position, the base-b digits of v, and
   * exactly as many as v needs, are its canonical digits.
   */
  lemma {:induction false} CanonicalDigits(out: seq<nat>, v: nat, b: nat)
    requires b >= 2 && v < IntPow(b, |out|) && (|out| == 0 || IntPow(b, |out| - 1) <= v)
    requires forall i :: 0 <= i < |out| ==> out[i] == v / IntPow(b, i) % b
    ensures out == ToDigits(v, b)
  {
    var n := |out|;
    ToDigitsCount(v, b, n);
    if n > 0 {
      forall i | 0 <= i < n
        ensures out[i] == ToDigits(v, b)[i]
      {
        ToDigitsAt(v, b, i);
      }
    }
  }
}
