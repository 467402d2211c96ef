/**
 * The big integer: sign and magnitude. `digits` is the limb storage, of which
 * only `digits[..length]` carries the value; `negative` is the sign. Storage
 * may be longer than `length` (results are built in buffers one limb longer
 * than needed) until `Normalize` shrinks it, and the magnitude need not be
 * trimmed: the vector constructor keeps leading zero limbs.
 */
module BigInteger {
  import opened Limbs
  import opened BitOps
  import DigitHelper

  const UINT64_MOD: int := 0x1_0000_0000_0000_0000

  /** a and b leave the same remainder modulo m. */
  ghost predicate Congruent(a: int, b: int, m: int)
    requires m > 0
  {
    (a - b) % m == 0
  }

  /** `(int)x` in C: x reduced into the signed 32-bit range. */
  function WrapInt32(x: int): (r: int32)
    ensures Congruent(r, x, BASE)
    ensures -0x8000_0000 <= x < 0x8000_0000 ==> r == x
  {
    var m := x % BASE;
    if m < 0x8000_0000 then m else m - BASE
  }

  /** `(long long)x` in C: x reduced into the signed 64-bit range. */
  function WrapInt64(x: int): (r: int64)
    ensures Congruent(r, x, UINT64_MOD)
    ensures -0x8000_0000_0000_0000 <= x < 0x8000_0000_0000_0000 ==> r == x
  {
    var m := x % UINT64_MOD;
    if m < 0x8000_0000_0000_0000 then m else m - UINT64_MOD
  }

  lemma {:induction false} CongruentTrans(a: int, b: int, c: int, m: int)
    requires m > 0 && Congruent(a, b, m) && Congruent(b, c, m)
    ensures Congruent(a, c, m)
  {
    var p, q := (a - b) / m, (b - c) / m;
    assert a - b == m * p && b - c == m * q;
    assert a - c == m * (p + q);
    ModOfMultiple(m, p + q);
  }

  lemma {:induction false} CongruentNeg(a: int, b: int, m: int)
    requires m > 0 && Congruent(a, b, m)
    ensures Congruent(-a, -b, m)
  {
    var p := (a - b) / m;
    assert a - b == m * p;
    assert -a - -b == m * -p;
    ModOfMultiple(m, -p);
  }

  lemma {:induction false} ModOfMultiple(m: int, k: int)
    requires m > 0
    ensures (m * k) % m == 0
  {
    DivModUnique(m * k, m, k, 0);
  }

  /** Two congruent numbers in one window of width m are equal. */
  lemma {:induction false} CongruentInWindow(a: int, b: int, lo: int, m: int)
    requires m > 0 && Congruent(a, b, m)
    requires lo <= a < lo + m && lo <= b < lo + m
    ensures a == b
  {
    var q := (a - b) / m;
    assert a - b == m * q;
    if q > 0 {
      MulLe(1, q, m);
    } else if q < 0 {
      MulLe(q, -1, m);
    }
  }

  /** The lowest limb is the value modulo BASE. */
  lemma {:induction false} ValLow(s: seq<uint32>)
    requires |s| >= 1
    ensures Val(s) % BASE == s[0]
  {
    ValHead(s);
    DivModUnique(Val(s), BASE, Val(s[1..]), s[0]);
  }

  /** The two lowest limbs are the value modulo 2^64. */
  lemma {:induction false} ValLow2(s: seq<uint32>)
    requires |s| >= 2
    ensures Val(s) % UINT64_MOD == s[0] + BASE * s[1]
  {
    ValSplit(s, 2);
    ValHead(s[..2]);
    assert s[..2][1..] == [s[1]];
    ValSingle(s[1]);
    assert Pow(2) == UINT64_MOD;
    LimbStep(s[0], s[1], BASE);
    DivModUnique(Val(s), UINT64_MOD, Val(s[2..]), s[0] + BASE * s[1]);
  }

  /** A value's parity is its lowest limb's parity. */
  lemma {:induction false} ValParity(s: seq<uint32>)
    requires |s| >= 1
    ensures Val(s) % 2 == s[0] % 2
  {
    ValHead(s);
    var t := Val(s[1..]);
    assert Val(s) == s[0] + 2 * (0x8000_0000 * t);
  }

  /** The bit 0 of x ^ y is the XOR of the bits 0. */
  lemma {:induction false} XorParity(x: nat, y: nat)
    ensures Bitwise(XorOp, x, y) % 2 == (x + y) % 2
  {
    BitwiseUnfold(XorOp, x, y);
    var r: int, bit: int := Bitwise(XorOp, x / 2, y / 2), if x % 2 != y % 2 then 1 else 0;
    assert Bitwise(XorOp, x, y) == 2 * r + bit;
    ParityArith(x, y, r, bit);
  }

  lemma {:induction false} ParityArith(x: int, y: int, r: int, bit: int)
    requires bit == if x % 2 != y % 2 then 1 else 0
    ensures (2 * r + bit) % 2 == bit && (x + y) % 2 == bit
  {
    assert x == 2 * (x / 2) + x % 2 && y == 2 * (y / 2) + y % 2;
    assert x + y == 2 * (x / 2 + y / 2) + x % 2 + y % 2;
  }

  /** A magnitude with a sign. */
  function Signed(negative: bool, v: nat): int
  {
    if negative then -(v as int) else v
  }

  /** A sign does not change the parity. */
  lemma {:induction false} SignedParity(negative: bool, v: nat)
    ensures Signed(negative, v) % 2 == v % 2
  {
    var q := v / 2;
    if negative && v % 2 == 1 {
      assert -(v as int) == (-q - 1) * 2 + 1;
    } else if negative {
      assert -(v as int) == (-q) * 2;
    }
  }

  /** The limbs of a 64-bit value: one limb when the high word is zero, else two. */
  function UlongDigits(value: uint64): (ds: seq<uint32>)
    ensures Val(ds) == value
    ensures |ds| == (if value < BASE then 1 else 2)
    ensures value != 0 ==> Trimmed(ds)
  {
    var low := value % BASE;
    var high := value / BASE;
    ValSingle(low);
    if high == 0 then [low]
    else (ValAppend([low], high); [low, high])
  }

  /** `vector<UInt32>(n)` as a buffer a kernel writes into: n zero limbs. */
  method ZeroDigits(n: nat) returns (buf: array<uint32>)
    ensures fresh(buf) && buf.Length == n && buf[..] == Zeros(n)
  {
    buf := new uint32[n](_ => 0);
    assert forall i :: 0 <= i < n ==> buf[..][i] == Zeros(n)[i];
  }

  /** The sign rule of a product: negative exactly when the signs differ. */
  lemma {:induction false} SignedMul(n1: bool, v1: nat, n2: bool, v2: nat)
    ensures Signed(n1 != n2, v1 * v2) == Signed(n1, v1) * Signed(n2, v2)
  {
  }

  class IntX {
    var digits: seq<uint32>
    var length: nat
    var negative: bool

    /** `length` counts limbs that exist and fits the source's 32-bit length field. */
    ghost predicate Valid()
      reads this
    {
      length <= |digits| && length < BASE
    }

    /** The limbs that carry the value. */
    function Magnitude(): seq<uint32>
      reads this
      requires Valid()
    {
      digits[..length]
    }

    /** The number this object denotes. */
    function Value(): int
      reads this
      requires Valid()
    {
      Signed(negative, Val(Magnitude()))
    }

    /** The magnitude has no zero limb on top, so `length` is its real length. */
    ghost predicate Normal()
      reads this
    {
      Valid() && Trimmed(Magnitude())
    }

    /** Zero: no limbs, not negative. */
    constructor ()
      ensures Normal() && Value() == 0
      ensures digits == [] && length == 0 && !negative
    {
      digits, length, negative := [], 0, false;
    }

    /** From a 32-bit signed value: zero has no limbs, anything else one. */
    constructor FromInt32(value: int32)
      ensures Normal() && Value() == value
      ensures |digits| == length == (if value == 0 then 0 else 1)
      ensures negative <==> value < 0
    {
      if value == 0 {
        digits, length, negative := [], 0, false;
      } else {
        var v, neg := DigitHelper.ToUInt32WithSign(value);
        ValSingle(v);
        digits, length, negative := [v], 1, neg;
      }
    }

    /** From a 32-bit unsigned value. */
    constructor FromUInt32(value: uint32)
      ensures Normal() && Value() == value && !negative
      ensures |digits| == length == (if value == 0 then 0 else 1)
    {
      ValSingle(value);
      if value == 0 {
        digits, length, negative := [], 0, false;
      } else {
        digits, length, negative := [value], 1, false;
      }
    }

    /** From a 64-bit signed value: one or two limbs depending on the high word. */
    constructor FromInt64(value: int64)
      ensures Normal() && Value() == value
      ensures negative <==> value < 0
      ensures |digits| == length == (if value == 0 then 0 else if DigitHelper.Abs(value) < BASE then 1 else 2)
    {
      if value == 0 {
        digits, length, negative := [], 0, false;
      } else {
        var v, neg := DigitHelper.ToUInt64WithSign(value);
        var ds := UlongDigits(v);
        assert ds[..|ds|] == ds;
        digits, length, negative := ds, |ds|, neg;
      }
    }

    /** From a 64-bit unsigned value (also `unsigned long`). */
    constructor FromUInt64(value: uint64)
      ensures Normal() && Value() == value && !negative
      ensures |digits| == length == (if value == 0 then 0 else if value < BASE then 1 else 2)
    {
      if value == 0 {
        digits, length, negative := [], 0, false;
      } else {
        var ds := UlongDigits(value);
        assert ds[..|ds|] == ds;
        digits, length, negative := ds, |ds|, false;
      }
    }

    /** The copy constructor: the same storage, length and sign. */
    constructor Copy(value: IntX)
      requires value.Valid()
      ensures Valid() && Value() == value.Value()
      ensures digits == value.digits && length == value.length && negative == value.negative
    {
      digits, length, negative := value.digits, value.length, value.negative;
    }

    /**
     * From a limb vector: every limb counts, leading zero limbs included, and
     * the sign is taken only for a non-empty vector.
     */
    constructor FromDigits(ds: seq<uint32>, neg: bool)
      requires |ds| < BASE
      ensures Valid() && digits == ds && length == |ds|
      ensures negative <==> neg && |ds| != 0
      ensures Value() == Signed(neg, Val(ds))
    {
      assert ds[..|ds|] == ds;
      digits, length, negative := ds, |ds|, neg && |ds| != 0;
    }

    /** From a limb vector of which only the first `len` limbs count. */
    constructor FromDigitsLength(ds: seq<uint32>, neg: bool, len: nat)
      requires len <= |ds| && len < BASE
      ensures Valid() && digits == ds && length == len
      ensures negative <==> neg && len != 0
      ensures Value() == Signed(neg, Val(ds[..len]))
    {
      digits, length, negative := ds, len, neg && len != 0;
    }

    /** An all-zero buffer of `len` limbs with the given sign, to be filled by a kernel. */
    constructor WithLength(len: nat, neg: bool)
      requires len < BASE
      ensures Valid() && digits == Zeros(len) && length == len && negative == neg
      ensures Value() == 0
    {
      digits, length, negative := Zeros(len), len, neg;
      new;
      assert Magnitude() == Zeros(len);
      ValAllZero(Zeros(len));
    }

    /**
     * Drops the storage past `length` and clears the sign of a zero-length
     * number; the value does not change.
     */
    method Normalize()
      requires Valid()
      modifies this
      ensures Valid() && digits == old(Magnitude()) && length == old(length)
      ensures negative == (old(negative) && length != 0)
      ensures Value() == old(Value())
    {
      if |digits| > length {
        digits := digits[..length];
      }
      assert digits[..length] == old(Magnitude());
      if length == 0 {
        negative := false;
      }
    }

    /**
     * Normalize, but only when the number's settings ask for it (autoNormalize,
     * which is off by default).
     */
    method TryNormalize(autoNormalize: bool)
      requires Valid()
      modifies this
      ensures Valid() && length == old(length) && Value() == old(Value())
      ensures autoNormalize ==> digits == old(Magnitude()) && negative == (old(negative) && length != 0)
      ensures !autoNormalize ==> digits == old(digits) && negative == old(negative)
    {
      if autoNormalize {
        Normalize();
      }
    }

    /** Zero is a zero length or no storage at all. */
    function IsZero(): (r: bool)
      reads this
      requires Valid()
      ensures r <==> Magnitude() == []
      ensures Normal() ==> (r <==> Value() == 0)
    {
      if length != 0 && digits[length - 1] != 0 then
        ValTrimmedRange(Magnitude());
        false
      else
        length == 0 || |digits| == 0
    }

    /** Odd: the lowest limb is odd. */
    function IsOdd(): (r: bool)
      reads this
      requires Valid()
      ensures r <==> Value() % 2 == 1
    {
      SignedParity(negative, Val(Magnitude()));
      if length > 0 then
        ValParity(Magnitude());
        digits[0] % 2 == 1
      else
        false
    }

    /**
     * The hash: 0 for zero, otherwise the XOR of the lowest limb, the top
     * limb (for more than one limb), the length and the sign bit, cast to int.
     */
    function GetHashCode(): (r: int32)
      reads this
      requires Valid()
      ensures length == 0 ==> r == 0
    {
      if length == 0 then 0
      else if length == 1 then WrapInt32(Xor32(Xor32(digits[0], length), if negative then 1 else 0))
      else WrapInt32(Xor32(Xor32(Xor32(digits[0], digits[length - 1]), length), if negative then 1 else 0))
    }

    /** `(UInt32)x`: the lowest limb, 0 for zero; the magnitude modulo 2^32. */
    function ToUInt32(): (r: uint32)
      reads this
      requires Valid()
      ensures r == Val(Magnitude()) % BASE
    {
      if length == 0 then 0
      else (ValLow(Magnitude()); digits[0])
    }

    /** `(UInt64)x`: the two lowest limbs; the magnitude modulo 2^64. */
    function ToUInt64(): (r: uint64)
      reads this
      requires Valid()
      ensures r == Val(Magnitude()) % UINT64_MOD
    {
      if length > 1 then
        (ValLow2(Magnitude()); LimbStep(digits[0], digits[1], BASE); ToUInt32() + digits[1] * BASE)
      else if length == 1 then
        (ValLow(Magnitude()); ValBound(Magnitude()); ToUInt32())
      else ToUInt32()
    }

    /** `(unsigned short)x`: the magnitude modulo 2^16. */
    function ToUInt16(): (r: nat)
      reads this
      requires Valid()
      ensures r < 0x1_0000 && r == Val(Magnitude()) % 0x1_0000
    {
      ModOfMod(Val(Magnitude()));
      ToUInt32() % 0x1_0000
    }

    /**
     * `(int)x`: the lowest limb read as signed, then negated for a negative
     * number. The result is the value modulo 2^32 in the signed range, so
     * every value that fits is returned exactly.
     */
    function ToInt32(): (r: int32)
      reads this
      requires Valid()
      ensures Congruent(r, Value(), BASE)
      ensures -0x8000_0000 <= Value() < 0x8000_0000 ==> r == Value()
    {
      var r := SignedLow32(ToUInt32(), negative);
      SignedLow32Value(Val(Magnitude()), negative, r);
      r
    }

    /** `(long long)x`: as ToInt32, on the two lowest limbs. */
    function ToInt64(): (r: int64)
      reads this
      requires Valid()
      ensures Congruent(r, Value(), UINT64_MOD)
      ensures -0x8000_0000_0000_0000 <= Value() < 0x8000_0000_0000_0000 ==> r == Value()
    {
      var r := SignedLow64(ToUInt64(), negative);
      SignedLow64Value(Val(Magnitude()), negative, r);
      r
    }

    /** Unary plus: a copy of this number. */
    method Plus() returns (r: IntX)
      requires Valid()
      ensures fresh(r) && r.Valid() && r.Value() == Value()
      ensures r.digits == digits && r.length == length && r.negative == negative
    {
      r := new IntX.Copy(this);
    }

    /**
     * Unary minus: flips the sign of this very number when it is not of zero
     * length, and returns a copy of the result.
     */
    method Negate() returns (r: IntX)
      requires Valid()
      modifies this
      ensures Valid() && Value() == -old(Value())
      ensures digits == old(digits) && length == old(length)
      ensures negative == (if length != 0 then !old(negative) else old(negative))
      ensures fresh(r) && r.digits == digits && r.length == length && r.negative == negative
    {
      if length != 0 {
        negative := !negative;
      }
      r := new IntX.Copy(this);
    }
  }

  /** Two objects with the same storage, length and sign, as a copy leaves them. */
  ghost predicate SameState(x: IntX, y: IntX)
    reads x, y
  {
    x.digits == y.digits && x.length == y.length && x.negative == y.negative
  }

  /**
   * The library's own identity test: two zero-length numbers are the same;
   * otherwise the storage, the length and the sign must all agree.
   */
  function ReferenceEquals(x: IntX, y: IntX): (r: bool)
    reads x, y
    ensures SameState(x, y) ==> r
    ensures r && x.Valid() && y.Valid() ==> x.Value() == y.Value()
  {
    if x.length == 0 && y.length == 0 then true
    else if x.length != y.length then false
    else x.digits == y.digits && x.length == y.length && x.negative == y.negative
  }

  /** A normal number has a non-zero magnitude exactly when it has limbs. */
  lemma {:induction false} NormalNonZero(x: IntX)
    requires x.Normal()
    ensures x.length != 0 <==> Val(x.Magnitude()) > 0
    ensures x.length > 1 ==> Val(x.Magnitude()) >= BASE
  {
    var m := x.Magnitude();
    if x.length != 0 {
      ValTopLower(m);
      if x.length > 1 {
        PowMonotone(1, x.length - 1);
        assert Pow(1) == BASE;
      }
    } else {
      assert m == [];
    }
  }

  /** Reducing modulo 2^32 first does not change the remainder modulo 2^16. */
  lemma {:induction false} ModOfMod(x: int)
    ensures (x % BASE) % 0x1_0000 == x % 0x1_0000
  {
    var q, r := x / BASE, x % BASE;
    assert x == BASE * q + r;
    DivModUnique(x, 0x1_0000, 0x1_0000 * q + r / 0x1_0000, r % 0x1_0000);
  }

  /** The low word u read as signed, then negated when the number is negative. */
  function SignedLow32(u: uint32, negative: bool): int32
  {
    var res: int := WrapInt32(u);
    if negative then WrapInt32(-res) else res
  }

  /** As SignedLow32, on a 64-bit low part. */
  function SignedLow64(u: uint64, negative: bool): int64
  {
    var res: int := WrapInt64(u);
    if negative then WrapInt64(-res) else res
  }

  /** SignedLow32 of the magnitude's low word is the signed value modulo 2^32. */
  lemma {:induction false} SignedLow32Value(v: nat, negative: bool, r: int)
    requires r == SignedLow32(v % BASE, negative)
    ensures Congruent(r, Signed(negative, v), BASE)
    ensures -0x8000_0000 <= Signed(negative, v) < 0x8000_0000 ==> r == Signed(negative, v)
  {
    var u := v % BASE;
    var res: int := WrapInt32(u);
    SignedConversion(v, u, res, r, negative, BASE);
    var s := Signed(negative, v);
    if -0x8000_0000 <= s < 0x8000_0000 {
      CongruentInWindow(r, s, -0x8000_0000, BASE);
    }
  }

  /** SignedLow64 of the magnitude's two low words is the signed value modulo 2^64. */
  lemma {:induction false} SignedLow64Value(v: nat, negative: bool, r: int)
    requires r == SignedLow64(v % UINT64_MOD, negative)
    ensures Congruent(r, Signed(negative, v), UINT64_MOD)
    ensures -0x8000_0000_0000_0000 <= Signed(negative, v) < 0x8000_0000_0000_0000 ==> r == Signed(negative, v)
  {
    var u := v % UINT64_MOD;
    var res: int := WrapInt64(u);
    SignedConversion(v, u, res, r, negative, UINT64_MOD);
    var s := Signed(negative, v);
    if -0x8000_0000_0000_0000 <= s < 0x8000_0000_0000_0000 {
      CongruentInWindow(r, s, -0x8000_0000_0000_0000, UINT64_MOD);
    }
  }

  /**
   * The two steps of a signed conversion: the unsigned low part u of the
   * magnitude v read as signed, then negated for a negative number.
   */
  lemma {:induction false} SignedConversion(v: int, u: int, res: int, r: int, negative: bool, m: int)
    requires m > 0 && v >= 0 && u == v % m
    requires Congruent(res, u, m)
    requires negative ==> Congruent(r, -res, m)
    requires !negative ==> r == res
    ensures Congruent(r, if negative then -v else v, m)
  {
    assert Congruent(u, v, m) by {
      DivModUnique(u - v, m, -(v / m), 0);
    }
    CongruentTrans(res, u, v, m);
    if negative {
      CongruentNeg(res, v, m);
      CongruentTrans(r, -res, -v, m);
    }
  }

  /** Negating a non-zero number flips bit 0 of its hash. */
  lemma {:induction false} HashSignBit(x: IntX, y: IntX)
    requires x.Valid() && y.Valid() && x.length != 0
    requires y.digits == x.digits && y.length == x.length && y.negative == !x.negative
    ensures x.GetHashCode() % 2 != y.GetHashCode() % 2
  {
    var a := if x.length == 1 then Xor32(x.digits[0], x.length)
             else Xor32(Xor32(x.digits[0], x.digits[x.length - 1]), x.length);
    var sx, sy := if x.negative then 1 else 0, if y.negative then 1 else 0;
    XorParity(a, sx);
    XorParity(a, sy);
    WrapParity(Xor32(a, sx));
    WrapParity(Xor32(a, sy));
  }

  /** Reading a word as signed keeps its parity. */
  lemma {:induction false} WrapParity(u: uint32)
    ensures WrapInt32(u) % 2 == u % 2
  {
  }
}
