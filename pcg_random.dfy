/**
 * The minimal PCG32 generator (PcgRandomMinimal.h): a 64-bit linear
 * congruential state, an odd stream increment, and a 32-bit output made by
 * an xorshift followed by a data-dependent rotation. The library keeps one
 * generator in static fields; here that generator is an object of class
 * `Generator`. The system clock the library reads on first use is a
 * parameter (`clock`, milliseconds since the epoch), and the rejection loop
 * of `Range32`, which has no bound, runs for at most `fuel` draws.
 */
module PcgRandom {
  import opened Limbs
  import opened Errors
  import opened BitOps

  const Multiplier: nat := 6364136223846793005
  const SeedMultiplier: nat := 181783497276652981

  /** 2^64: the state, the increment and the seed arithmetic wrap modulo it. */
  const WORD: nat := 0x1_0000_0000_0000_0000

  /** The LCG transition: state * 6364136223846793005 + inc, modulo 2^64. */
  function Step(state: uint64, inc: uint64): uint64
  {
    (state * Multiplier + inc) % WORD
  }

  /** The state after m transitions. */
  function Advance(state: uint64, inc: uint64, m: nat): uint64
  {
    if m == 0 then state else Step(Advance(state, inc, m - 1), inc)
  }

  /** Running m and then n transitions is running m + n of them. */
  lemma {:induction false} AdvanceAdd(state: uint64, inc: uint64, m: nat, n: nat)
    ensures Advance(Advance(state, inc, m), inc, n) == Advance(state, inc, m + n)
  {
    if n > 0 {
      AdvanceAdd(state, inc, m, n - 1);
    }
  }

  /** The 32 bits of ((prev >> 18) ^ prev) >> 27 that the output permutes. */
  function XorShifted(prev: uint64): uint32
  {
    (Bitwise(XorOp, prev / 0x4_0000, prev) / 0x800_0000) % BASE
  }

  /** The rotation count: the top five bits of the state. */
  function Rotation(prev: uint64): (rot: nat)
    ensures rot < 32
  {
    prev / 0x800_0000_0000_0000
  }

  /** One-bit right rotation of a 32-bit value: the lowest bit moves to the top. */
  function RotateRight1(x: uint32): uint32
  {
    x / 2 + x % 2 * 0x8000_0000
  }

  /** One-bit left rotation of a 32-bit value: the highest bit moves to the bottom. */
  function RotateLeft1(x: uint32): uint32
  {
    x % 0x8000_0000 * 2 + x / 0x8000_0000
  }

  /** 32-bit right rotation by rot bits, one bit at a time. */
  function RotateRight(x: uint32, rot: nat): uint32
  {
    if rot == 0 then x else RotateRight1(RotateRight(x, rot - 1))
  }

  /** 32-bit left rotation by rot bits, one bit at a time. */
  function RotateLeft(x: uint32, rot: nat): uint32
    decreases rot
  {
    if rot == 0 then x else RotateLeft(RotateLeft1(x), rot - 1)
  }

  /**
   * The library's closed form `(x >> rot) | (x << ((-rot) & 31))` is the
   * rotation: the two halves occupy disjoint bits, so the `|` is a sum, and
   * the left shift keeps the low `rot` bits of x, moved to the top.
   */
  lemma {:induction false} RotateRightShifts(x: uint32, rot: nat)
    requires rot < 32
    ensures RotateRight(x, rot) == x / Pow2(rot) + x % Pow2(rot) * Pow2(32 - rot)
  {
    if rot == 0 {
      Pow2Small();
    } else {
      RotateRightShifts(x, rot - 1);
      var p, q := Pow2(rot - 1), Pow2(32 - rot);
      Pow2Add(rot - 1, 32 - rot);
      Pow2Small();
      assert Pow2(32 - (rot - 1)) == 2 * q;
      assert Pow2(rot) == 2 * p;
      var y := RotateRight(x, rot - 1);
      assert y == x / p + x % p * (2 * q);
      RotateStep(x, p, q, y);
      assert RotateRight(x, rot) == RotateRight1(y);
    }
  }

  /** One more bit of rotation, on the closed form with x split at p, where p * 2q == 2^32. */
  lemma {:induction false} RotateStep(x: uint32, p: nat, q: nat, y: int)
    requires p >= 1 && q >= 1 && p * q == 0x8000_0000
    requires y == x / p + x % p * (2 * q)
    ensures 0 <= y < BASE && RotateRight1(y) == x / (2 * p) + x % (2 * p) * q
  {
    var h, l := x / p, x % p;
    var c, b := h / 2, h % 2;
    DivModSplit(x, p);
    SplitBound(x, p, q, h, l);
    HalveSum(y, h, l, q, c, b);
    DivModUnique(y, 2, c + l * q, b);
    RegroupSplit(x, p, h, l, c, b);
    DivModUnique(x, 2 * p, c, b * p + l);
    assert (b * p + l) * q == b * 0x8000_0000 + l * q by {
      assert (b * p + l) * q == b * (p * q) + l * q;
    }
  }

  /** The high part of a 32-bit value split at p is below 2^32 / p, and the swapped halves stay below 2^32. */
  lemma {:induction false} SplitBound(x: int, p: int, q: int, h: int, l: int)
    requires p >= 1 && q >= 1 && p * q == 0x8000_0000
    requires x < BASE && x == h * p + l && 0 <= l < p && h >= 0
    ensures h < 2 * q && h + l * (2 * q) < BASE
  {
    if h >= 2 * q {
      MulLe(2 * q, h, p);
      assert false;
    }
    MulLe(l, p - 1, q);
    assert (p - 1) * q == p * q - q;
  }

  lemma {:induction false} DivModSplit(x: int, p: int)
    requires p > 0
    ensures x == x / p * p + x % p && 0 <= x % p < p
  {
  }

  lemma {:induction false} HalveSum(y: int, h: int, l: int, q: int, c: int, b: int)
    requires y == h + l * (2 * q) && h == 2 * c + b
    ensures y == (c + l * q) * 2 + b
  {
  }

  lemma {:induction false} RegroupSplit(x: int, p: int, h: int, l: int, c: int, b: int)
    requires x == h * p + l && h == 2 * c + b && 0 <= b < 2 && 0 <= l < p
    ensures x == c * (2 * p) + (b * p + l) && 0 <= b * p + l < 2 * p
  {
    assert h * p == c * (2 * p) + b * p;
  }

  /** Rotating left by one bit undoes rotating right by one bit. */
  lemma {:induction false} Rotate1Inverse(x: uint32)
    ensures RotateLeft1(RotateRight1(x)) == x
  {
  }

  /** Rotating left undoes rotating right: the output permutes the 32 bits without losing any. */
  lemma {:induction false} RotateInverse(x: uint32, rot: nat)
    ensures RotateLeft(RotateRight(x, rot), rot) == x
  {
    if rot > 0 {
      RotateInverse(x, rot - 1);
      Rotate1Inverse(RotateRight(x, rot - 1));
    }
  }

  /**
   * The output for the state before a transition: XorShifted rotated right
   * by Rotation.
   */
  function Output(prev: uint64): uint32
  {
    RotateRight(XorShifted(prev), Rotation(prev))
  }

  /** The output determines XorShifted once the rotation is known. */
  lemma {:induction false} OutputRecoversXorShifted(prev: uint64)
    ensures RotateLeft(Output(prev), Rotation(prev)) == XorShifted(prev)
  {
    RotateInverse(XorShifted(prev), Rotation(prev));
  }

  /**
   * The stream increment `(initSeq << 1) | 1`: the 64-bit shift drops the
   * top bit of initSeq, and the `| 1` sets the bit the shift cleared. It is
   * odd, and halving it gives back the low 63 bits of initSeq.
   */
  function Increment(initSeq: uint64): (inc: uint64)
    ensures inc % 2 == 1
    ensures inc / 2 == initSeq % 0x8000_0000_0000_0000
  {
    initSeq % 0x8000_0000_0000_0000 * 2 + 1
  }

  /** The state Seed leaves for the stream inc: zero, one transition, plus initState, one more transition. */
  function SeededState(initState: uint64, inc: uint64): uint64
  {
    Step((Step(0, inc) + initState) % WORD, inc)
  }

  /**
   * The sequence number Init derives from the clock: clock *
   * 181783497276652981, wrapped, times 1000000, wrapped again. The two
   * factors are folded into one, ClockFactor, the product wrapped modulo 2^64;
   * ClockSequenceTwoSteps shows that this gives the library's value.
   */
  function ClockSequence(clock: uint64): uint64
  {
    (clock * ClockFactor) % WORD
  }

  /** 181783497276652981 * 1000000 modulo 2^64. */
  const ClockFactor: nat := 0x80cd_5ade_9203_1740

  /** The library's two wrapped multiplications give ClockSequence. */
  lemma {:induction false} ClockSequenceTwoSteps(clock: uint64)
    ensures ((clock * SeedMultiplier) % WORD * 1000000) % WORD == ClockSequence(clock)
  {
    var a := clock * SeedMultiplier;
    var q, r := a / WORD, a % WORD;
    DivModSplit(a, WORD);
    assert a * 1000000 == r * 1000000 + WORD * (q * 1000000);
    ModAddMultiple(r * 1000000, WORD, q * 1000000);
    assert SeedMultiplier * 1000000 == 9854 * WORD + ClockFactor;
    assert a * 1000000 == clock * ClockFactor + WORD * (clock * 9854);
    ModAddMultiple(clock * ClockFactor, WORD, clock * 9854);
  }

  /**
   * The rejection threshold of Range32, computed as the library does, as
   * (2^32 - bound) mod bound: it is 2^32 mod bound, so the accepted draws
   * [threshold, 2^32) make up a whole number of periods of `mod bound`.
   */
  function Threshold(bound: uint32): (t: uint32)
    requires bound > 0
    ensures t == BASE % bound && t < bound
    ensures (BASE - t) % bound == 0
  {
    ThresholdMod(bound);
    (BASE - bound) % bound
  }

  lemma {:induction false} ThresholdMod(bound: nat)
    requires 0 < bound <= BASE
    ensures (BASE - bound) % bound == BASE % bound
    ensures (BASE - BASE % bound) % bound == 0
  {
    var q := BASE / bound;
    var r := BASE % bound;
    assert BASE == q * bound + r;
    assert BASE - bound == (q - 1) * bound + r;
    DivModUnique(BASE - bound, bound, q - 1, r);
    assert BASE - r == q * bound;
    DivModUnique(BASE - r, bound, q, 0);
  }

  /**
   * The library's static generator: `state`, `inc` (odd once seeded) and
   * `isInit`, which records that the generator has been seeded from the clock.
   */
  class Generator {
    var state: uint64
    var inc: uint64
    var isInit: bool

    /** Once seeded, the increment is odd. */
    predicate Valid()
      reads this
    {
      isInit ==> inc % 2 == 1
    }

    /** The static fields before first use: zero and not initialised. */
    constructor ()
      ensures Valid() && !isInit && state == 0 && inc == 0
    {
      state, inc, isInit := 0, 0, false;
    }

    /**
     * The state from which the next draw is taken: the current one when the
     * generator is initialised, otherwise the one Init derives from the clock.
     */
    function ReadyState(clock: uint64): uint64
      reads this
    {
      if isInit then state else SeededState(clock, Increment(ClockSequence(clock)))
    }

    function ReadyIncrement(clock: uint64): uint64
      reads this
    {
      if isInit then inc else Increment(ClockSequence(clock))
    }

    /** Seed(initState, initSeq): a fresh stream and a state mixed with initState. */
    method Seed(initState: uint64, initSeq: uint64)
      modifies this
      ensures inc == Increment(initSeq) && inc % 2 == 1
      ensures state == SeededState(initState, inc)
      ensures isInit == old(isInit)
    {
      state := 0;
      inc := Increment(initSeq);
      var _ := Generate();
      ghost var first := state;
      assert first == Step(0, Increment(initSeq));
      state := (state + initState) % WORD;
      var _ := Generate();
      assert state == Step((first + initState) % WORD, Increment(initSeq));
    }

    /** Init: seed with the clock reading and a sequence number derived from it. */
    method Init(clock: uint64)
      modifies this
      ensures inc == Increment(ClockSequence(clock)) && inc % 2 == 1
      ensures state == SeededState(clock, inc)
      ensures isInit == old(isInit)
    {
      var initSeq := ClockSequence(clock);
      Seed(clock, initSeq);
    }

    /** The initialisation check at the head of NextUInt32 and Range32: seed once, on first use. */
    method EnsureInit(clock: uint64)
      requires Valid()
      modifies this
      ensures Valid() && isInit
      ensures state == old(ReadyState(clock)) && inc == old(ReadyIncrement(clock))
      ensures old(isInit) ==> state == old(state) && inc == old(inc)
    {
      if !isInit {
        isInit := true;
        Init(clock);
      }
    }

    /** One draw: the output of the current state, then one transition. */
    method Generate() returns (r: uint32)
      modifies this
      ensures r == Output(old(state))
      ensures state == Step(old(state), inc) && inc == old(inc) && isInit == old(isInit)
    {
      var oldState := state;
      state := Step(oldState, inc);
      var xorShifted := XorShifted(oldState);
      var rot := Rotation(oldState);
      r := RotateRight(xorShifted, rot);
    }

    /** NextUInt32(): seed on first use, then one draw. */
    method NextUInt32(clock: uint64) returns (r: uint32)
      requires Valid()
      modifies this
      ensures Valid() && isInit && inc == old(ReadyIncrement(clock))
      ensures r == Output(old(ReadyState(clock)))
      ensures state == Step(old(ReadyState(clock)), inc)
    {
      EnsureInit(clock);
      r := Generate();
    }

    /**
     * Range32(bound): seed on first use, then draw until a draw reaches the
     * threshold and return it modulo bound. `draws` counts the draws taken;
     * the result is the first draw at or above the threshold, and None means
     * that `fuel` draws all fell below it.
     */
    method Range32(bound: uint32, clock: uint64, fuel: nat) returns (r: Option<uint32>, ghost draws: nat)
      requires Valid() && bound > 0
      modifies this
      ensures Valid() && isInit && inc == old(ReadyIncrement(clock))
      ensures state == Advance(old(ReadyState(clock)), inc, draws) && draws <= fuel
      ensures r.None? ==> draws == fuel && AllBelow(old(ReadyState(clock)), inc, Threshold(bound), fuel)
      ensures r.None? <== AllBelow(old(ReadyState(clock)), inc, Threshold(bound), fuel)
      ensures r.Some? ==> draws >= 1 && r.value < bound
      ensures r.Some? ==> AllBelow(old(ReadyState(clock)), inc, Threshold(bound), draws - 1)
      ensures r.Some? ==> var x := Draw(old(ReadyState(clock)), inc, draws - 1);
                          x >= Threshold(bound) && r.value == x % bound
    {
      EnsureInit(clock);
      var threshold := Threshold(bound);
      r, draws := DrawAtLeast(threshold, bound, fuel);
    }

    /**
     * The rejection loop of Range32: draw until a draw reaches threshold and
     * return it modulo bound, giving up after `fuel` draws.
     */
    method DrawAtLeast(threshold: uint32, bound: uint32, fuel: nat) returns (r: Option<uint32>, ghost draws: nat)
      requires bound > 0
      modifies this
      ensures inc == old(inc) && isInit == old(isInit)
      ensures state == Advance(old(state), inc, draws) && draws <= fuel
      ensures r.None? ==> draws == fuel && AllBelow(old(state), inc, threshold, fuel)
      ensures r.Some? ==> draws >= 1 && r.value < bound && AllBelow(old(state), inc, threshold, draws - 1)
      ensures r.Some? ==> var x := Draw(old(state), inc, draws - 1); x >= threshold && r.value == x % bound
    {
      ghost var start := state;
      var attempts := 0;
      while attempts < fuel
        invariant attempts <= fuel && inc == old(inc) && isInit == old(isInit)
        invariant state == Advance(start, inc, attempts)
        invariant AllBelow(start, inc, threshold, attempts)
      {
        var x := Generate();
        if x >= threshold {
          return Some(x % bound), attempts + 1;
        }
        AllBelowStep(start, inc, threshold, attempts);
        attempts := attempts + 1;
      }
      return None, attempts;
    }

    /**
     * NextUInt32(minimum, exclusiveBound): minimum + Range32(exclusiveBound -
     * minimum), both in 32-bit arithmetic. The result lies in the cyclic
     * interval from minimum up to exclusiveBound, which is [minimum,
     * exclusiveBound) when minimum < exclusiveBound.
     */
    method NextUInt32InRange(minimum: uint32, exclusiveBound: uint32, clock: uint64, fuel: nat)
      returns (r: Option<uint32>, ghost draws: nat)
      requires Valid() && minimum != exclusiveBound
      modifies this
      ensures Valid() && isInit && inc == old(ReadyIncrement(clock))
      ensures state == Advance(old(ReadyState(clock)), inc, draws) && draws <= fuel
      ensures r.None? <==> AllBelow(old(ReadyState(clock)), inc, Threshold((exclusiveBound - minimum) % BASE), fuel)
      ensures r.None? ==> draws == fuel
      ensures r.Some? ==> draws >= 1 && AllBelow(old(ReadyState(clock)), inc, Threshold((exclusiveBound - minimum) % BASE), draws - 1)
      ensures r.Some? ==> var x := Draw(old(ReadyState(clock)), inc, draws - 1);
                          x >= Threshold((exclusiveBound - minimum) % BASE) &&
                          r.value == (x % ((exclusiveBound - minimum) % BASE) + minimum) % BASE
      ensures r.Some? ==> (r.value - minimum) % BASE < (exclusiveBound - minimum) % BASE
      ensures r.Some? && minimum < exclusiveBound ==> minimum <= r.value < exclusiveBound
    {
      var boundRange := (exclusiveBound - minimum) % BASE;
      var rangeResult;
      rangeResult, draws := Range32(boundRange, clock, fuel);
      if rangeResult.None? {
        return None, draws;
      }
      var v := rangeResult.value;
      assert v < boundRange;
      ShiftIntoRange(v, minimum, exclusiveBound);
      r := Some((v + minimum) % BASE);
    }

    /**
     * NextInt(minimum, exclusiveBound) on 32-bit signed values: the range is
     * taken as an unsigned 32-bit bound, and the draw, read back as a signed
     * value, is added to minimum with two's-complement wrap-around.
     */
    method NextInt(minimum: int32, exclusiveBound: int32, clock: uint64, fuel: nat)
      returns (r: Option<int32>, ghost draws: nat)
      requires Valid() && minimum != exclusiveBound
      requires -0x8000_0000 <= exclusiveBound - minimum < 0x8000_0000
      modifies this
      ensures Valid() && isInit && inc == old(ReadyIncrement(clock))
      ensures state == Advance(old(ReadyState(clock)), inc, draws) && draws <= fuel
      ensures r.None? <==> AllBelow(old(ReadyState(clock)), inc, Threshold((exclusiveBound - minimum) % BASE), fuel)
      ensures r.None? ==> draws == fuel
      ensures r.Some? ==> draws >= 1 && AllBelow(old(ReadyState(clock)), inc, Threshold((exclusiveBound - minimum) % BASE), draws - 1)
      ensures r.Some? ==> var x := Draw(old(ReadyState(clock)), inc, draws - 1);
                          x >= Threshold((exclusiveBound - minimum) % BASE) &&
                          r.value == WrapInt32(AsInt32(x % ((exclusiveBound - minimum) % BASE)) + minimum)
      ensures r.Some? && minimum < exclusiveBound ==> minimum <= r.value < exclusiveBound
    {
      var boundRange := (exclusiveBound - minimum) % BASE;
      var rangeResult;
      rangeResult, draws := Range32(boundRange, clock, fuel);
      if rangeResult.None? {
        return None, draws;
      }
      if minimum < exclusiveBound {
        SignedShiftIntoRange(rangeResult.value, minimum, exclusiveBound);
      }
      r := Some(WrapInt32(AsInt32(rangeResult.value) + minimum));
    }
  }

  /** A 32-bit pattern read as a signed value. */
  function AsInt32(x: uint32): (r: int32)
    ensures r % BASE == x
  {
    if x < 0x8000_0000 then x else x - BASE
  }

  /** Two's-complement wrap-around into the signed 32-bit range. */
  function WrapInt32(x: int): (r: int32)
    ensures r % BASE == x % BASE
  {
    var m := x % BASE;
    if m < 0x8000_0000 then m else m - BASE
  }

  lemma {:induction false} WrapInt32Identity(x: int)
    requires -0x8000_0000 <= x < 0x8000_0000
    ensures WrapInt32(x) == x
  {
    if x < 0 {
      assert x % BASE == x + BASE;
    }
  }

  /** The j-th draw from state s0: the output of the state after j transitions. */
  function Draw(s0: uint64, inc: uint64, j: nat): uint32
  {
    Output(Advance(s0, inc, j))
  }

  /** The first n draws from s0 all fall below the threshold. */
  predicate AllBelow(s0: uint64, inc: uint64, threshold: int, n: nat)
  {
    forall j :: 0 <= j < n ==> Draw(s0, inc, j) < threshold
  }

  lemma {:induction false} AllBelowStep(s0: uint64, inc: uint64, threshold: int, n: nat)
    requires AllBelow(s0, inc, threshold, n) && Draw(s0, inc, n) < threshold
    ensures AllBelow(s0, inc, threshold, n + 1)
  {
  }

  /** A signed draw below the range's width, added to minimum, lands in [minimum, exclusiveBound). */
  lemma {:induction false} SignedShiftIntoRange(v: uint32, minimum: int32, exclusiveBound: int32)
    requires minimum < exclusiveBound < minimum + 0x8000_0000
    requires v < (exclusiveBound - minimum) % BASE
    ensures minimum <= WrapInt32(AsInt32(v) + minimum) < exclusiveBound
  {
    assert (exclusiveBound - minimum) % BASE == exclusiveBound - minimum;
    assert AsInt32(v) == v;
    WrapInt32Identity(v + minimum);
  }

  /** A draw below the range's width, shifted by minimum modulo 2^32, lands in the range. */
  lemma {:induction false} ShiftIntoRange(v: uint32, minimum: uint32, exclusiveBound: uint32)
    requires v < (exclusiveBound - minimum) % BASE
    ensures ((v + minimum) % BASE - minimum) % BASE < (exclusiveBound - minimum) % BASE
    ensures minimum < exclusiveBound ==> minimum <= (v + minimum) % BASE < exclusiveBound
  {
    WrapOffset(v, minimum);
    if minimum < exclusiveBound {
      assert (exclusiveBound - minimum) % BASE == exclusiveBound - minimum;
      assert (v + minimum) % BASE == v + minimum;
    }
  }

  /** Adding minimum modulo 2^32 moves a value v below the range by exactly v in the cyclic order. */
  lemma {:induction false} WrapOffset(v: uint32, minimum: uint32)
    ensures ((v + minimum) % BASE - minimum) % BASE == v
  {
    if v + minimum < BASE {
      assert (v + minimum) % BASE == v + minimum;
    } else {
      assert (v + minimum) % BASE == v + minimum - BASE;
      assert (v - BASE) % BASE == v;
    }
  }
}
