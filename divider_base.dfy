/**
 * The special cases every divider handles before its own algorithm runs: an
 * empty dividend, two one-limb operands, a dividend smaller than or equal to
 * the divisor, and a one-limb divisor. When none applies the check returns
 * the sentinel MaxUInt32Value and the caller's algorithm takes over.
 */
module DividerBase {
  import opened Limbs
  import Constants
  import DigitHelper
  import DigitOpHelper

  /**
   * Which results a division delivers: the quotient (flag bit dmrfDiv = 1)
   * and the remainder (flag bit dmrfMod = 2).
   */
  datatype ResultFlags = ResultFlags(divNeeded: bool, modNeeded: bool)

  /** The comparison a caller may pass in: -2 for "not compared yet", or the sign of a - b. */
  ghost predicate CmpArgument(a: seq<uint32>, b: seq<uint32>, cmpResult: int)
  {
    cmpResult == -2 || cmpResult == DigitOpHelper.Sign(Val(a) - Val(b))
  }

  /** No special case applies: the divider's general algorithm has to run. */
  ghost predicate NeedsGeneral(a: seq<uint32>, b: seq<uint32>)
  {
    |a| >= 1 && |b| >= 2 && Val(a) > Val(b)
  }

  /**
   * The low-level special cases on the limb runs a (dividend) and b
   * (divisor). A quotient goes to digitsRes, a remainder to buffer1, with
   * its length returned as length1; the quotient length is returned. The
   * sentinel MaxUInt32Value is returned exactly when no case applies, and
   * then nothing has been written.
   */
  method DivModSpecial(a: seq<uint32>, buffer1: array<uint32>, b: seq<uint32>, digitsRes: array<uint32>,
                       flags: ResultFlags, cmpResult: int) returns (resultLength: nat, length1: nat)
    requires Trimmed(a) && Trimmed(b) && |b| >= 1 && |a| < Constants.MaxUInt32Value
    requires CmpArgument(a, b, cmpResult)
    requires flags.modNeeded ==> |a| <= buffer1.Length
    requires flags.divNeeded ==> 1 <= digitsRes.Length && |a| + 1 <= digitsRes.Length + |b|
    requires buffer1 != digitsRes
    modifies buffer1, digitsRes
    ensures resultLength == Constants.MaxUInt32Value <==> NeedsGeneral(a, b)
    ensures resultLength == Constants.MaxUInt32Value ==> unchanged(buffer1) && unchanged(digitsRes)
    ensures !flags.modNeeded || resultLength == Constants.MaxUInt32Value ==> length1 == |a|
    ensures resultLength != Constants.MaxUInt32Value && flags.divNeeded ==>
      resultLength <= digitsRes.Length && Val(digitsRes[..resultLength]) == Val(a) / Val(b) && Trimmed(digitsRes[..resultLength])
    ensures resultLength != Constants.MaxUInt32Value && flags.modNeeded ==>
      length1 <= buffer1.Length && Val(buffer1[..length1]) == Val(a) % Val(b) && Trimmed(buffer1[..length1])
  {
    length1 := |a|;
    if |a| == 0 {
      return 0, length1;
    }
    if |a| == 1 && |b| == 1 {
      ValSingle(a[0]);
      ValSingle(b[0]);
      resultLength, length1 := BothSingle(a[0], b[0], buffer1, digitsRes, flags);
      return;
    }
    var cmp := cmpResult;
    if cmp == -2 {
      cmp := DigitOpHelper.Cmp(a, b);
    }
    ValTrimmedRange(b);
    if cmp < 0 {
      BelowDivisor(a, b, buffer1, flags);
      return 0, length1;
    }
    if cmp == 0 {
      length1 := EqualDivisor(a, b, buffer1, digitsRes, flags);
      return 1, length1;
    }
    if |b| == 1 {
      ValSingle(b[0]);
      resultLength, length1 := OneLimbDivisor(a, b[0], buffer1, digitsRes, flags);
      return;
    }
    ValTrimmedRange(a);
    return Constants.MaxUInt32Value, length1;
  }

  /** A dividend below the divisor: the quotient is zero and the remainder the dividend, copied. */
  method BelowDivisor(a: seq<uint32>, b: seq<uint32>, buffer1: array<uint32>, flags: ResultFlags)
    requires Trimmed(a) && Val(a) < Val(b)
    requires flags.modNeeded ==> |a| <= buffer1.Length
    modifies buffer1
    ensures Val(a) / Val(b) == 0
    ensures flags.modNeeded ==> Val(buffer1[..|a|]) == Val(a) % Val(b) && Trimmed(buffer1[..|a|])
  {
    if flags.modNeeded {
      DigitHelper.DigitsBlockCopy(a, buffer1, 0, |a|);
      assert buffer1[..|a|] == a[..|a|] == a;
      ModBelow(Val(a), Val(b));
    }
    DivBelow(Val(a), Val(b));
  }

  /** A dividend equal to the divisor: the quotient is one and the remainder zero. */
  method EqualDivisor(a: seq<uint32>, b: seq<uint32>, buffer1: array<uint32>, digitsRes: array<uint32>,
                      flags: ResultFlags) returns (length1: nat)
    requires Val(a) == Val(b) >= 1 && buffer1 != digitsRes
    requires flags.divNeeded ==> 1 <= digitsRes.Length
    modifies buffer1, digitsRes
    ensures !flags.modNeeded ==> length1 == |a|
    ensures flags.divNeeded ==> Val(digitsRes[..1]) == Val(a) / Val(b) && Trimmed(digitsRes[..1])
    ensures flags.modNeeded ==> length1 == 0 && Val(a) % Val(b) == 0
  {
    length1 := |a|;
    DivSelf(Val(a));
    if flags.modNeeded {
      length1 := 0;
    }
    if flags.divNeeded {
      digitsRes[0] := 1;
      assert digitsRes[..1] == [1];
      ValSingle(1);
    }
  }

  /** Both operands one limb: one machine division and one remainder. */
  method BothSingle(x: uint32, d: uint32, buffer1: array<uint32>, digitsRes: array<uint32>, flags: ResultFlags)
    returns (length2: nat, length1: nat)
    requires d >= 1
    requires flags.modNeeded ==> 1 <= buffer1.Length
    requires flags.divNeeded ==> 1 <= digitsRes.Length
    requires buffer1 != digitsRes
    modifies buffer1, digitsRes
    ensures length2 <= 1 && length1 <= 1
    ensures !flags.modNeeded ==> length1 == 1
    ensures flags.divNeeded ==> Val(digitsRes[..length2]) == x / d && Trimmed(digitsRes[..length2])
    ensures flags.modNeeded ==> Val(buffer1[..length1]) == x % d && Trimmed(buffer1[..length1])
  {
    length1, length2 := 1, 1;
    if flags.divNeeded {
      digitsRes[0] := x / d;
      if digitsRes[0] == 0 {
        length2 := 0;
      }
      assert digitsRes[..1] == [digitsRes[0]];
      ValSingle(digitsRes[0]);
    }
    if flags.modNeeded {
      buffer1[0] := x % d;
      if buffer1[0] == 0 {
        length1 := 0;
      }
      assert buffer1[..1] == [buffer1[0]];
      ValSingle(buffer1[0]);
    }
  }

  /**
   * A one-limb divisor and a larger dividend: the kernel's DivMod when the
   * quotient is wanted, its Mod otherwise; a zero remainder has length 0.
   */
  method OneLimbDivisor(a: seq<uint32>, d: uint32, buffer1: array<uint32>, digitsRes: array<uint32>, flags: ResultFlags)
    returns (length2: nat, length1: nat)
    requires Trimmed(a) && |a| >= 1 && d >= 1 && Val(a) > d
    requires flags.modNeeded ==> 1 <= buffer1.Length
    requires flags.divNeeded ==> |a| <= digitsRes.Length
    requires buffer1 != digitsRes
    modifies buffer1, digitsRes
    ensures length2 <= |a| && (flags.modNeeded ==> length1 <= 1)
    ensures !flags.modNeeded ==> length1 == |a|
    ensures flags.divNeeded ==> Val(digitsRes[..length2]) == Val(a) / d && Trimmed(digitsRes[..length2])
    ensures flags.modNeeded ==> Val(buffer1[..length1]) == Val(a) % d && Trimmed(buffer1[..length1])
  {
    length2, length1 := 1, |a|;
    var modRes: uint32;
    if flags.divNeeded {
      length2, modRes := DigitOpHelper.DivMod(a, d, digitsRes, 0);
      assert digitsRes[0..length2] == digitsRes[..length2];
      if length2 < |a| {
        ValTrimmedRange(a);
        QuotientTrimmed(a, d, digitsRes[..length2]);
      }
    } else {
      modRes := DigitOpHelper.Mod(a, d);
    }
    if flags.modNeeded {
      if modRes != 0 {
        length1 := 1;
        buffer1[0] := modRes;
        assert buffer1[..1] == [modRes];
        ValSingle(modRes);
      } else {
        length1 := 0;
      }
    }
  }

  /** A value divided by itself. */
  lemma {:induction false} DivSelf(x: nat)
    requires x >= 1
    ensures x / x == 1 && x % x == 0
  {
    DivModUnique(x, x, 1, 0);
  }

  /** A smaller dividend gives quotient 0 ... */
  lemma {:induction false} DivBelow(x: nat, y: nat)
    requires x < y
    ensures x / y == 0
  {
  }

  /** ... and is its own remainder. */
  lemma {:induction false} ModBelow(x: nat, y: nat)
    requires x < y
    ensures x % y == x
  {
  }

  /**
   * Dividing a trimmed run of two or more limbs by one limb leaves at most
   * one leading zero limb: the quotient with a zero top limb dropped is trimmed.
   */
  lemma {:induction false} QuotientTrimmed(a: seq<uint32>, d: uint32, q: seq<uint32>)
    requires Trimmed(a) && |a| >= 2 && d >= 1
    requires Val(q) == Val(a) / d && |q| == |a| - 1
    ensures Trimmed(q)
  {
    ValTrimmedRange(a);
    assert Pow(|a| - 1) == BASE * Pow(|a| - 2);
    MulLe(d, BASE, Pow(|a| - 2));
    DivAtLeast(Val(a), d, Pow(|a| - 2));
    if q[|q| - 1] == 0 {
      ValLast(q);
      ValBound(q[..|q| - 1]);
    }
  }

  /** x >= d * m gives x / d >= m. */
  lemma {:induction false} DivAtLeast(x: nat, d: nat, m: nat)
    requires d >= 1 && x >= d * m
    ensures x / d >= m
  {
    if x / d < m {
      assert x == d * (x / d) + x % d;
      MulLe(x / d + 1, m, d);
    }
  }
}
