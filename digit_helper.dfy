/**
 * Small helpers on limb buffers: real length, sign splitting of machine
 * integers, filling and copying blocks.
 */
module DigitHelper {
  import opened Limbs

  /**
   * The real length of `digits[..vlength]`: leading zero limbs are counted
   * down from the top.
   */
  method GetRealDigitsLength(digits: seq<uint32>, vlength: nat) returns (length: nat)
    requires vlength <= |digits|
    ensures length <= vlength
    ensures Trimmed(digits[..length]) && AllZero(digits[length..vlength])
    ensures Val(digits[..length]) == Val(digits[..vlength])
    ensures length == RealLength(digits[..vlength])
  {
    length := vlength;
    while length > 0 && digits[length - 1] == 0
      invariant length <= vlength
      invariant forall i :: length <= i < vlength ==> digits[i] == 0
    {
      length := length - 1;
    }
    assert digits[..vlength][..length] == digits[..length];
    assert digits[..vlength][length..] == digits[length..vlength];
    ValZeroTop(digits[..vlength], length);
    RealLengthUnique(digits[..vlength], length);
  }

  /** The magnitude of a signed value as a machine word would hold it. */
  function Abs(x: int): nat
  {
    if x < 0 then -x else x
  }

  /** Splits a 32-bit signed value into sign and magnitude; int.MinValue becomes 2^31. */
  method ToUInt32WithSign(value: int32) returns (resultValue: uint32, negative: bool)
    ensures negative <==> value < 0
    ensures resultValue == Abs(value)
    ensures negative ==> value == -(resultValue as int)
    ensures !negative ==> value == resultValue
  {
    negative := value < 0;
    if !negative {
      resultValue := value;
    } else if value != -0x8000_0000 {
      resultValue := -value;
    } else {
      resultValue := 0x7fff_ffff + 1;
    }
  }

  /** Splits a 64-bit signed value into sign and magnitude; long.MinValue becomes 2^63. */
  method ToUInt64WithSign(value: int64) returns (resultValue: uint64, negative: bool)
    ensures negative <==> value < 0
    ensures resultValue == Abs(value)
    ensures negative ==> value == -(resultValue as int)
    ensures !negative ==> value == resultValue
  {
    negative := value < 0;
    if !negative {
      resultValue := value;
    } else if value != -0x8000_0000_0000_0000 {
      resultValue := -value;
    } else {
      resultValue := 0x7fff_ffff_ffff_ffff + 1;
    }
  }

  /** Writes `value` into `block[off..off+blockLength)` and nowhere else. */
  method SetBlockDigits(block: array<uint32>, off: nat, blockLength: nat, value: uint32)
    requires off + blockLength <= block.Length
    modifies block
    ensures forall i :: off <= i < off + blockLength ==> block[i] == value
    ensures forall k :: 0 <= k < off || off + blockLength <= k < block.Length ==> block[k] == old(block[k])
  {
    var i := off;
    while i < off + blockLength
      invariant off <= i <= off + blockLength
      invariant forall k :: off <= k < i ==> block[k] == value
      invariant forall k :: 0 <= k < off || off + blockLength <= k < block.Length ==> block[k] == old(block[k])
    {
      block[i] := value;
      i := i + 1;
    }
  }

  /**
   * Copies `count` limbs of `blockFrom` to `blockTo[toOff..toOff+count)`; the
   * other cells of `blockTo` keep their contents.
   */
  method DigitsBlockCopy(blockFrom: seq<uint32>, blockTo: array<uint32>, toOff: nat, count: nat)
    requires count <= |blockFrom| && toOff + count <= blockTo.Length
    modifies blockTo
    ensures blockTo[toOff..toOff + count] == blockFrom[..count]
    ensures forall k :: 0 <= k < toOff || toOff + count <= k < blockTo.Length ==> blockTo[k] == old(blockTo[k])
  {
    var i := 0;
    while i < count
      invariant i <= count
      invariant forall k :: 0 <= k < i ==> blockTo[toOff + k] == blockFrom[k]
      invariant forall k :: 0 <= k < toOff || toOff + count <= k < blockTo.Length ==> blockTo[k] == old(blockTo[k])
    {
      blockTo[toOff + i] := blockFrom[i];
      i := i + 1;
    }
  }
}
