/**
 * Conversion of the limbs of a number to bytes and back. Each limb becomes
 * four bytes, least significant byte first, and the limbs keep their order.
 */
module DigitConverter {
  import opened Limbs
  import opened Errors
  import Radix

  /** The four bytes of one limb, least significant first. */
  function LimbBytes(d: uint32): (r: seq<uint8>)
    ensures |r| == 4
  {
    [d % 256, d / 256 % 256, d / 65536 % 256, d / 16777216]
  }

  /** The limb made of four bytes, the first the least significant. */
  function BytesLimb(b: seq<uint8>): (d: uint32)
    requires |b| == 4
  {
    b[0] as int + 256 * (b[1] as int) + 65536 * (b[2] as int) + 16777216 * (b[3] as int)
  }

  /** The bytes of the limbs, limb after limb. */
  function Flatten(digits: seq<uint32>): (r: seq<uint8>)
    ensures |r| == 4 * |digits|
  {
    if |digits| == 0 then [] else LimbBytes(digits[0]) + Flatten(digits[1..])
  }

  /** The limbs of the bytes, four bytes at a time. */
  function Group(bytes: seq<uint8>): (r: seq<uint32>)
    requires |bytes| % 4 == 0
    ensures |r| == |bytes| / 4
  {
    if |bytes| == 0 then [] else [BytesLimb(bytes[..4])] + Group(bytes[4..])
  }

  /** An empty vector of limbs is refused; otherwise the result has four bytes per limb. */
  function ToBytes(digits: seq<uint32>): (r: Result<seq<uint8>>)
    ensures r.Failure? <==> |digits| == 0
    ensures r.Failure? ==> r.error == ArgumentNull
    ensures r.Success? ==> |r.value| == 4 * |digits|
    ensures r.Success? ==> forall i :: 0 <= i < |digits| ==> r.value[4 * i..4 * i + 4] == LimbBytes(digits[i])
  {
    if |digits| == 0 then Failure(ArgumentNull)
    else
      FlattenLimbs(digits);
      Success(Flatten(digits))
  }

  /**
   * An empty byte vector is refused with ArgumentNull and one whose size is
   * not a multiple of four with Argument; otherwise there is one limb per
   * four bytes.
   */
  function FromBytes(bytes: seq<uint8>): (r: Result<seq<uint32>>)
    ensures r.Failure? <==> |bytes| == 0 || |bytes| % 4 != 0
    ensures r.Failure? ==> r.error == (if |bytes| == 0 then ArgumentNull else Argument)
    ensures r.Success? ==> |r.value| == |bytes| / 4
    ensures r.Success? ==> forall i :: 0 <= i < |r.value| ==> r.value[i] == BytesLimb(bytes[4 * i..4 * i + 4])
  {
    if |bytes| == 0 then Failure(ArgumentNull)
    else if |bytes| % 4 != 0 then Failure(Argument)
    else
      GroupBytes(bytes);
      Success(Group(bytes))
  }

  /** Limb i of the flattened bytes sits at bytes 4i to 4i + 3. */
  lemma {:induction false} FlattenLimbs(digits: seq<uint32>)
    ensures forall i :: 0 <= i < |digits| ==> Flatten(digits)[4 * i..4 * i + 4] == LimbBytes(digits[i])
  {
    if |digits| > 0 {
      FlattenLimbs(digits[1..]);
      forall i | 0 <= i < |digits|
        ensures Flatten(digits)[4 * i..4 * i + 4] == LimbBytes(digits[i])
      {
        if i > 0 {
          assert Flatten(digits)[4 * i..4 * i + 4] == Flatten(digits[1..])[4 * (i - 1)..4 * (i - 1) + 4];
          assert digits[1..][i - 1] == digits[i];
        }
      }
    }
  }

  /** Limb i of the grouped limbs is made of bytes 4i to 4i + 3. */
  lemma {:induction false} GroupBytes(bytes: seq<uint8>)
    requires |bytes| % 4 == 0
    ensures forall i :: 0 <= i < |bytes| / 4 ==> Group(bytes)[i] == BytesLimb(bytes[4 * i..4 * i + 4])
  {
    if |bytes| > 0 {
      GroupBytes(bytes[4..]);
      forall i | 0 <= i < |bytes| / 4
        ensures Group(bytes)[i] == BytesLimb(bytes[4 * i..4 * i + 4])
      {
        if i > 0 {
          assert Group(bytes)[i] == Group(bytes[4..])[i - 1];
          assert bytes[4..][4 * (i - 1)..4 * (i - 1) + 4] == bytes[4 * i..4 * i + 4];
        }
      }
    }
  }

  /** The bytes of a limb give the limb back. */
  lemma {:induction false} LimbRoundTrip(d: uint32)
    ensures BytesLimb(LimbBytes(d)) == d
  {
    var b := LimbBytes(d);
    assert d / 256 == b[1] + 256 * (d / 65536) by {
      Radix.DivDiv(d, 256, 256);
    }
    assert d / 65536 == b[2] as int + 256 * (b[3] as int) by {
      Radix.DivDiv(d, 65536, 256);
    }
  }

  /** Four bytes read as a limb give the same four bytes back. */
  lemma {:induction false} BytesRoundTrip(b: seq<uint8>)
    requires |b| == 4
    ensures LimbBytes(BytesLimb(b)) == b
  {
    var d := BytesLimb(b);
    var hi: int := b[1] as int + 256 * (b[2] as int) + 65536 * (b[3] as int);
    assert d == b[0] as int + 256 * hi;
    DivModUnique(d, 256, hi, b[0]);
    var hi2: int := b[2] as int + 256 * (b[3] as int);
    assert hi == b[1] as int + 256 * hi2;
    DivModUnique(hi, 256, hi2, b[1]);
    DivModUnique(hi2, 256, b[3], b[2]);
    Radix.DivDiv(d, 256, 256);
    Radix.DivDiv(d, 65536, 256);
  }

  /** Grouping the bytes of limbs gives the limbs back. */
  lemma {:induction false} GroupFlatten(digits: seq<uint32>)
    ensures Group(Flatten(digits)) == digits
  {
    if |digits| > 0 {
      var f := Flatten(digits);
      assert f[..4] == LimbBytes(digits[0]);
      assert f[4..] == Flatten(digits[1..]);
      LimbRoundTrip(digits[0]);
      GroupFlatten(digits[1..]);
    }
  }

  /** Flattening the limbs of bytes gives the bytes back. */
  lemma {:induction false} FlattenGroup(bytes: seq<uint8>)
    requires |bytes| % 4 == 0
    ensures Flatten(Group(bytes)) == bytes
  {
    if |bytes| > 0 {
      var g := Group(bytes);
      assert g[0] == BytesLimb(bytes[..4]);
      assert g[1..] == Group(bytes[4..]);
      BytesRoundTrip(bytes[..4]);
      FlattenGroup(bytes[4..]);
      assert bytes == bytes[..4] + bytes[4..];
    }
  }

  /** Converting limbs to bytes and back returns the limbs. */
  lemma {:induction false} LimbsRoundTrip(digits: seq<uint32>)
    requires |digits| > 0
    ensures ToBytes(digits).Success? && FromBytes(ToBytes(digits).value) == Success(digits)
  {
    GroupFlatten(digits);
  }

  /** Converting well-sized bytes to limbs and back returns the bytes. */
  lemma {:induction false} BytesLimbsRoundTrip(bytes: seq<uint8>)
    requires |bytes| > 0 && |bytes| % 4 == 0
    ensures FromBytes(bytes).Success? && ToBytes(FromBytes(bytes).value) == Success(bytes)
  {
    FlattenGroup(bytes);
  }
}
