/** Kademlia identifiers (`Key`, alias `NodeID`, in src/p2p/key.rs): a 256-bit
    value kept as 32 bytes, most significant byte first, with the XOR metric
    and the two bit manipulations the routing table's lookup uses. */
module Keys {
  import opened Bytes

  const ZeroKey: seq<byte> := seq(32, _ => 0)

  type Key = s: seq<byte> | |s| == 32 witness ZeroKey

  /** `Key::distance`: the bitwise XOR of the two identifiers. */
  function Distance(a: Key, b: Key): (d: Key)
  {
    seq(32, i requires 0 <= i < 32 => a[i] ^ b[i])
  }

  /** The XOR distance as the unsigned 256-bit number it stands for; `H256`
      orders its bytes lexicographically, which is this big-endian value. */
  function DistanceValue(a: Key, b: Key): nat
  {
    ToNat(Distance(a, b))
  }

  lemma DistanceSymmetric(a: Key, b: Key)
    ensures Distance(a, b) == Distance(b, a)
  {
    forall i | 0 <= i < 32 ensures Distance(a, b)[i] == Distance(b, a)[i] {
      assert a[i] ^ b[i] == b[i] ^ a[i];
    }
  }

  /** The distance is zero exactly when the two keys are equal. */
  lemma DistanceZeroIff(a: Key, b: Key)
    ensures Distance(a, b) == ZeroKey <==> a == b
  {
    if Distance(a, b) == ZeroKey {
      forall i | 0 <= i < 32 ensures a[i] == b[i] {
        assert Distance(a, b)[i] == 0;
        XorZero(a[i], b[i]);
      }
    }
    if a == b {
      forall i | 0 <= i < 32 ensures Distance(a, b)[i] == 0 {
        XorZero(a[i], b[i]);
      }
    }
  }

  lemma XorZero(x: byte, y: byte)
    ensures x ^ y == 0 <==> x == y
  {
  }

  /** For a fixed origin, different keys lie at different distances. */
  lemma DistanceInjective(a: Key, b: Key, c: Key)
    requires Distance(a, b) == Distance(a, c)
    ensures b == c
  {
    forall i | 0 <= i < 32 ensures b[i] == c[i] {
      var x, y, z := a[i], b[i], c[i];
      DistanceAt(a, b, i);
      DistanceAt(a, c, i);
      assert x ^ (x ^ y) == y;
      assert x ^ (x ^ z) == z;
    }
  }

  lemma DistanceAt(a: Key, b: Key, i: nat)
    requires i < 32
    ensures Distance(a, b)[i] == a[i] ^ b[i]
  {
  }

  /** `Key::as_bytes`. */
  function AsBytes(k: Key): (r: seq<byte>)
    ensures |r| == 32
  {
    k
  }

  /** `Key::from_vec`: `H256::from_slice` panics unless the vector has 32 bytes. */
  function FromVec(source: seq<byte>): (k: Key)
    requires |source| == 32
    ensures AsBytes(k) == source
  {
    source
  }

  /** `u8::pow(2, e)`. */
  function Pow2Byte(e: nat): byte
    requires e < 8
  {
    if e == 0 then 1 else 2 * Pow2Byte(e - 1)
  }

  lemma Pow2ByteIsBitMask(index: nat)
    requires index < 8
    ensures Pow2Byte(7 - index) == BitMask(index)
  {
    match index
    case 0 => assert Pow2Byte(7) == 0x80;
    case 1 => assert Pow2Byte(6) == 0x40;
    case 2 => assert Pow2Byte(5) == 0x20;
    case 3 => assert Pow2Byte(4) == 0x10;
    case 4 => assert Pow2Byte(3) == 0x08;
    case 5 => assert Pow2Byte(2) == 0x04;
    case 6 => assert Pow2Byte(1) == 0x02;
    case _ => assert Pow2Byte(0) == 0x01;
  }

  /** `Key::set_bitmask`: XOR with a key whose only non-zero byte, at `chunk`,
      is `2^(7 - index)`. The index must be at most 7 (`7 - index` would
      underflow) and the chunk a byte position. */
  function SetBitmask(k: Key, index: nat, chunk: nat): (r: Key)
    requires index < 8 && chunk < 32
  {
    k[chunk := k[chunk] ^ Pow2Byte(7 - index)]
  }

  /** `set_bitmask` changes exactly one bit of the key: bit `index` of byte
      `chunk`. (Its doc comment speaks of a mask over the first
      `8 * chunk + index` bits; only one bit is ever set in the mask.) */
  lemma SetBitmaskFlipsOneBit(k: Key, index: nat, chunk: nat)
    requires index < 8 && chunk < 32
    ensures forall j :: 0 <= j < 32 && j != chunk ==> SetBitmask(k, index, chunk)[j] == k[j]
    ensures BitAt(SetBitmask(k, index, chunk)[chunk], index) != BitAt(k[chunk], index)
    ensures forall b :: 0 <= b < 8 && b != index ==>
      BitAt(SetBitmask(k, index, chunk)[chunk], b) == BitAt(k[chunk], b)
  {
    Pow2ByteIsBitMask(index);
    var x := k[chunk];
    assert SetBitmask(k, index, chunk)[chunk] == x ^ BitMask(index);
    FlipBit(x, index);
    forall b | 0 <= b < 8 && b != index
      ensures BitAt(SetBitmask(k, index, chunk)[chunk], b) == BitAt(k[chunk], b)
    {
      FlipBitKeeps(x, index, b);
    }
  }

  /** Flipping the same bit twice gives the key back. */
  lemma SetBitmaskInvolution(k: Key, index: nat, chunk: nat)
    requires index < 8 && chunk < 32
    ensures SetBitmask(SetBitmask(k, index, chunk), index, chunk) == k
  {
    var m := Pow2Byte(7 - index);
    assert (k[chunk] ^ m) ^ m == k[chunk];
  }

  /** `Key::prefix`, the visited-bucket marker of the routing table's lookup.
      For index 0 it is one byte, 1 or 0, telling whether byte `chunk` is at
      least 128; otherwise it is bytes `0..=chunk` with the top `8 - index`
      bits of the last one set. `index` above 8 would underflow `8 - index`. */
  function Prefix(k: Key, index: nat, chunk: nat): (r: seq<byte>)
    requires index <= 8 && chunk < 32
    ensures index == 0 ==> r == [if BitAt(k[chunk], 0) then 1 else 0]
    ensures index > 0 ==> |r| == chunk + 1 && r[..chunk] == k[..chunk]
  {
    var prefix := k[0..chunk + 1];
    if index == 0 then
      if prefix[chunk] > 127 then [1] else [0]
    else
      var range: byte := 255 >> (8 - index);
      prefix[chunk := prefix[chunk] | !range]
  }

  /** For a positive index the last byte of the prefix has its top
      `8 - index` bits forced to 1 and keeps its low `index` bits. */
  lemma PrefixLastByte(k: Key, index: nat, chunk: nat, b: nat)
    requires 0 < index <= 8 && chunk < 32 && b < 8
    ensures b < 8 - index ==> BitAt(Prefix(k, index, chunk)[chunk], b)
    ensures b >= 8 - index ==> BitAt(Prefix(k, index, chunk)[chunk], b) == BitAt(k[chunk], b)
  {
    var x := k[chunk];
    var range: byte := 255 >> (8 - index);
    assert Prefix(k, index, chunk)[chunk] == x | !range;
    match index
    case 1 => assert range == 0x01;
    case 2 => assert range == 0x03;
    case 3 => assert range == 0x07;
    case 4 => assert range == 0x0f;
    case 5 => assert range == 0x1f;
    case 6 => assert range == 0x3f;
    case 7 => assert range == 0x7f;
    case _ => assert range == 0xff;
  }

  /** Flipping the top bit always changes the index-0 prefix of byte 0, and
      flipping it back restores it: the two markers the lookup compares. */
  lemma PrefixTopBitFlip(k: Key)
    ensures Prefix(SetBitmask(k, 0, 0), 0, 0) != Prefix(k, 0, 0)
    ensures Prefix(SetBitmask(SetBitmask(k, 0, 0), 0, 0), 0, 0) == Prefix(k, 0, 0)
  {
    SetBitmaskFlipsOneBit(k, 0, 0);
    SetBitmaskInvolution(k, 0, 0);
  }
}
