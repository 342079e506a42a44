/** Machine integers and byte strings: the fixed-width Rust types the core uses
    (`u8`, `u16`, `u64`, `i32`, `i64`), bit extraction in the order of the `to_binary`
    crate (most significant bit first), and big-endian encodings. */
module Bytes {

  type byte = bv8
  newtype u16 = x: int | 0 <= x < 0x1_0000
  newtype u64 = x: int | 0 <= x < 0x1_0000_0000_0000_0000
  newtype i32 = x: int | -0x8000_0000 <= x < 0x8000_0000
  newtype i64 = x: int | -0x8000_0000_0000_0000 <= x < 0x8000_0000_0000_0000

  const TwoTo64: nat := 0x1_0000_0000_0000_0000

  /** The single-bit mask of bit `i`, where bit 0 is the most significant one. */
  function BitMask(i: nat): byte
    requires i < 8
  {
    match i
    case 0 => 0x80 case 1 => 0x40 case 2 => 0x20 case 3 => 0x10
    case 4 => 0x08 case 5 => 0x04 case 6 => 0x02 case _ => 0x01
  }

  /** Bit `i` of `b`, most significant first: the character at position `i` of
      `BinaryString::from(b)` is '1'. */
  predicate BitAt(b: byte, i: nat)
    requires i < 8
  {
    b & BitMask(i) != 0
  }

  /** XOR with a one-bit mask flips that bit ... */
  lemma FlipBit(b: byte, i: nat)
    requires i < 8
    ensures BitAt(b ^ BitMask(i), i) != BitAt(b, i)
  {
  }

  /** ... and keeps every other bit. */
  lemma FlipBitKeeps(b: byte, i: nat, j: nat)
    requires i < 8 && j < 8 && i != j
    ensures BitAt(b ^ BitMask(i), j) == BitAt(b, j)
  {
  }

  /** Bit `i` of an XOR is the exclusive or of the two bits. */
  lemma XorBit(a: byte, b: byte, i: nat)
    requires i < 8
    ensures BitAt(a ^ b, i) == (BitAt(a, i) != BitAt(b, i))
  {
    var m := BitMask(i);
    assert (a ^ b) & m == (a & m) ^ (b & m);
  }

  function Pow256(w: nat): (r: nat)
    ensures r >= 1
  {
    if w == 0 then 1 else 256 * Pow256(w - 1)
  }

  /** The big-endian value of a byte string. */
  function ToNat(s: seq<byte>): nat
  {
    if s == [] then 0 else ToNat(s[..|s| - 1]) * 256 + s[|s| - 1] as nat
  }

  /** The `w`-byte big-endian encoding of `n` (Rust's `to_be_bytes`). */
  function BeBytes(n: nat, w: nat): (r: seq<byte>)
    requires n < Pow256(w)
    ensures |r| == w
  {
    if w == 0 then [] else BeBytes(n / 256, w - 1) + [ByteOf(n % 256)]
  }

  lemma {:induction false} ToNatBeBytes(n: nat, w: nat)
    requires n < Pow256(w)
    ensures ToNat(BeBytes(n, w)) == n
  {
    if w > 0 {
      var r := BeBytes(n, w);
      assert n / 256 < Pow256(w - 1) by { DivBound(n, Pow256(w - 1)); }
      assert r[..w - 1] == BeBytes(n / 256, w - 1);
      ToNatBeBytes(n / 256, w - 1);
      ByteRoundTrip(n % 256);
      assert r[w - 1] as nat == n % 256;
      assert ToNat(r) == (n / 256) * 256 + n % 256;
    }
  }

  /** The byte whose value is `k`, built bit by bit from the low end. */
  function ByteOf(k: nat): byte
    requires k < 256
  {
    if k == 0 then 0 else (ByteOf(k / 2) << 1) | (if k % 2 == 1 then 1 else 0)
  }

  /** The value of a byte as the sum of its set bits. */
  function BitSum(b: byte): nat
  {
    Weight(b, 0x80, 128) + Weight(b, 0x40, 64) + Weight(b, 0x20, 32) + Weight(b, 0x10, 16) +
    Weight(b, 0x08, 8) + Weight(b, 0x04, 4) + Weight(b, 0x02, 2) + Weight(b, 0x01, 1)
  }

  function Weight(b: byte, m: byte, e: nat): nat
  {
    if b & m != 0 then e else 0
  }

  lemma BitSumIsValue(b: byte)
    ensures BitSum(b) == b as nat
  {
  }

  lemma BitSumShift(x: byte, low: bool)
    requires BitSum(x) < 128
    ensures BitSum((x << 1) | (if low then 1 else 0)) == 2 * BitSum(x) + (if low then 1 else 0)
  {
  }

  lemma {:induction false} ByteOfBitSum(k: nat)
    requires k < 256
    ensures BitSum(ByteOf(k)) == k
  {
    if k > 0 {
      ByteOfBitSum(k / 2);
      BitSumShift(ByteOf(k / 2), k % 2 == 1);
    }
  }

  lemma ByteRoundTrip(k: nat)
    requires k < 256
    ensures ByteOf(k) as nat == k
  {
    ByteOfBitSum(k);
    BitSumIsValue(ByteOf(k));
  }

  lemma DivBound(n: nat, p: nat)
    requires n < 256 * p
    ensures n / 256 < p
  {
  }

  lemma BeBytesInjective(m: nat, n: nat, w: nat)
    requires m < Pow256(w) && n < Pow256(w)
    ensures BeBytes(m, w) == BeBytes(n, w) ==> m == n
  {
    ToNatBeBytes(m, w);
    ToNatBeBytes(n, w);
  }

  lemma Pow256Eight()
    ensures Pow256(8) == TwoTo64
  {
  }

  /** `u64::to_be_bytes`. */
  function U64Be(x: u64): (r: seq<byte>)
    ensures |r| == 8
  {
    Pow256Eight();
    BeBytes(x as nat, 8)
  }

  /** The two's-complement value of an `i64` read as a `u64` (the bit pattern
      `to_be_bytes` writes out). */
  function TwosComplement(t: i64): (r: nat)
    ensures r < TwoTo64
    ensures (t as int >= 0 ==> r == t as int) && (t as int < 0 ==> r == t as int + TwoTo64)
  {
    if t >= 0 then t as int else t as int + TwoTo64
  }

  /** `i64::to_be_bytes`. */
  function I64Be(t: i64): (r: seq<byte>)
    ensures |r| == 8
  {
    Pow256Eight();
    BeBytes(TwosComplement(t), 8)
  }

  /** Distinct timestamps have distinct big-endian encodings. */
  lemma I64BeInjective(s: i64, t: i64)
    requires s != t
    ensures I64Be(s) != I64Be(t)
  {
    Pow256Eight();
    BeBytesInjective(TwosComplement(s), TwosComplement(t), 8);
  }
}
