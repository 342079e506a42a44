/** `leading_zeros` of src/cons/create_block.rs: the number of leading zero
    bits of a byte string, the difficulty measure of the ledger's proof of
    work. */
module CreateBlock {
  import opened Bytes

  /** `u8::leading_zeros`. */
  function ByteLeadingZeros(b: byte): (n: nat)
    ensures n <= 8
    ensures n == 8 <==> b == 0
    ensures n < 8 ==> BitAt(b, n) && forall j :: 0 <= j < n ==> !BitAt(b, j)
  {
    if b >= 128 then 0
    else if b >= 64 then 1
    else if b >= 32 then 2
    else if b >= 16 then 3
    else if b >= 8 then 4
    else if b >= 4 then 5
    else if b >= 2 then 6
    else if b >= 1 then 7
    else 8
  }

  /** What the loop computes: eight for every leading zero byte, then the
      leading zeros of the first non-zero byte, where the scan stops. */
  function LeadingZerosOf(bytes: seq<byte>): nat
  {
    if bytes == [] then 0
    else
      var x := ByteLeadingZeros(bytes[0]);
      if x != 8 then x else x + LeadingZerosOf(bytes[1..])
  }

  /** The accumulating loop with its early `break`. */
  method LeadingZeros(bytes: seq<byte>) returns (zeros: nat)
    ensures zeros == LeadingZerosOf(bytes)
  {
    zeros := 0;
    var i := 0;
    while i < |bytes|
      invariant 0 <= i <= |bytes|
      invariant LeadingZerosOf(bytes) == zeros + LeadingZerosOf(bytes[i..])
    {
      var x := ByteLeadingZeros(bytes[i]);
      zeros := zeros + x;
      if x != 8 {
        break;
      }
      i := i + 1;
    }
  }

  /** The result never exceeds the number of bits. */
  lemma {:induction false} LeadingZerosBound(bytes: seq<byte>)
    ensures LeadingZerosOf(bytes) <= 8 * |bytes|
  {
    if bytes != [] {
      LeadingZerosBound(bytes[1..]);
    }
  }

  /** An all-zero string has all its bits counted. */
  lemma {:induction false} LeadingZerosAllZero(bytes: seq<byte>)
    requires forall i :: 0 <= i < |bytes| ==> bytes[i] == 0
    ensures LeadingZerosOf(bytes) == 8 * |bytes|
  {
    if bytes != [] {
      LeadingZerosAllZero(bytes[1..]);
    }
  }

  /** The scan stops at the first non-zero byte, adding its own count, which
      is below eight; nothing after it matters. */
  lemma {:induction false} LeadingZerosFirstNonZero(bytes: seq<byte>, k: nat)
    requires k < |bytes| && bytes[k] != 0
    requires forall i :: 0 <= i < k ==> bytes[i] == 0
    ensures ByteLeadingZeros(bytes[k]) < 8
    ensures LeadingZerosOf(bytes) == 8 * k + ByteLeadingZeros(bytes[k])
  {
    if k > 0 {
      LeadingZerosFirstNonZero(bytes[1..], k - 1);
    }
  }

  /** A zero byte in front adds exactly eight. */
  lemma LeadingZerosPrependZero(bytes: seq<byte>)
    ensures LeadingZerosOf([0] + bytes) == 8 + LeadingZerosOf(bytes)
  {
    assert ([0] + bytes)[1..] == bytes;
  }
}
