/** Header signing and validation (`Signer` in src/p2p/signatures.rs). Each
    function feeds a fixed sequence of fields to a SHA-256 hasher; a streaming
    hasher digests the concatenation of what it was fed, so the model hashes
    that concatenation. SHA-256, the RSA `encrypt_message`, the validator's
    `decrypt` and `verify_puzzle` are not part of this model and are given as
    functions. An address enters the hash as its UTF-8 bytes, which is how
    the model holds it. */
module Signatures {
  import opened Bytes
  import opened Keys
  import opened Wrappers
  import Sorting

  /** The primitives the signer relies on. */
  datatype Crypto = Crypto(
    sha256: seq<byte> -> Key,
    encrypt: (seq<byte>, seq<byte>) -> seq<byte>,
    verifyPuzzle: (Key, u64) -> bool)

  /** A `NodeValidator`, as far as validation uses it: decryption with its
      private key. */
  datatype Validator = Validator(decrypt: seq<byte> -> seq<byte>)

  /** The signed part of a message header. */
  datatype Header = Header(myId: seq<byte>, nonce: u64, timestamp: i64, signature: seq<byte>)

  const InvalidMessage: string := "invalid message"

  /** The hash inputs: the big-endian timestamp, the address, then the
      payload for the strong variants, then the request signature for the
      replies. */
  function WeakReqInput(timestamp: i64, address: seq<byte>): seq<byte>
  {
    I64Be(timestamp) + address
  }

  function WeakRepInput(timestamp: i64, address: seq<byte>, reqSignature: seq<byte>): seq<byte>
  {
    I64Be(timestamp) + address + reqSignature
  }

  function StrongReqInput(timestamp: i64, address: seq<byte>, data: seq<byte>): seq<byte>
  {
    I64Be(timestamp) + address + data
  }

  function StrongRepInput(timestamp: i64, address: seq<byte>, data: seq<byte>, reqSignature: seq<byte>): seq<byte>
  {
    I64Be(timestamp) + address + data + reqSignature
  }

  // ---------------------------------------------------------------------------
  // Signing.

  /** `sign_strong_header_req`: the digest and its encryption. */
  function SignStrongHeaderReq(c: Crypto, timestamp: i64, pubKey: seq<byte>, address: seq<byte>, data: seq<byte>): (seq<byte>, seq<byte>)
  {
    var signature := c.sha256(StrongReqInput(timestamp, address, data));
    (signature, c.encrypt(pubKey, signature))
  }

  /** `sign_strong_header_rep`: the encrypted digest only. */
  function SignStrongHeaderRep(c: Crypto, timestamp: i64, pubKey: seq<byte>, address: seq<byte>, data: seq<byte>, repSignature: seq<byte>): seq<byte>
  {
    c.encrypt(pubKey, c.sha256(StrongRepInput(timestamp, address, data, repSignature)))
  }

  /** `sign_weak_header_req`. */
  function SignWeakHeaderReq(c: Crypto, timestamp: i64, pubKey: seq<byte>, address: seq<byte>): (seq<byte>, seq<byte>)
  {
    var signature := c.sha256(WeakReqInput(timestamp, address));
    (signature, c.encrypt(pubKey, signature))
  }

  /** `sign_weak_header_rep`. */
  function SignWeakHeaderRep(c: Crypto, timestamp: i64, pubKey: seq<byte>, address: seq<byte>, repSignature: seq<byte>): seq<byte>
  {
    c.encrypt(pubKey, c.sha256(WeakRepInput(timestamp, address, repSignature)))
  }

  // ---------------------------------------------------------------------------
  // Validation.

  /** The common check of every validator: the sender's puzzle holds and the
      first 32 bytes of the decrypted signature are the recomputed digest.
      `NodeID::from_vec` panics unless the sender's id has 32 bytes. */
  predicate Genuine(c: Crypto, v: Validator, header: Header, input: seq<byte>)
    requires |header.myId| == 32
  {
    c.verifyPuzzle(FromVec(header.myId), header.nonce)
    && Sorting.Truncate(v.decrypt(header.signature), 32) == c.sha256(input)
  }

  /** `validate_weak_req`: the recomputed digest, or "invalid message". */
  function ValidateWeakReq(c: Crypto, v: Validator, header: Header, address: seq<byte>): (r: Result<seq<byte>>)
    requires |header.myId| == 32
    ensures r.Ok? <==> Genuine(c, v, header, WeakReqInput(header.timestamp, address))
    ensures r.Ok? ==> r.value == c.sha256(WeakReqInput(header.timestamp, address))
    ensures r.Err? ==> r.error == InvalidMessage
  {
    if c.verifyPuzzle(FromVec(header.myId), header.nonce) then
      var sign := c.sha256(WeakReqInput(header.timestamp, address));
      if Sorting.Truncate(v.decrypt(header.signature), 32) == sign then Ok(sign) else Err(InvalidMessage)
    else Err(InvalidMessage)
  }

  /** `validate_weak_rep`. */
  function ValidateWeakRep(c: Crypto, v: Validator, header: Header, address: seq<byte>, reqSignature: seq<byte>): (r: Result<()>)
    requires |header.myId| == 32
    ensures r.Ok? <==> Genuine(c, v, header, WeakRepInput(header.timestamp, address, reqSignature))
    ensures r.Err? ==> r.error == InvalidMessage
  {
    if c.verifyPuzzle(FromVec(header.myId), header.nonce) then
      var sign := c.sha256(WeakRepInput(header.timestamp, address, reqSignature));
      if sign == Sorting.Truncate(v.decrypt(header.signature), 32) then Ok(()) else Err(InvalidMessage)
    else Err(InvalidMessage)
  }

  /** `validate_strong_rep`. */
  function ValidateStrongRep(c: Crypto, v: Validator, header: Header, address: seq<byte>, data: seq<byte>, reqSignature: seq<byte>): (r: Result<()>)
    requires |header.myId| == 32
    ensures r.Ok? <==> Genuine(c, v, header, StrongRepInput(header.timestamp, address, data, reqSignature))
    ensures r.Err? ==> r.error == InvalidMessage
  {
    if c.verifyPuzzle(FromVec(header.myId), header.nonce) then
      var sign := c.sha256(StrongRepInput(header.timestamp, address, data, reqSignature));
      if sign == Sorting.Truncate(v.decrypt(header.signature), 32) then Ok(()) else Err(InvalidMessage)
    else Err(InvalidMessage)
  }

  /** `validate_strong_req`: the recomputed digest, or "invalid message". */
  function ValidateStrongReq(c: Crypto, v: Validator, header: Header, address: seq<byte>, data: seq<byte>): (r: Result<seq<byte>>)
    requires |header.myId| == 32
    ensures r.Ok? <==> Genuine(c, v, header, StrongReqInput(header.timestamp, address, data))
    ensures r.Ok? ==> r.value == c.sha256(StrongReqInput(header.timestamp, address, data))
    ensures r.Err? ==> r.error == InvalidMessage
  {
    if c.verifyPuzzle(FromVec(header.myId), header.nonce) then
      var sign := c.sha256(StrongReqInput(header.timestamp, address, data));
      if sign == Sorting.Truncate(v.decrypt(header.signature), 32) then Ok(sign) else Err(InvalidMessage)
    else Err(InvalidMessage)
  }

  // ---------------------------------------------------------------------------
  // What signing and validation promise.

  /** Without a solved puzzle every validator refuses, whatever the signature. */
  lemma PuzzleGates(c: Crypto, v: Validator, header: Header, address: seq<byte>, data: seq<byte>, reqSignature: seq<byte>)
    requires |header.myId| == 32 && !c.verifyPuzzle(FromVec(header.myId), header.nonce)
    ensures ValidateWeakReq(c, v, header, address) == Err(InvalidMessage)
    ensures ValidateWeakRep(c, v, header, address, reqSignature) == Err(InvalidMessage)
    ensures ValidateStrongReq(c, v, header, address, data) == Err(InvalidMessage)
    ensures ValidateStrongRep(c, v, header, address, data, reqSignature) == Err(InvalidMessage)
  {
  }

  /** The validator's key undoes the encryption under `pubKey`. */
  ghost predicate KeyPair(c: Crypto, v: Validator, pubKey: seq<byte>)
  {
    forall m :: v.decrypt(c.encrypt(pubKey, m)) == m
  }

  /** A header carrying the signer's output. */
  function Signed(myId: Key, nonce: u64, timestamp: i64, signature: seq<byte>): (h: Header)
    ensures |h.myId| == 32
  {
    Header(AsBytes(myId), nonce, timestamp, signature)
  }

  /** Signing then validating with the matching key and a solved puzzle
      succeeds, for each of the four signer/validator pairs, and the request
      validators return the digest the signer returned. */
  lemma SignThenValidate(c: Crypto, v: Validator, pubKey: seq<byte>, myId: Key, nonce: u64, timestamp: i64,
                         address: seq<byte>, data: seq<byte>, reqSignature: seq<byte>)
    requires KeyPair(c, v, pubKey) && c.verifyPuzzle(myId, nonce)
    ensures var s := SignWeakHeaderReq(c, timestamp, pubKey, address);
      ValidateWeakReq(c, v, Signed(myId, nonce, timestamp, s.1), address) == Ok(s.0)
    ensures var s := SignStrongHeaderReq(c, timestamp, pubKey, address, data);
      ValidateStrongReq(c, v, Signed(myId, nonce, timestamp, s.1), address, data) == Ok(s.0)
    ensures var s := SignWeakHeaderRep(c, timestamp, pubKey, address, reqSignature);
      ValidateWeakRep(c, v, Signed(myId, nonce, timestamp, s), address, reqSignature) == Ok(())
    ensures var s := SignStrongHeaderRep(c, timestamp, pubKey, address, data, reqSignature);
      ValidateStrongRep(c, v, Signed(myId, nonce, timestamp, s), address, data, reqSignature) == Ok(())
  {
    assert FromVec(AsBytes(myId)) == myId;
    var d1 := c.sha256(WeakReqInput(timestamp, address));
    assert v.decrypt(c.encrypt(pubKey, d1)) == d1;
    var d2 := c.sha256(StrongReqInput(timestamp, address, data));
    assert v.decrypt(c.encrypt(pubKey, d2)) == d2;
    var d3 := c.sha256(WeakRepInput(timestamp, address, reqSignature));
    assert v.decrypt(c.encrypt(pubKey, d3)) == d3;
    var d4 := c.sha256(StrongRepInput(timestamp, address, data, reqSignature));
    assert v.decrypt(c.encrypt(pubKey, d4)) == d4;
  }

  /** Replaying a signature under another timestamp is accepted only through
      a SHA-256 collision: the two hash inputs differ, yet their digests
      must agree. */
  lemma ReplayNeedsCollision(c: Crypto, v: Validator, header: Header, address: seq<byte>, t: i64)
    requires |header.myId| == 32 && t != header.timestamp
    requires ValidateWeakReq(c, v, header, address).Ok?
    requires ValidateWeakReq(c, v, header.(timestamp := t), address).Ok?
    ensures WeakReqInput(t, address) != WeakReqInput(header.timestamp, address)
    ensures c.sha256(WeakReqInput(t, address)) == c.sha256(WeakReqInput(header.timestamp, address))
  {
    I64BeInjective(t, header.timestamp);
    assert WeakReqInput(t, address)[..8] == I64Be(t);
    assert WeakReqInput(header.timestamp, address)[..8] == I64Be(header.timestamp);
  }

  /** The fields are concatenated without separators, so a strong request
      signed for address [1, 2] and payload [3] also validates for address
      [1] and payload [2, 3]. */
  lemma FieldBoundaryAmbiguous(c: Crypto, v: Validator, pubKey: seq<byte>, myId: Key, nonce: u64, timestamp: i64)
    requires KeyPair(c, v, pubKey) && c.verifyPuzzle(myId, nonce)
    ensures var s := SignStrongHeaderReq(c, timestamp, pubKey, [1, 2], [3]);
      ValidateStrongReq(c, v, Signed(myId, nonce, timestamp, s.1), [1], [2, 3]).Ok?
  {
    SignThenValidate(c, v, pubKey, myId, nonce, timestamp, [1, 2], [3], []);
    assert StrongReqInput(timestamp, [1, 2], [3]) == StrongReqInput(timestamp, [1], [2, 3]);
  }
}
