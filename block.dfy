/** The ledger of src/ledger/block.rs: blocks linked by their previous hash,
    the chain's acceptance rule for a new block, and the choice between two
    chains. SHA-256 is not part of this model and is given as a function
    `sha` from the bytes fed to the hasher to the 32-byte digest. */
module Ledger {
  import opened Bytes
  import opened Keys
  import opened Wrappers
  import opened CreateBlock

  /** `DIFFICULTY`: the leading zero bits a proof of work needs. */
  const Difficulty: nat := 8

  /** A transaction. `amount` is an `f32`; the model holds the four bytes of
      its `to_be_bytes`, which is all the hash sees of it. */
  datatype Data = Data(buyer: Key, seller: Key, amount: seq<byte>, auctionId: Key)

  datatype Block = Block(id: u64, nonce: u64, prevHash: Key, hash: Key, timestamp: i64, data: Data)

  /** The transaction of the genesis block: null parties, amount 0.0 (all
      four bytes zero), null auction. */
  const NullData: Data := Data(ZeroKey, ZeroKey, [0, 0, 0, 0], ZeroKey)

  /** `Data::hash`. */
  function DataHash(sha: seq<byte> -> Key, d: Data): Key
  {
    sha(d.buyer + d.seller + d.amount + d.auctionId)
  }

  /** The hash `proof_of_work` gives a block: the previous hash and the
      transaction's hash, digested; neither the nonce nor the id enters it. */
  function ProofOfWorkHash(sha: seq<byte> -> Key, previousHash: Key, data: Data): Key
  {
    sha(previousHash + DataHash(sha, data))
  }

  /** A nonce solves the puzzle for a block hash when the digest of the hash
      followed by the big-endian nonce starts with `Difficulty` zero bits. */
  predicate Mined(sha: seq<byte> -> Key, hash: Key, nonce: u64)
  {
    LeadingZerosOf(sha(hash + U64Be(nonce))) >= Difficulty
  }

  /** `test_proof_of_work`. */
  predicate TestProofOfWork(sha: seq<byte> -> Key, block: Block)
  {
    Mined(sha, block.hash, block.nonce)
  }

  /** `proof_of_work`, with the nonces `rng.gen()` would draw given as
      `draws`: the first draw that solves the puzzle and the block hash, or
      `None` when no draw does. The id is not used. */
  method ProofOfWork(sha: seq<byte> -> Key, previousHash: Key, data: Data, id: u64, draws: seq<u64>) returns (r: Option<(u64, Key)>)
    ensures r.Some? ==> r.value.1 == ProofOfWorkHash(sha, previousHash, data) && Mined(sha, r.value.1, r.value.0)
    ensures r.Some? ==>
      exists k :: 0 <= k < |draws| && draws[k] == r.value.0 && forall j :: 0 <= j < k ==> !Mined(sha, r.value.1, draws[j])
    ensures r.None? <==> forall j :: 0 <= j < |draws| ==> !Mined(sha, ProofOfWorkHash(sha, previousHash, data), draws[j])
  {
    var newBlockHash := sha(previousHash + DataHash(sha, data));
    var k := 0;
    while k < |draws|
      invariant 0 <= k <= |draws|
      invariant forall j :: 0 <= j < k ==> !Mined(sha, newBlockHash, draws[j])
    {
      var nonceEx := draws[k];
      var zeros := LeadingZeros(sha(newBlockHash + U64Be(nonceEx)));
      if zeros >= Difficulty {
        return Some((nonceEx, newBlockHash));
      }
      k := k + 1;
    }
    return None;
  }

  /** `Block::validate_block`: the block must point at the last block's hash,
      carry the next id, and (as written) must NOT pass the proof-of-work
      test. The id is compared without the `u64` overflow of `last.id + 1`. */
  predicate ValidateBlock(sha: seq<byte> -> Key, block: Block, last: Block)
    ensures block.prevHash != last.hash ==> !ValidateBlock(sha, block, last)
    ensures block.id as int != last.id as int + 1 ==> !ValidateBlock(sha, block, last)
    ensures TestProofOfWork(sha, block) ==> !ValidateBlock(sha, block, last)
    ensures block.prevHash == last.hash && block.id as int == last.id as int + 1 && !TestProofOfWork(sha, block)
            ==> ValidateBlock(sha, block, last)
  {
    if block.prevHash != last.hash then false
    else if block.id as int != last.id as int + 1 then false
    else if TestProofOfWork(sha, block) then false
    else true
  }

  /** Every block is accepted on top of the block before it. */
  predicate ChainValid(sha: seq<byte> -> Key, blocks: seq<Block>)
  {
    forall i :: 1 <= i < |blocks| ==> ValidateBlock(sha, blocks[i], blocks[i - 1])
  }

  /** `Block::new_block` at clock reading `now`. */
  method NewBlock(sha: seq<byte> -> Key, id: u64, previousHash: Key, data: Data, draws: seq<u64>, now: i64) returns (r: Option<Block>)
    ensures r.Some? ==> var b := r.value;
      b.id == id && b.prevHash == previousHash && b.hash == ProofOfWorkHash(sha, previousHash, data)
      && b.timestamp == now && b.data == data && TestProofOfWork(sha, b)
    ensures r.Some? ==> forall last :: !ValidateBlock(sha, r.value, last)
    ensures r.None? <==> forall j :: 0 <= j < |draws| ==> !Mined(sha, ProofOfWorkHash(sha, previousHash, data), draws[j])
  {
    var pow := ProofOfWork(sha, previousHash, data, id, draws);
    if pow.None? {
      return None;
    }
    r := Some(Block(id, pow.value.0, previousHash, pow.value.1, now, data));
  }

  /** `Chain`: the blocks, genesis first. */
  class Chain {
    var blocks: seq<Block>

    /** `Chain::new`. */
    constructor ()
      ensures blocks == []
    {
      blocks := [];
    }

    /** `Chain::start`: pushes the genesis block, mined on the null hash,
        with clock reading `now`; when the supplied draws do not solve the
        puzzle the search has not ended and nothing is pushed. */
    method Start(sha: seq<byte> -> Key, draws: seq<u64>, now: i64) returns (started: bool)
      modifies this
      ensures started ==> exists nonce ::
        blocks == old(blocks) + [Block(0, nonce, ZeroKey, ProofOfWorkHash(sha, ZeroKey, NullData), now, NullData)]
        && Mined(sha, ProofOfWorkHash(sha, ZeroKey, NullData), nonce)
      ensures !started ==> blocks == old(blocks)
    {
      var pow := ProofOfWork(sha, ZeroKey, NullData, 0, draws);
      if pow.None? {
        return false;
      }
      var genesis := Block(0, pow.value.0, ZeroKey, pow.value.1, now, NullData);
      blocks := blocks + [genesis];
      return true;
    }

    /** `Chain::add_block`: appends the block when it is accepted on top of
        the last one (`last().unwrap()` needs a block), else nothing. */
    method AddBlock(sha: seq<byte> -> Key, block: Block)
      requires blocks != []
      modifies this
      ensures blocks == if ValidateBlock(sha, block, old(blocks)[|old(blocks)| - 1]) then old(blocks) + [block] else old(blocks)
      ensures old(ChainValid(sha, blocks)) ==> ChainValid(sha, blocks)
    {
      var lastBlock := blocks[|blocks| - 1];
      if ValidateBlock(sha, block, lastBlock) {
        if ChainValid(sha, blocks) {
          AppendKeepsValid(sha, blocks, block);
        }
        blocks := blocks + [block];
      }
    }

    /** `Chain::validate_chain`: every adjacent pair, front to back. */
    method ValidateChain(sha: seq<byte> -> Key, chain: seq<Block>) returns (valid: bool)
      ensures valid == ChainValid(sha, chain)
    {
      var i := 1;
      while i < |chain|
        invariant 1 <= i
        invariant forall j :: 1 <= j < i && j < |chain| ==> ValidateBlock(sha, chain[j], chain[j - 1])
      {
        var first := chain[i - 1];
        var second := chain[i];
        if !ValidateBlock(sha, second, first) {
          return false;
        }
        i := i + 1;
      }
      return true;
    }

    /** `Chain::choose_chain`: the longer of two valid chains (the local one
        on a tie), the valid one of the two, or the local one when neither is. */
    method ChooseChain(sha: seq<byte> -> Key, local: seq<Block>, remote: seq<Block>) returns (r: seq<Block>)
      ensures ChainValid(sha, local) && ChainValid(sha, remote) ==> r == if |local| >= |remote| then local else remote
      ensures ChainValid(sha, local) && !ChainValid(sha, remote) ==> r == local
      ensures !ChainValid(sha, local) && ChainValid(sha, remote) ==> r == remote
      ensures !ChainValid(sha, local) && !ChainValid(sha, remote) ==> r == local
      ensures ChainValid(sha, local) || ChainValid(sha, remote) ==> ChainValid(sha, r)
    {
      var isLocalValid := ValidateChain(sha, local);
      var isRemoteValid := ValidateChain(sha, remote);
      if isLocalValid && isRemoteValid {
        r := if |local| >= |remote| then local else remote;
      } else if isLocalValid {
        r := local;
      } else if isRemoteValid {
        r := remote;
      } else {
        r := local;
      }
    }
  }

  // ---------------------------------------------------------------------------
  // What the acceptance rule implies.

  /** Appending an accepted block keeps a chain valid. */
  lemma AppendKeepsValid(sha: seq<byte> -> Key, blocks: seq<Block>, block: Block)
    requires ChainValid(sha, blocks) && blocks != []
    requires ValidateBlock(sha, block, blocks[|blocks| - 1])
    ensures ChainValid(sha, blocks + [block])
  {
    var c := blocks + [block];
    forall i | 1 <= i < |c| ensures ValidateBlock(sha, c[i], c[i - 1]) {
      if i < |blocks| {
        assert c[i] == blocks[i] && c[i - 1] == blocks[i - 1];
      }
    }
  }

  /** Every prefix of a valid chain is valid. */
  lemma PrefixValid(sha: seq<byte> -> Key, blocks: seq<Block>, k: nat)
    requires ChainValid(sha, blocks) && k <= |blocks|
    ensures ChainValid(sha, blocks[..k])
  {
    forall i | 1 <= i < k ensures ValidateBlock(sha, blocks[..k][i], blocks[..k][i - 1]) {
      assert blocks[..k][i] == blocks[i] && blocks[..k][i - 1] == blocks[i - 1];
    }
  }

  /** In a valid chain the ids count up by one from the first block. */
  lemma {:induction false} ValidChainIds(sha: seq<byte> -> Key, blocks: seq<Block>, i: nat)
    requires ChainValid(sha, blocks) && i < |blocks|
    ensures blocks[i].id as int == blocks[0].id as int + i
  {
    if i > 0 {
      ValidChainIds(sha, blocks, i - 1);
      assert ValidateBlock(sha, blocks[i], blocks[i - 1]);
    }
  }

  /** The proof-of-work test is inverted: a chain of two or more blocks in
      which the second block carries a solved puzzle, as every block that
      `proof_of_work` produced does, is never valid. */
  lemma MinedChainInvalid(sha: seq<byte> -> Key, blocks: seq<Block>)
    requires |blocks| >= 2 && TestProofOfWork(sha, blocks[1])
    ensures !ChainValid(sha, blocks)
  {
    assert !ValidateBlock(sha, blocks[1], blocks[0]);
  }
}
