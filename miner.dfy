/** The miner of src/ledger/miner.rs: queues of pending transactions and of
    received blocks, and the chain they feed. The chain operations it calls
    (`mine`, an `add_block` that reports acceptance, `replace`) are not part
    of this model and are given as functions; the chain is held as its
    sequence of blocks. The locks around each field are left out. */
module Mining {
  import opened Wrappers
  import opened Sorting
  import opened Ledger

  /** The chain operations the miner relies on. */
  datatype ChainOps = ChainOps(
    mine: (seq<Block>, Data) -> (seq<Block>, Block),
    addBlock: (seq<Block>, Block) -> (seq<Block>, bool),
    replace: (seq<Block>, seq<Block>) -> seq<Block>)

  const NoBlock: string := "No block"
  const InvalidBlock: string := "Invalid block"

  /** The order of `sort_by(|a, b| b.len().cmp(&a.len()))`: longest first. */
  function LongestFirst(): seq<Block> -> int
  {
    (c: seq<Block>) => -|c|
  }

  /** The chain `choose_chain` installs: the last one after sorting by
      descending length. */
  function LastAfterSort(chains: seq<seq<Block>>): seq<Block>
    requires chains != []
  {
    var sorted := SortBy(chains, LongestFirst());
    sorted[|sorted| - 1]
  }

  /** That chain is one of the candidates and a shortest one. */
  lemma LastAfterSortIsShortest(chains: seq<seq<Block>>)
    requires chains != []
    ensures LastAfterSort(chains) in chains
    ensures forall c :: c in chains ==> |LastAfterSort(chains)| <= |c|
  {
    var sorted := SortBy(chains, LongestFirst());
    assert sorted[|sorted| - 1] in multiset(sorted);
    LastIsLargest(sorted, LongestFirst());
    forall c | c in chains ensures |sorted[|sorted| - 1]| <= |c| {
      assert c in multiset(chains);
      assert c in sorted;
    }
  }

  class Miner {
    var transactions: seq<Data>
    var blocksToValidate: seq<Block>
    var blockchain: seq<Block>

    /** `Miner::new`: empty queues and `Chain::new()`. */
    constructor ()
      ensures transactions == [] && blocksToValidate == [] && blockchain == []
    {
      transactions := [];
      blocksToValidate := [];
      blockchain := [];
    }

    /** `store_transaction`. */
    method StoreTransaction(t: Data)
      modifies this
      ensures transactions == old(transactions) + [t]
      ensures blocksToValidate == old(blocksToValidate) && blockchain == old(blockchain)
    {
      transactions := transactions + [t];
    }

    /** `store_block`. */
    method StoreBlock(block: Block)
      modifies this
      ensures blocksToValidate == old(blocksToValidate) + [block]
      ensures transactions == old(transactions) && blockchain == old(blockchain)
    {
      blocksToValidate := blocksToValidate + [block];
    }

    /** `mine`: mines the most recently stored transaction (with none, the
        `todo!()` panics). */
    method Mine(ops: ChainOps) returns (b: Block)
      requires transactions != []
      modifies this
      ensures old(transactions) == transactions + [old(transactions)[|old(transactions)| - 1]]
      ensures (blockchain, b) == ops.mine(old(blockchain), old(transactions)[|old(transactions)| - 1])
      ensures blocksToValidate == old(blocksToValidate)
    {
      var t := transactions[|transactions| - 1];
      transactions := transactions[..|transactions| - 1];
      var mined := ops.mine(blockchain, t);
      blockchain := mined.0;
      b := mined.1;
    }

    /** `validate_blocks`: pops the most recently stored block and offers it
        to the chain. */
    method ValidateBlocks(ops: ChainOps) returns (r: Result<()>)
      modifies this
      ensures old(blocksToValidate) == [] ==>
        r == Err(NoBlock) && blocksToValidate == [] && blockchain == old(blockchain)
      ensures old(blocksToValidate) != [] ==>
        var b := old(blocksToValidate)[|old(blocksToValidate)| - 1];
        var added := ops.addBlock(old(blockchain), b);
        && old(blocksToValidate) == blocksToValidate + [b]
        && blockchain == added.0
        && r == if added.1 then Ok(()) else Err(InvalidBlock)
      ensures transactions == old(transactions)
    {
      if blocksToValidate == [] {
        return Err(NoBlock);
      }
      var b := blocksToValidate[|blocksToValidate| - 1];
      blocksToValidate := blocksToValidate[..|blocksToValidate| - 1];
      var added := ops.addBlock(blockchain, b);
      blockchain := added.0;
      if added.1 {
        r := Ok(());
      } else {
        r := Err(InvalidBlock);
      }
    }

    /** `choose_chain`: replaces the chain by the last candidate after a sort
        by descending length, which is a shortest one (`pop().unwrap()`
        needs a candidate). */
    method ChooseChain(ops: ChainOps, chains: seq<seq<Block>>)
      requires chains != []
      modifies this
      ensures blockchain == ops.replace(old(blockchain), LastAfterSort(chains))
      ensures transactions == old(transactions) && blocksToValidate == old(blocksToValidate)
    {
      var sorted := SortBy(chains, LongestFirst());
      var picked := sorted[|sorted| - 1];
      blockchain := ops.replace(blockchain, picked);
    }
  }
}
