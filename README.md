# blockchain-ssd in Dafny: Kademlia routing and ledger validation

This project models the sequential core of a peer-to-peer auction node
written in Rust. The core has two parts:

- **the Kademlia routing layer**: contacts and k-buckets, the binary routing
  trie over 256-bit identifiers, the routing table's widening lookup, XOR
  distance and bit masks, the k-closest merge of the node lookup, header
  signing and validation, and the formatting helpers;
- **the ledger**: blocks linked by hash, proof-of-work, the chain's
  acceptance rule and chain choice, and the miner's queues.

There is one module per source file:

| module | file | source |
|---|---|---|
| `Bytes`, `Sorting`, `Wrappers` | bytes.dfy, sorting.dfy, wrappers.dfy | helpers: `u8`/`u16`/`u64`/`i32`/`i64`, MSB-first bits and big-endian encodings; the stable `sort_by` and `truncate` of `Vec`; `Option`/`Result` |
| `Keys` | key.dfy | src/p2p/key.rs |
| `Buckets` | bucket.dfy | `Contact` and `Bucket` of src/p2p/node.rs |
| `Trie` | node.dfy | `Node` of src/p2p/node.rs |
| `Routing` | rtable.dfy | src/p2p/rtable.rs |
| `Client` | client.dfy | src/p2p/client.rs |
| `Signatures` | signatures.dfy | src/p2p/signatures.rs |
| `Util` | util.dfy | src/p2p/util.rs |
| `CreateBlock` | create_block.dfy | `leading_zeros` of src/cons/create_block.rs |
| `Ledger` | block.dfy | src/ledger/block.rs |
| `Mining` | miner.dfy | src/ledger/miner.rs |

Where the Rust code mutates state, the model does the same with the same
steps:

- `Bucket`, `Rtable`, `FNodeManager`, `Chain` and `Miner` are classes whose
  methods update their fields.
- The counting loops of `Bucket`, the widening loop of `Rtable::lookup`, the
  loops of `insert_closest`, `leading_zeros`, `validate_chain` and the nonce
  search are `while` loops.
- Each such method is proved equal to a pure function, and the properties
  are proved about that function.

The routing trie is a datatype: `Node::insert` recursively rewrites the node
it is called on, and the model returns the rewritten node.

Panics are modelled in one of three ways:

- an index outside a byte or `unwrap` of an empty value becomes a
  precondition;
- the length panic of `Key::from_vec` on anything but 32 bytes becomes the
  precondition `|source| == 32` of `Keys.FromVec`, carried by its callers
  (`Client.ContactList` and the round trip of `Client.ContactListRoundTrip`,
  and the `Signatures` validators, which read the sender id through it);
- the `todo!()` of `Miner::mine` on an empty transaction queue
  (src/ledger/miner.rs:49) becomes the precondition `transactions != []` of
  `Mining.Miner.Mine`;
- the "Invalid bit" panic of `Node::insert` (a full leaf reached at bit
  index 8) becomes a `None` result;
- the `Vec::remove` panic of `insert_closest` becomes a `Panicked` outcome.

External inputs are parameters:

- The clock (`Utc::now()`) is an integer `now`. A contact's `last_seen` is
  `Never` or `Seen(now)`.
- The ping of a full bucket's head is a boolean `pingOk`.
- SHA-256, RSA encryption and decryption, and `verify_puzzle` are
  function-valued parameters.
- The random nonces of `proof_of_work` are a supplied sequence `draws`.

Some properties describe the code as written rather than as its comments
suggest:

- The proof-of-work test in `validate_block` is inverted. A mined chain of
  two blocks or more is never valid (`Ledger.MinedChainInvalid`).
- The progress flag of `insert_closest` compares a bitwise NOT of the input
  length with the remaining length. It is false whenever the second phase
  runs on a realistic input (`Client.SecondPhaseSortsAndFails`).
- `Bucket::insert` of a contact already present marks it seen in place and
  does not move it. This holds when the contact occurs once in the bucket
  and was not already stamped seen at the same clock reading. `see()`
  changes the stored record before `move_to_tail` searches for the
  argument, so the search finds nothing (`Buckets.RefreshStaysInPlace`).
- A split can give the in-range leaf `K + 1` contacts (`Trie.SplitOverfills`).
  Such a leaf is never "full" again, so it grows without bound
  (`Trie.OverfullLeafGrows`).
- `Rtable::lookup` queries the bucket of `id` twice and returns its contacts
  twice (`Routing.LookupRepeatsFirstBucket`).
- Header fields are hashed without separators, so a field boundary can be
  moved without breaking the signature (`Signatures.FieldBoundaryAmbiguous`).

## Model

| member | source | states |
|---|---|---|
| Keys.DistanceSymmetric | src/p2p/key.rs:28-30 | the XOR distance is symmetric |
| Keys.DistanceZeroIff | src/p2p/key.rs:28-30 | the distance is the zero key exactly when the two keys are equal |
| Keys.DistanceInjective | src/p2p/key.rs:28-30 | from one key, distinct keys lie at distinct distances |
| Keys.AsBytes | src/p2p/key.rs:33-35 | a key is exposed as exactly 32 bytes |
| Keys.FromVec | src/p2p/key.rs:38-40 | `from_vec` needs 32 bytes, and `as_bytes` gives those bytes back |
| Keys.Pow2ByteIsBitMask | src/p2p/key.rs:45 | `2^(7-index)` is the mask of bit `index`, most significant bit first |
| Keys.SetBitmaskFlipsOneBit | src/p2p/key.rs:43-49 | `set_bitmask` flips bit `index` of byte `chunk` and keeps every other bit of every byte; the comment at line 42 claims more |
| Keys.SetBitmaskInvolution | src/p2p/key.rs:43-49 | applying `set_bitmask` twice gives the key back |
| Keys.Prefix | src/p2p/key.rs:52-65 | index 0 gives `[1]` or `[0]` by the top bit of byte `chunk`; a positive index gives `chunk + 1` bytes whose first `chunk` bytes are the key's |
| Keys.PrefixLastByte | src/p2p/key.rs:62-63 | for a positive index, the last byte has its top `8 - index` bits set and keeps the others |
| Keys.PrefixTopBitFlip | src/p2p/key.rs:43-61 | flipping the top bit changes the index-0 prefix of byte 0, and flipping it again restores it |
| CreateBlock.ByteLeadingZeros | src/cons/create_block.rs:38 | a byte has at most 8 leading zeros, exactly 8 iff it is zero; otherwise bit `n` is the first set bit, all earlier bits clear |
| CreateBlock.LeadingZeros | src/cons/create_block.rs:35-45 | the accumulating loop with its early break computes `LeadingZerosOf` |
| CreateBlock.LeadingZerosBound | src/cons/create_block.rs:36-44 | the count is at most `8 * len`, hence 0 for an empty slice |
| CreateBlock.LeadingZerosAllZero | src/cons/create_block.rs:39-42 | an all-zero slice counts `8 * len` |
| CreateBlock.LeadingZerosFirstNonZero | src/cons/create_block.rs:38-42 | the scan stops at the first non-zero byte `k`, giving `8 * k` plus that byte's count, which is below 8 |
| CreateBlock.LeadingZerosPrependZero | src/cons/create_block.rs:38-42 | a zero byte in front adds exactly 8 |
| Buckets.NewContact | src/p2p/node.rs:26-33 | a new contact keeps its fields and was never seen |
| Buckets.IndexOf | src/p2p/node.rs:61-67 | the search loop stops at the first contact equal to the argument, or at the length when none is |
| Buckets.InsertFullSpec | src/p2p/node.rs:139-149 | the length is kept; a live head keeps the bucket; a dead head is dropped and the new contact, marked seen, goes last |
| Buckets.SortedByDistance | src/p2p/node.rs:128-137 | `get_sorted` is ascending in XOR distance to `id` and a permutation of the bucket |
| Buckets.SwapPermutes | src/p2p/node.rs:96 | `VecDeque::swap` permutes the bucket, exchanges the two entries and leaves every other position alone |
| Buckets.MovedToTailSpec | src/p2p/node.rs:92-101 | `move_to_tail` permutes the bucket; when an equal contact is present, the first one and the last entry exchange places and every other position is kept; otherwise nothing changes |
| Buckets.InsertedLength | src/p2p/node.rs:60-79 | insert keeps the length for a present contact and adds one for a new one |
| Buckets.InsertedUids | src/p2p/node.rs:60-79 | after insert, the identifiers are the old ones plus the new contact's |
| Buckets.InsertedSpec | src/p2p/node.rs:60-79 | a new contact is appended, marked seen; a present one keeps the length and the set of identifiers |
| Buckets.RefreshStaysInPlace | src/p2p/node.rs:69-72 | a present contact is marked seen where it is and not moved, because the search after `see()` finds nothing |
| Buckets.RemovedSpec | src/p2p/node.rs:81-90 | remove deletes exactly the first equal contact and keeps the rest in order; an absent contact changes nothing |
| Buckets.SplitUids | src/p2p/node.rs:103-118 | the first bucket holds exactly the identifiers of the out-of-range contacts, the second those of the in-range ones |
| Buckets.SplitLength | src/p2p/node.rs:103-118 | the two halves together are no longer than the bucket |
| Buckets.SplitSides | src/p2p/node.rs:108-112 | every contact of the first bucket has a 1 at the bit of `uid XOR id`, every one of the second a 0 |
| Buckets.SplitUnseen | src/p2p/node.rs:103-118 | when nothing was seen at `now`, the first half is exactly the out-of-range contacts and the second the in-range ones, each in bucket order and marked seen |
| Buckets.AppendUnseen | src/p2p/node.rs:74-77 | a contact not yet seen at `now` is never found among marked ones and is appended |
| Buckets.Bucket.constructor | src/p2p/node.rs:56-58 | a new bucket is empty |
| Buckets.Bucket.Insert | src/p2p/node.rs:60-79 | the search loop, then see-and-move or append, leaves the contacts `Inserted(old, node, now)` |
| Buckets.Bucket.Remove | src/p2p/node.rs:81-90 | the counting loop leaves the contacts `Removed(old, node)` |
| Buckets.Bucket.MoveToTail | src/p2p/node.rs:92-101 | the counting loop leaves the contacts `MovedToTail(old, node)` |
| Buckets.Bucket.Split | src/p2p/node.rs:103-118 | the bucket is drained to empty into two fresh buckets holding `SplitSpec` of the old contacts, out of range first |
| Buckets.Bucket.GetSorted | src/p2p/node.rs:128-137 | a copy ascending in XOR distance and a permutation; the bucket is only read |
| Buckets.Bucket.InsertFull | src/p2p/node.rs:139-149 | pop-front and push-back on a dead ping, nothing on a live one: `InsertFullSpec` |
| Trie.NewNode | src/p2p/node.rs:160-166 | a new node is a leaf with an empty bucket |
| Trie.Attach | src/p2p/node.rs:169-176 | `set_left`/`set_right` replace the child on that side only and keep the bucket |
| Trie.LookupLeaf | src/p2p/node.rs:283-315 | a leaf answers every lookup with its own bucket |
| Trie.FullLeafSplits | src/p2p/node.rs:216-235 | a full leaf and an in-range contact give an internal node without a bucket and with two leaves; every contact sits on the side of its own raw bit; the leaf on the local bit's side holds the in-range identifiers and the new one |
| Trie.SplitBits | src/p2p/node.rs:216-222 | out-of-range contacts carry the bit opposite to the local one; the in-range leaf, new contact included, carries the local bit |
| Trie.FullLeafOutOfRange | src/p2p/node.rs:211-215 | a full leaf and an out-of-range contact defer to `insert_full`; the length is kept, and a live head keeps the leaf |
| Trie.InsertPanicsIff | src/p2p/node.rs:203-279 | insert panics ("Invalid bit") exactly when the path of the contact's identifier first meets a bucket at a full leaf reached at bit index 8 |
| Trie.SplitOverfills | src/p2p/node.rs:216-235 | when all `K` contacts and the new one are in range, the in-range leaf receives `K + 1` contacts |
| Trie.OverfullLeafGrows | src/p2p/node.rs:204-242 | a leaf with more than `K` contacts is not full, so a new contact is appended to it |
| Trie.InsertThenLookup | src/p2p/node.rs:203-315 | if the insertion into a trie with buckets only at leaves does not panic, the lookup of the contact's own identifier reaches a bucket holding it (the ping answered false) |
| Trie.InsertInnerThenLookup | src/p2p/node.rs:248-279 | the internal-node case of the placement property |
| Trie.DescendThenLookup | src/p2p/node.rs:253-268 | placement below the node on the contact's side carries up one level |
| Trie.NewChildThenLookup | src/p2p/node.rs:258-274 | a new leaf on the contact's side does not panic and is found by the lookup |
| Trie.InsertLeafThenLookup | src/p2p/node.rs:204-242 | the leaf case of the placement property: refresh, append, replacement of a dead head and split |
| Trie.SplitThenLookup | src/p2p/node.rs:216-235 | after a split, the lookup one bit down reaches the in-range leaf, which holds the contact |
| Routing.SortedBucket | src/p2p/rtable.rs:32-34 | the contacts of the bucket found for the target are ascending in distance to the original `id` |
| Routing.LookupSpec | src/p2p/rtable.rs:25-55 | the lookup never returns more than 20 contacts |
| Routing.Rtable.constructor | src/p2p/rtable.rs:13-17 | a new table is a single leaf with an empty bucket |
| Routing.Rtable.Insert | src/p2p/rtable.rs:20-22 | insertion starts at the root, at bit 0 of byte 0 |
| Routing.Rtable.Lookup | src/p2p/rtable.rs:25-55 | the widening loop returns `LookupSpec`: the buckets for `id`, for `id` with its top bit flipped, and for `id` again, cut at 20; it returns at once when the 20th contact is pushed and leaves the table unchanged |
| Routing.NextRound | src/p2p/rtable.rs:43-51 | with index and chunk reset to 0, the targets alternate `id`, flipped `id`, `id`, and the prefix recurs exactly in the third round |
| Routing.FullRound | src/p2p/rtable.rs:36-39 | filling up to 20 in any round gives the first 20 of all three rounds |
| Routing.LastRound | src/p2p/rtable.rs:45-54 | stopping after the third round returns all three rounds |
| Routing.PushUntilFull | src/p2p/rtable.rs:34-41 | the push loop appends in order and reports `full` exactly when 20 entries are reached, cutting there |
| Routing.LookupFromTwoBuckets | src/p2p/rtable.rs:32-44 | every returned contact comes from the bucket of `id` or of `id` with its top bit flipped |
| Routing.LookupRepeatsFirstBucket | src/p2p/rtable.rs:25-55 | without deduplication, the first bucket's closest contact is returned twice when the rounds stay below 20 entries |
| Routing.LookupLength | src/p2p/rtable.rs:31-39 | the length is that of the three rounds together, capped at 20 |
| Routing.LookupEmptyTable | src/p2p/rtable.rs:13-17 | every lookup in a new table is empty |
| Routing.InsertThenFind | src/p2p/rtable.rs:20-22 | a contact inserted from the root is found through its own identifier when the insertion does not panic |
| Client.Reversed | src/p2p/client.rs:213 | repeated `pop` hands out the contacts last first: position `i` holds the element `len - 1 - i` |
| Client.InsertClosest | src/p2p/client.rs:206-244 | the fill loop, the nested second-phase loops and the final sort, truncate and flag give `MergeReply` |
| Client.FillSpec | src/p2p/client.rs:212-216 | the fill loop moves the last `min(K - len, remaining)` contacts of the reply, in pop order, onto both lists |
| Client.EarlyReturn | src/p2p/client.rs:218-220 | when the reply fits, all of it is pushed in pop order and the result is `true`, neither sorted nor truncated |
| Client.ScanAppends | src/p2p/client.rs:224-233 | one inner loop only appends copies of the contact, one per reply entry removed, and only when it is strictly closer than some member |
| Client.RoundsAppendCloser | src/p2p/client.rs:222-236 | the second phase appends only contacts of the reply, each strictly closer than some member of the list |
| Client.SecondPhaseSortsAndFails | src/p2p/client.rs:238-242 | when the reply does not fit, a merge that does not panic leaves both lists sorted and at most K long, with the flag false |
| Client.MergeProvenance | src/p2p/client.rs:206-244 | every contact of the merged k-closest list was in the list or in the reply |
| Client.BitNot | src/p2p/client.rs:242 | `!` on a 64-bit length is its complement: the two sum to `2^64 - 1` |
| Client.FNodeManager.constructor | src/p2p/client.rs:30-36 | the manager holds the three given collections |
| Client.FNodeManager.PopNtv | src/p2p/client.rs:38-40 | pops and returns the last node to visit, or `None` when there is none; nothing else changes |
| Client.FNodeManager.InsertVn | src/p2p/client.rs:42-48 | returns true iff the identifier was not visited; afterwards `contains_vn` holds |
| Client.PortOf | src/p2p/client.rs:192 | `as u16` keeps a port that is in the `u16` range |
| Client.ToKcontact | src/p2p/client.rs:179-185 | the wire form carries the 32 identifier bytes |
| Client.ContactList | src/p2p/client.rs:187-197 | `contact_list` maps element-wise, keeping length and order |
| Client.ContactListRoundTrip | src/p2p/client.rs:179-197 | converting to the wire form and back gives the contacts back |
| Client.PortWraps | src/p2p/client.rs:192 | the wire port -1 becomes 65535 |
| Util.Decimal | src/p2p/util.rs:9 | `to_string` of a number is non-empty decimal digits without a leading zero |
| Util.DecimalRoundTrip | src/p2p/util.rs:9 | the digits read back give the number |
| Util.DecimalPortWidth | src/p2p/util.rs:8-10 | a `u16` port has one to five digits |
| Util.FormatAddressParses | src/p2p/util.rs:8-10 | the address starts with `http://`, is `8 + len(ip) + digits(port)` long, and splits at its last ':' back into ip and port |
| Util.FormatKcontact | src/p2p/util.rs:12-18 | the wire form carries 32 identifier bytes |
| Util.FormatKcontactSpec | src/p2p/util.rs:12-18 | the identifier, address and public key are copied, and `last_seen` is dropped |
| Signatures.ValidateWeakReq | src/p2p/signatures.rs:46-66 | succeeds iff the puzzle holds and the first 32 decrypted bytes equal `H(ts_be ‖ address)`, which it returns; otherwise "invalid message" |
| Signatures.ValidateWeakRep | src/p2p/signatures.rs:68-87 | succeeds iff the puzzle holds and the signature matches `H(ts_be ‖ address ‖ req_sig)`; otherwise "invalid message" |
| Signatures.ValidateStrongRep | src/p2p/signatures.rs:89-109 | succeeds iff the puzzle holds and the signature matches `H(ts_be ‖ address ‖ data ‖ req_sig)`; otherwise "invalid message" |
| Signatures.ValidateStrongReq | src/p2p/signatures.rs:111-131 | succeeds iff the puzzle holds and the signature matches `H(ts_be ‖ address ‖ data)`, which it returns; otherwise "invalid message" |
| Signatures.PuzzleGates | src/p2p/signatures.rs:53 | every validator refuses an unsolved puzzle, whatever the signature |
| Signatures.Signed | src/p2p/signatures.rs:47 | a header built from a key carries a 32-byte sender id |
| Signatures.SignThenValidate | src/p2p/signatures.rs:10-44 | with a matching key pair and a solved puzzle, each of the four signers' output validates, and the request validators return the signer's digest |
| Signatures.ReplayNeedsCollision | src/p2p/signatures.rs:46-66 | a signature accepted under two timestamps needs two distinct hash inputs with the same SHA-256 digest |
| Signatures.FieldBoundaryAmbiguous | src/p2p/signatures.rs:10-17 | a strong request signed for address [1, 2] and payload [3] validates for address [1] and payload [2, 3] |
| Bytes.I64BeInjective | src/p2p/signatures.rs:12 | distinct timestamps have distinct big-endian encodings |
| Bytes.ToNatBeBytes | src/ledger/block.rs:164 | the big-endian bytes of a number read back as the number |
| Ledger.ProofOfWork | src/ledger/block.rs:151-174 | returns the first supplied nonce that solves the puzzle, with hash `H(prev_hash ‖ H(data))`, independent of nonce and id; `None` iff no draw solves it |
| Ledger.ValidateBlock | src/ledger/block.rs:101-117 | false on a wrong previous hash, false on a wrong id, false when the proof-of-work test passes, and true otherwise |
| Ledger.NewBlock | src/ledger/block.rs:20-31 | a new block carries the given id, previous hash and data, the proof-of-work hash and the clock reading; it passes the proof-of-work test and so is never accepted |
| Ledger.Chain.constructor | src/ledger/block.rs:70-72 | a new chain is empty |
| Ledger.Chain.Start | src/ledger/block.rs:74-90 | pushes the genesis block: id 0, null previous hash, null data, mined hash |
| Ledger.Chain.AddBlock | src/ledger/block.rs:92-99 | appends iff the block is accepted on top of the last one, otherwise the chain is unchanged; a valid chain stays valid |
| Ledger.Chain.ValidateChain | src/ledger/block.rs:119-128 | the loop over adjacent pairs returns `ChainValid`; chains of 0 or 1 blocks are valid |
| Ledger.Chain.ChooseChain | src/ledger/block.rs:130-147 | two valid chains give the longer, local on a tie; one valid chain is chosen; neither gives local |
| Ledger.AppendKeepsValid | src/ledger/block.rs:92-99 | appending an accepted block keeps a chain valid |
| Ledger.PrefixValid | src/ledger/block.rs:119-128 | every prefix of a valid chain is valid |
| Ledger.ValidChainIds | src/ledger/block.rs:107-110 | in a valid chain the ids count up by one |
| Ledger.MinedChainInvalid | src/ledger/block.rs:112-116 | a chain whose second block carries a solved puzzle is invalid |
| Mining.LastAfterSortIsShortest | src/ledger/miner.rs:72-76 | the chain installed is a candidate and a shortest one |
| Mining.Miner.constructor | src/ledger/miner.rs:12-18 | empty queues and an empty chain |
| Mining.Miner.StoreTransaction | src/ledger/miner.rs:28-31 | appends to the pending transactions and changes nothing else |
| Mining.Miner.StoreBlock | src/ledger/miner.rs:33-36 | appends to the blocks to validate and changes nothing else |
| Mining.Miner.Mine | src/ledger/miner.rs:38-51 | pops the most recent transaction and mines it |
| Mining.Miner.ValidateBlocks | src/ledger/miner.rs:53-70 | "No block" with nothing changed when the queue is empty; otherwise pops the most recent block, and "Invalid block" iff the chain rejects it |
| Mining.Miner.ChooseChain | src/ledger/miner.rs:72-76 | installs the last candidate after a sort by descending length |
| Sorting.SortBy | src/p2p/client.rs:238-239 | `sort_by` gives an ascending permutation |
| Sorting.Truncate | src/p2p/client.rs:240-241 | `truncate(n)` keeps the first `min(n, len)` elements |

Some functions have no contract of their own; the lemmas above state their
properties:

- `Bucket::is_full` and `Bucket::len` are `Buckets.Bucket.IsFull` and
  `Buckets.Bucket.Len`.
- `Contact::see` (src/p2p/node.rs:47-49) is `Buckets.See`. Its effect is
  stated wherever a contact is marked: `Buckets.InsertedSpec`,
  `Buckets.SplitUnseen`, `Buckets.RefreshStaysInPlace`.
- `Node::insert` (src/p2p/node.rs:203-280) is `Trie.Insert`. Its panics are
  `Trie.InsertPanicsIff`; placement is `Trie.InsertThenLookup`; the leaf
  cases are `Trie.FullLeafSplits`, `Trie.FullLeafOutOfRange`,
  `Trie.SplitOverfills` and `Trie.OverfullLeafGrows`.
- `Node::lookup` (src/p2p/node.rs:283-315) is `Trie.Lookup`, used by
  `Trie.LookupLeaf`, `Trie.InsertThenLookup` and `Routing.Rtable.Lookup`.
- `Data::hash`, the proof-of-work hash and `test_proof_of_work`
  (src/ledger/block.rs) are `Ledger.DataHash`, `Ledger.ProofOfWorkHash` and
  `Ledger.TestProofOfWork`. They are stated through `Ledger.ProofOfWork`,
  `Ledger.NewBlock`, `Ledger.ValidateBlock` and `Ledger.MinedChainInvalid`.
- The four signers of src/p2p/signatures.rs are
  `Signatures.SignStrongHeaderReq`, `Signatures.SignStrongHeaderRep`,
  `Signatures.SignWeakHeaderReq` and `Signatures.SignWeakHeaderRep`. They are
  stated through `Signatures.SignThenValidate` and
  `Signatures.FieldBoundaryAmbiguous`.
- `format_address` is `Util.FormatAddress`.

## Left out

- Network and concurrency: the tonic RPCs `a_lookup`, `send_fnode`,
  `send_ping`, `send_fvalue` and `send_store` of src/p2p/client.rs, and
  `send_ping` and `gen_cookie` of src/p2p/util.rs. A ping's answer is the
  `pingOk` input of `insert_full`.
- The `Mutex`/`RwLock` wrappers of `FNodeManager` and `Miner` are left out.
  Each operation is modelled as one atomic step.
- SHA-256, RSA `encrypt_message`/`decrypt`, `verify_puzzle` and
  `NodeValidator` are supplied as functions. The sign/validate round trip
  assumes that decryption undoes encryption (`Signatures.KeyPair`).
- `Key::new` and `get_keypair` (key generation and file I/O) are left out.
- Addresses enter the hashes as their UTF-8 bytes. The model takes those
  bytes as given.
- `Data::hash` hashes an `f32`. The model holds its four big-endian bytes.
- Clocks are integer inputs: `Contact::see`, `Block::new_block` and
  `Chain::start`.
- Every `see()` within one operation reads the same clock value `now`. The
  source calls `Utc::now()` afresh for each contact. This is why
  `Buckets.SplitUnseen` and `Trie.SplitOverfills` require that no contact
  was already seen at `now`.
- The `dist(..).unwrap()` and "Invalid key format" panics of
  `insert_closest` cannot occur: `H256` is totally ordered.
- Ledger.ValidateBlock: the id comparison is on unbounded integers. For `last.id == u64::MAX`, `last.id + 1` overflows;
  Rust panics in debug builds and wraps in release builds, and neither is
  modelled.
- Ledger.ProofOfWork: the random, unbounded nonce search becomes a search
  over supplied draws. `None`, when no draw solves the puzzle, stands for a
  search that has not ended yet.
- Ledger.Chain.Start: when the supplied draws solve nothing, the method
  reports `false` and pushes nothing.
- `Trie.Insert` models `Node::insert` on values: it returns the rewritten
  node. `Box` ownership rules out aliasing, so nothing is lost, but the
  in-place update is not shown.
- Trie.InsertThenLookup: it assumes a false ping and a trie shallower than
  the 256 bit positions, so the split case keeps a bit to descend on. It
  does not state that the trie keeps buckets only at leaves after
  insertion. An internal node reached at the last bit gets a bucket while
  keeping its children (src/p2p/node.rs:243-247).
- Client.MergeReply (through Client.InsertClosest): the inputs under which
  the `Vec::remove` panic happens are not characterised. The lemmas assume
  no panic.
- Client.RoundsAppendCloser: it does not state how many copies of a
  contact the second phase appends.
- Mining.LastAfterSortIsShortest: it does not state which of several
  shortest chains the stable sort puts last.
- `Miner::get_chain`, `Miner::print_blockchain`, `Chain::get_chain`,
  `Chain::mine` and `Chain::replace`: the three chain operations the miner
  calls are not defined in src/ledger/block.rs; they are the `ChainOps`
  parameter. Printing is left out.
- src/p2p/client.rs builds contacts with `ip` and `port` fields that the
  `Contact` of src/p2p/node.rs does not have. The client's contacts are
  therefore their own record, `Client.Peer`, and its wire form is
  `Client.Kcontact`.
- `Rtable::insert` calls `Node::insert` with a different signature from the
  one in src/p2p/node.rs. The model passes the local identifier, the ping
  answer and the clock, as that signature needs.
- `Client.FNodeManager.ContainsVn` is stated through Client.FNodeManager.InsertVn.
  Its own contract would only restate its body.
- src/p2p/protocol.rs, src/p2p/kad.rs, src/auctions/*, src/network/*,
  src/cons/block.rs, `proof_of_work` of src/cons/create_block.rs, and the
  entry points src/main.rs, src/client.rs, src/server.rs, src/peer.rs and
  src/p2p/server.rs are not part of this model.
