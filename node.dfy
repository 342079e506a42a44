/** The routing trie (`Node` in src/p2p/node.rs): a binary trie over the
    256-bit identifier whose leaves hold k-buckets.

    A node is the Rust record itself: optional left and right children and an
    optional bucket. Descent reads the raw bits of an identifier, most
    significant first (0 goes left, 1 goes right); the position is a bit index
    `index` within byte `chunk`, and index 8 rolls over to bit 0 of the next
    byte. `Node::insert` rewrites the node it is called on; here it returns the
    rewritten node, or `None` where the Rust code panics. */
module Trie {
  import opened Bytes
  import opened Keys
  import opened Wrappers
  import opened Buckets

  datatype Node = Node(left: Option<Node>, right: Option<Node>, bucket: Option<seq<Contact>>)

  /** `Node::new`: a leaf with an empty bucket. */
  function NewNode(): (n: Node)
    ensures n.left == None && n.right == None && n.bucket == Some([])
  {
    Node(None, None, Some([]))
  }

  /** `Node::new()` followed by `set_bucket(b)`. */
  function Leaf(b: seq<Contact>): Node
  {
    Node(None, None, Some(b))
  }

  /** Positions the descent can be called with: a bit index up to 8 (8 is
      rolled over) inside the 32 bytes, and never a roll-over past the last byte. */
  predicate ValidPos(index: nat, chunk: nat)
  {
    index <= 8 && chunk <= 31 && !(index == 8 && chunk == 31)
  }

  /** The absolute bit position, most significant bit first. */
  function Pos(index: nat, chunk: nat): nat
  {
    8 * chunk + index
  }

  /** `else if index == 8 { chunk += 1; index = 0; }` */
  function RollIndex(index: nat): nat
  {
    if index == 8 then 0 else index
  }

  function RollChunk(index: nat, chunk: nat): nat
  {
    if index == 8 then chunk + 1 else chunk
  }

  /** The child on the side of a bit: left for 0, right for 1. */
  function Child(n: Node, bit: bool): (r: Option<Node>)
    ensures r.Some? ==> r.value < n
  {
    if bit then n.right else n.left
  }

  /** `n` with the child on the side of `bit` replaced by `c`. */
  function Attach(n: Node, bit: bool, c: Node): (r: Node)
    ensures r.bucket == n.bucket && Child(r, bit) == Some(c) && Child(r, !bit) == Child(n, !bit)
  {
    if bit then n.(right := Some(c)) else n.(left := Some(c))
  }

  /** `Node::insert`, with the local identifier standing for the validator, the
      result of pinging a full bucket's head as `pingOk`, and `now` as the
      clock `Contact::see` reads. Returns `None` exactly where the Rust code
      panics with "Invalid bit": a full leaf reached at bit index 8. */
  function Insert(n: Node, con: Contact, localId: Key, pingOk: bool, now: int, index: nat, chunk: nat): Option<Node>
    requires ValidPos(index, chunk)
    decreases n
  {
    if n.bucket.Some? then
      var b := n.bucket.value;
      if |b| == K then
        if index >= 8 then None
        else if OutOfRange(con, localId, index, chunk) then
          // "don't split buckets into buckets": ping-gated replacement
          Some(n.(bucket := Some(InsertFullSpec(b, con, pingOk, now))))
        else
          var halves := SplitSpec(b, localId, index, chunk, now);
          var outrange := Leaf(halves.0);
          var inrange := Leaf(Inserted(halves.1, con, now));
          if BitAt(localId[chunk], index) then Some(Node(Some(outrange), Some(inrange), None))
          else Some(Node(Some(inrange), Some(outrange), None))
      else
        Some(n.(bucket := Some(Inserted(b, con, now))))
    else if chunk == 31 && index == 7 then
      Some(n.(bucket := Some(Inserted([], con, now))))
    else
      var i := RollIndex(index);
      var ch := RollChunk(index, chunk);
      var bit := BitAt(con.uid[ch], i);
      match Child(n, bit)
      case Some(child) =>
        (match Insert(child, con, localId, pingOk, now, i + 1, ch)
         case Some(c) => Some(Attach(n, bit, c))
         case None => None)
      case None => Some(Attach(n, bit, Leaf(Inserted([], con, now))))
  }

  /** `Node::lookup`: the bucket of the node where the descent by the bits of
      `id` stops, which is the first node lacking the child on the side of the
      next bit, or the node at the last bit of the identifier. */
  function Lookup(n: Node, id: Key, index: nat, chunk: nat): Option<seq<Contact>>
    requires ValidPos(index, chunk)
    decreases n
  {
    if chunk == 31 && index == 7 then n.bucket
    else
      var i := RollIndex(index);
      var ch := RollChunk(index, chunk);
      match Child(n, BitAt(id[ch], i))
      case None => n.bucket
      case Some(child) => Lookup(child, id, i + 1, ch)
  }

  /** The number of levels of the trie. */
  function Height(n: Node): (h: nat)
    ensures h >= 1
    decreases n
  {
    var l := match n.left case None => 0 case Some(c) => Height(c);
    var r := match n.right case None => 0 case Some(c) => Height(c);
    1 + if l >= r then l else r
  }

  /** Every node that holds a bucket is a leaf. */
  ghost predicate LeavesHoldBuckets(n: Node)
    decreases n
  {
    && (n.bucket.Some? ==> n.left.None? && n.right.None?)
    && (match n.left case None => true case Some(c) => LeavesHoldBuckets(c))
    && (match n.right case None => true case Some(c) => LeavesHoldBuckets(c))
  }

  // ---------------------------------------------------------------------------

  /** A leaf answers every lookup with its own bucket. */
  lemma LookupLeaf(b: seq<Contact>, id: Key, index: nat, chunk: nat)
    requires ValidPos(index, chunk)
    ensures Lookup(Leaf(b), id, index, chunk) == Some(b)
  {
  }

  /** A full leaf and an in-range contact (bit 0 of `uid XOR id` at the current
      position): the node becomes internal, without a bucket, with a leaf on
      each side; the leaf on the side of the local identifier's bit holds the
      in-range contacts and the new one, the other holds the rest. Every
      contact then sits on the side of its own raw bit. */
  lemma {:induction false} FullLeafSplits(b: seq<Contact>, con: Contact, localId: Key, pingOk: bool, now: int, index: nat, chunk: nat)
    requires index < 8 && chunk < 32
    requires |b| == K && !OutOfRange(con, localId, index, chunk)
    ensures var r := Insert(Leaf(b), con, localId, pingOk, now, index, chunk);
      && r.Some? && r.value.bucket == None
      && r.value.left.Some? && r.value.right.Some?
      && r.value.left.value.bucket.Some? && r.value.right.value.bucket.Some?
      && (forall x :: x in r.value.left.value.bucket.value ==> !BitAt(x.uid[chunk], index))
      && (forall x :: x in r.value.right.value.bucket.value ==> BitAt(x.uid[chunk], index))
      && Uids((if BitAt(localId[chunk], index) then r.value.right else r.value.left).value.bucket.value)
         == InUids(b, localId, index, chunk) + {con.uid}
  {
    var halves := SplitSpec(b, localId, index, chunk, now);
    var inb := Inserted(halves.1, con, now);
    var local := BitAt(localId[chunk], index);
    assert Insert(Leaf(b), con, localId, pingOk, now, index, chunk)
      == if local then Some(Node(Some(Leaf(halves.0)), Some(Leaf(inb)), None))
         else Some(Node(Some(Leaf(inb)), Some(Leaf(halves.0)), None));
    SplitBits(b, con, localId, index, chunk, now);
    SplitUids(b, localId, index, chunk, now);
    InsertedUids(halves.1, con, now);
  }

  /** The raw bit of every contact after a split: the opposite of the local
      bit in the out-of-range half, the local bit in the in-range half with
      the new contact inserted. */
  lemma SplitBits(b: seq<Contact>, con: Contact, localId: Key, index: nat, chunk: nat, now: int)
    requires index < 8 && chunk < 32 && !OutOfRange(con, localId, index, chunk)
    ensures forall x :: x in SplitSpec(b, localId, index, chunk, now).0 ==>
      BitAt(x.uid[chunk], index) != BitAt(localId[chunk], index)
    ensures forall x :: x in Inserted(SplitSpec(b, localId, index, chunk, now).1, con, now) ==>
      BitAt(x.uid[chunk], index) == BitAt(localId[chunk], index)
  {
    var halves := SplitSpec(b, localId, index, chunk, now);
    SplitSides(b, localId, index, chunk, now);
    InsertedUids(halves.1, con, now);
    InRangeKept(halves.1, Inserted(halves.1, con, now), con, localId, index, chunk);
    RawBits(halves.0, localId, index, chunk, true);
    RawBits(Inserted(halves.1, con, now), localId, index, chunk, false);
  }

  lemma InRangeKept(h: seq<Contact>, inb: seq<Contact>, con: Contact, localId: Key, index: nat, chunk: nat)
    requires index < 8 && chunk < 32 && !OutOfRange(con, localId, index, chunk)
    requires forall x :: x in h ==> !OutOfRange(x, localId, index, chunk)
    requires Uids(inb) == Uids(h) + {con.uid}
    ensures forall x :: x in inb ==> !OutOfRange(x, localId, index, chunk)
  {
    forall x | x in inb ensures !OutOfRange(x, localId, index, chunk) {
      assert x.uid in Uids(inb);
      if x.uid != con.uid {
        var y :| y in h && y.uid == x.uid;
        assert !OutOfRange(y, localId, index, chunk);
      }
    }
  }

  /** Being out of range is having the raw bit opposite to the local one. */
  lemma RawBits(h: seq<Contact>, localId: Key, index: nat, chunk: nat, out: bool)
    requires index < 8 && chunk < 32
    requires forall x :: x in h ==> OutOfRange(x, localId, index, chunk) == out
    ensures forall x :: x in h ==> BitAt(x.uid[chunk], index) == (BitAt(localId[chunk], index) != out)
  {
    forall x | x in h ensures BitAt(x.uid[chunk], index) == (BitAt(localId[chunk], index) != out) {
      XorBit(x.uid[chunk], localId[chunk], index);
    }
  }

  /** A full leaf and an out-of-range contact: the bucket keeps its length;
      a live head keeps the leaf as it is. */
  lemma FullLeafOutOfRange(b: seq<Contact>, con: Contact, localId: Key, pingOk: bool, now: int, index: nat, chunk: nat)
    requires index < 8 && chunk < 32
    requires |b| == K && OutOfRange(con, localId, index, chunk)
    ensures var r := Insert(Leaf(b), con, localId, pingOk, now, index, chunk);
      && r == Some(Leaf(InsertFullSpec(b, con, pingOk, now)))
      && |r.value.bucket.value| == K
      && (pingOk ==> r == Some(Leaf(b)))
  {
  }

  /** The first node on the path of `uid` that holds a bucket, as that bucket
      and the bit index the descent reaches it at; `None` when the path ends
      at a missing child or at the last bit without one. */
  ghost function FirstBucket(n: Node, uid: Key, index: nat, chunk: nat): Option<(seq<Contact>, nat)>
    requires ValidPos(index, chunk)
    decreases n
  {
    if n.bucket.Some? then Some((n.bucket.value, index))
    else if chunk == 31 && index == 7 then None
    else
      var i := RollIndex(index);
      var ch := RollChunk(index, chunk);
      match Child(n, BitAt(uid[ch], i))
      case None => None
      case Some(child) => FirstBucket(child, uid, i + 1, ch)
  }

  /** `Node::insert` panics ("Invalid bit") exactly when the path of the new
      contact's identifier first meets a bucket at a full leaf reached at bit
      index 8; every other insertion returns a trie. */
  lemma {:induction false} InsertPanicsIff(n: Node, con: Contact, localId: Key, pingOk: bool, now: int, index: nat, chunk: nat)
    requires ValidPos(index, chunk)
    ensures Insert(n, con, localId, pingOk, now, index, chunk).None? <==>
      (var f := FirstBucket(n, con.uid, index, chunk); f.Some? && |f.value.0| == K && f.value.1 == 8)
    decreases n
  {
    if n.bucket.None? && !(chunk == 31 && index == 7) {
      var i := RollIndex(index);
      var ch := RollChunk(index, chunk);
      var bit := BitAt(con.uid[ch], i);
      if Child(n, bit).Some? {
        PosStep(index, chunk);
        InsertPanicsIff(Child(n, bit).value, con, localId, pingOk, now, i + 1, ch);
        InsertStep(n, con, localId, pingOk, now, index, chunk);
      } else {
        NewChildStep(n, con, localId, pingOk, now, index, chunk);
      }
    }
  }

  /** Splitting does not bound the in-range leaf: when all `K` contacts and the
      new one are in range and none was seen at this clock reading, the
      in-range leaf receives `K + 1` contacts, ... */
  lemma SplitOverfills(b: seq<Contact>, con: Contact, localId: Key, pingOk: bool, now: int, index: nat, chunk: nat)
    requires index < 8 && chunk < 32 && |b| == K
    requires forall x :: x in b ==> !OutOfRange(x, localId, index, chunk)
    requires !OutOfRange(con, localId, index, chunk)
    requires Unseen(b, now) && con.lastSeen != Seen(now)
    ensures var r := Insert(Leaf(b), con, localId, pingOk, now, index, chunk).value;
      var side := if BitAt(localId[chunk], index) then r.right else r.left;
      side.Some? && side.value.bucket.Some? && |side.value.bucket.value| == K + 1
  {
    var halves := SplitSpec(b, localId, index, chunk, now);
    SplitUnseen(b, localId, index, chunk, now);
    SplitUids(b, localId, index, chunk, now);
    EmptyUids(halves.0);
    AppendUnseen(halves.1, con, now);
  }

  lemma EmptyUids(s: seq<Contact>)
    requires Uids(s) == {}
    ensures s == []
  {
    assert s != [] ==> s[0].uid in Uids(s);
  }

  /** ... and a leaf holding more than `K` contacts is never "full" again, so
      every new contact is appended to it. */
  lemma OverfullLeafGrows(b: seq<Contact>, con: Contact, localId: Key, pingOk: bool, now: int, index: nat, chunk: nat)
    requires ValidPos(index, chunk) && |b| > K && con !in b
    ensures Insert(Leaf(b), con, localId, pingOk, now, index, chunk) == Some(Leaf(b + [See(con, now)]))
  {
    InsertedSpec(b, con, now);
  }

  /** The contact `uid` is reachable: when the insertion did not panic, the
      lookup of `uid` from the given position returns a bucket holding it. */
  ghost predicate Placed(r: Option<Node>, uid: Key, index: nat, chunk: nat)
    requires ValidPos(index, chunk)
  {
    r.Some? ==> var found := Lookup(r.value, uid, index, chunk); found.Some? && uid in Uids(found.value)
  }

  /** Trie placement: after an insertion that neither panics nor loses the
      contact to a live head (`pingOk` false), looking up the contact's own
      identifier from the same position reaches a bucket holding it. This needs
      buckets only at leaves and no leaf at the last bit (where a split would
      leave the node without a bucket for the lookup to return). */
  lemma {:induction false} InsertThenLookup(n: Node, con: Contact, localId: Key, now: int, index: nat, chunk: nat)
    requires ValidPos(index, chunk) && LeavesHoldBuckets(n)
    requires Pos(index, chunk) + Height(n) <= 255
    ensures Placed(Insert(n, con, localId, false, now, index, chunk), con.uid, index, chunk)
    decreases n, 1
  {
    if n.bucket.Some? {
      assert n == Leaf(n.bucket.value);
      InsertLeafThenLookup(n.bucket.value, con, localId, now, index, chunk);
    } else {
      InsertInnerThenLookup(n, con, localId, now, index, chunk);
    }
  }

  /** The internal-node case of the placement property. */
  lemma {:induction false} InsertInnerThenLookup(n: Node, con: Contact, localId: Key, now: int, index: nat, chunk: nat)
    requires ValidPos(index, chunk) && LeavesHoldBuckets(n) && n.bucket.None?
    requires Pos(index, chunk) + Height(n) <= 255
    ensures Placed(Insert(n, con, localId, false, now, index, chunk), con.uid, index, chunk)
    decreases n, 0
  {
    assert !(chunk == 31 && index == 7);
    var i := RollIndex(index);
    var ch := RollChunk(index, chunk);
    var bit := BitAt(con.uid[ch], i);
    if Child(n, bit).Some? {
      var child := Child(n, bit).value;
      ChildFacts(n, bit);
      PosStep(index, chunk);
      InsertThenLookup(child, con, localId, now, i + 1, ch);
      DescendThenLookup(n, child, con, localId, now, index, chunk, i, ch);
    } else {
      NewChildThenLookup(n, con, localId, now, index, chunk);
    }
  }

  /** The descent moves one bit further. */
  lemma PosStep(index: nat, chunk: nat)
    requires ValidPos(index, chunk) && !(chunk == 31 && index == 7)
    ensures ValidPos(RollIndex(index) + 1, RollChunk(index, chunk))
    ensures Pos(RollIndex(index) + 1, RollChunk(index, chunk)) == Pos(index, chunk) + 1
  {
  }

  /** The placement property carried up one internal node. */
  lemma DescendThenLookup(n: Node, child: Node, con: Contact, localId: Key, now: int, index: nat, chunk: nat, i: nat, ch: nat)
    requires ValidPos(index, chunk) && n.bucket.None? && !(chunk == 31 && index == 7)
    requires i == RollIndex(index) && ch == RollChunk(index, chunk) && ValidPos(i + 1, ch)
    requires Child(n, BitAt(con.uid[ch], i)) == Some(child)
    requires Placed(Insert(child, con, localId, false, now, i + 1, ch), con.uid, i + 1, ch)
    ensures Placed(Insert(n, con, localId, false, now, index, chunk), con.uid, index, chunk)
  {
    InsertStep(n, con, localId, false, now, index, chunk);
    var r := Insert(n, con, localId, false, now, index, chunk);
    if r.Some? {
      LookupStep(r.value, con.uid, index, chunk);
    }
  }

  /** The placement property when the descent reaches a missing child. */
  lemma NewChildThenLookup(n: Node, con: Contact, localId: Key, now: int, index: nat, chunk: nat)
    requires ValidPos(index, chunk) && n.bucket.None? && !(chunk == 31 && index == 7)
    requires Child(n, BitAt(con.uid[RollChunk(index, chunk)], RollIndex(index))).None?
    ensures var r := Insert(n, con, localId, false, now, index, chunk);
      r.Some? && Placed(r, con.uid, index, chunk)
  {
    var newLeaf := Inserted([], con, now);
    assert newLeaf == [See(con, now)];
    assert con.uid in Uids(newLeaf);
    NewChildStep(n, con, localId, false, now, index, chunk);
    var r := Insert(n, con, localId, false, now, index, chunk).value;
    LookupStep(r, con.uid, index, chunk);
    LookupLeaf(newLeaf, con.uid, RollIndex(index) + 1, RollChunk(index, chunk));
  }

  /** One step of the descent of `Node::insert` through an internal node. */
  lemma InsertStep(n: Node, con: Contact, localId: Key, pingOk: bool, now: int, index: nat, chunk: nat)
    requires ValidPos(index, chunk) && n.bucket.None? && !(chunk == 31 && index == 7)
    requires Child(n, BitAt(con.uid[RollChunk(index, chunk)], RollIndex(index))).Some?
    ensures var bit := BitAt(con.uid[RollChunk(index, chunk)], RollIndex(index));
      var sub := Insert(Child(n, bit).value, con, localId, pingOk, now, RollIndex(index) + 1, RollChunk(index, chunk));
      && (Insert(n, con, localId, pingOk, now, index, chunk).Some? <==> sub.Some?)
      && Insert(n, con, localId, pingOk, now, index, chunk) == if sub.Some? then Some(Attach(n, bit, sub.value)) else None
  {
  }

  /** The descent of `Node::insert` reaching a missing child. */
  lemma NewChildStep(n: Node, con: Contact, localId: Key, pingOk: bool, now: int, index: nat, chunk: nat)
    requires ValidPos(index, chunk) && n.bucket.None? && !(chunk == 31 && index == 7)
    requires Child(n, BitAt(con.uid[RollChunk(index, chunk)], RollIndex(index))).None?
    ensures var bit := BitAt(con.uid[RollChunk(index, chunk)], RollIndex(index));
      Insert(n, con, localId, pingOk, now, index, chunk) == Some(Attach(n, bit, Leaf(Inserted([], con, now))))
  {
  }

  /** One step of the descent of `Node::lookup`. */
  lemma LookupStep(n: Node, id: Key, index: nat, chunk: nat)
    requires ValidPos(index, chunk) && !(chunk == 31 && index == 7)
    ensures var next := Child(n, BitAt(id[RollChunk(index, chunk)], RollIndex(index)));
      Lookup(n, id, index, chunk) == if next.None? then n.bucket else Lookup(next.value, id, RollIndex(index) + 1, RollChunk(index, chunk))
  {
  }

  lemma ChildFacts(n: Node, bit: bool)
    requires LeavesHoldBuckets(n) && Child(n, bit).Some?
    ensures LeavesHoldBuckets(Child(n, bit).value) && Height(Child(n, bit).value) < Height(n)
  {
  }

  /** The leaf case of the placement property. */
  lemma InsertLeafThenLookup(b: seq<Contact>, con: Contact, localId: Key, now: int, index: nat, chunk: nat)
    requires ValidPos(index, chunk) && Pos(index, chunk) < 255
    ensures Placed(Insert(Leaf(b), con, localId, false, now, index, chunk), con.uid, index, chunk)
  {
    if |b| == K {
      if index >= 8 {
      } else if OutOfRange(con, localId, index, chunk) {
        FullLeafOutOfRange(b, con, localId, false, now, index, chunk);
        var nb := InsertFullSpec(b, con, false, now);
        assert nb[|nb| - 1] == See(con, now);
        assert con.uid in Uids(nb);
        LookupLeaf(nb, con.uid, index, chunk);
      } else {
        SplitThenLookup(b, con, localId, now, index, chunk);
      }
    } else {
      assert Insert(Leaf(b), con, localId, false, now, index, chunk) == Some(Leaf(Inserted(b, con, now)));
      InsertedUids(b, con, now);
      LookupLeaf(Inserted(b, con, now), con.uid, index, chunk);
    }
  }

  /** The split case: the new contact lands in the leaf on the side of its
      own bit, which the lookup reaches one bit further down. */
  lemma SplitThenLookup(b: seq<Contact>, con: Contact, localId: Key, now: int, index: nat, chunk: nat)
    requires index < 8 && chunk < 32 && Pos(index, chunk) < 255
    requires |b| == K && !OutOfRange(con, localId, index, chunk)
    ensures Placed(Insert(Leaf(b), con, localId, false, now, index, chunk), con.uid, index, chunk)
  {
    var halves := SplitSpec(b, localId, index, chunk, now);
    var inb := Inserted(halves.1, con, now);
    var local := BitAt(localId[chunk], index);
    var r := if local then Node(Some(Leaf(halves.0)), Some(Leaf(inb)), None)
             else Node(Some(Leaf(inb)), Some(Leaf(halves.0)), None);
    assert Insert(Leaf(b), con, localId, false, now, index, chunk) == Some(r);
    InsertedUids(halves.1, con, now);
    XorBit(con.uid[chunk], localId[chunk], index);
    assert BitAt(con.uid[chunk], index) == local;
    assert !(chunk == 31 && index == 7);
    LookupStep(r, con.uid, index, chunk);
    assert ValidPos(index + 1, chunk);
    LookupLeaf(inb, con.uid, index + 1, chunk);
  }
}
