/** Contacts and k-buckets (`Contact`, `Bucket` in src/p2p/node.rs).

    A bucket is a deque of contacts. The pure functions below say what each
    bucket operation does to the sequence of contacts; the `Bucket` class runs
    the same operations with the source's counting loops and is proved equal to
    them. The routing trie (module Trie) works on the sequences directly. */
module Buckets {
  import opened Bytes
  import opened Keys
  import Sorting

  /** `K_MAX_ENTRIES` (src/p2p/mod.rs). */
  const K: nat := 5

  /** `LastSeen`; the clock reading `Utc::now()` is an integer supplied by the caller. */
  datatype LastSeen = Never | Seen(at: int)

  /** Equality is on the whole record, `last_seen` included (derived `PartialEq`). */
  datatype Contact = Contact(uid: Key, address: string, lastSeen: LastSeen, pubKey: seq<byte>)

  /** `Contact::new`: a contact that was never seen. */
  function NewContact(uid: Key, address: string, pubKey: seq<byte>): (c: Contact)
    ensures c.lastSeen == Never && c.uid == uid && c.address == address && c.pubKey == pubKey
  {
    Contact(uid, address, Never, pubKey)
  }

  /** `Contact::see` at clock reading `now`. */
  function See(c: Contact, now: int): Contact
  {
    c.(lastSeen := Seen(now))
  }

  function Uids(s: seq<Contact>): set<Key>
  {
    set x | x in s :: x.uid
  }

  /** The position the source's counting loops stop at: the first contact equal
      to `c`, or `|s|` when there is none. */
  function IndexOf(s: seq<Contact>, c: Contact): (i: nat)
    ensures i <= |s|
    ensures i < |s| ==> s[i] == c
    ensures forall j :: 0 <= j < i ==> s[j] != c
  {
    if s == [] then 0
    else if s[0] == c then 0
    else 1 + IndexOf(s[1..], c)
  }

  function Swap(s: seq<Contact>, i: nat, j: nat): (r: seq<Contact>)
    requires i < |s| && j < |s|
  {
    s[i := s[j]][j := s[i]]
  }

  /** `Bucket::move_to_tail`: swaps the first contact equal to `c` with the last one. */
  function MovedToTail(s: seq<Contact>, c: Contact): (r: seq<Contact>)
  {
    var i := IndexOf(s, c);
    if i < |s| then Swap(s, i, |s| - 1) else s
  }

  /** `Bucket::insert`: a contact already present is marked seen where it is and
      then `move_to_tail` is asked for the (unmarked) argument; a new contact is
      marked seen and appended. */
  function Inserted(s: seq<Contact>, c: Contact, now: int): (r: seq<Contact>)
  {
    var i := IndexOf(s, c);
    if i < |s| then MovedToTail(s[i := See(s[i], now)], c) else s + [See(c, now)]
  }

  /** `Bucket::remove`: deletes the first contact equal to `c`, if any. */
  function Removed(s: seq<Contact>, c: Contact): (r: seq<Contact>)
  {
    var i := IndexOf(s, c);
    if i < |s| then s[..i] + s[i + 1..] else s
  }

  /** `Bucket::insert_full`, with the ping of the head contact as the oracle
      `pingOk`: a live head keeps the bucket, a dead one is dropped and the new
      contact, marked seen, goes to the tail. `front().unwrap()` needs a
      non-empty bucket. */
  function InsertFullSpec(s: seq<Contact>, c: Contact, pingOk: bool, now: int): (r: seq<Contact>)
    requires |s| > 0
    ensures |r| == |s|
    ensures pingOk ==> r == s
    ensures !pingOk ==> r[..|s| - 1] == s[1..] && r[|s| - 1] == See(c, now)
  {
    if pingOk then s else s[1..] + [See(c, now)]
  }

  /** Whether `c` is out of the local range at bit `index` of byte `chunk`:
      the bit of `c.uid XOR id` there is 1. */
  predicate OutOfRange(c: Contact, id: Key, index: nat, chunk: nat)
    requires index < 8 && chunk < 32
  {
    BitAt(c.uid[chunk] ^ id[chunk], index)
  }

  /** `Bucket::split`: every contact, in order, is re-inserted (with
      `Bucket::insert`) into the first bucket when it is out of range and into
      the second otherwise. */
  function SplitSpec(s: seq<Contact>, id: Key, index: nat, chunk: nat, now: int): (r: (seq<Contact>, seq<Contact>))
    requires index < 8 && chunk < 32
  {
    if s == [] then ([], [])
    else
      var rest := SplitSpec(s[..|s| - 1], id, index, chunk, now);
      var con := s[|s| - 1];
      if OutOfRange(con, id, index, chunk) then (Inserted(rest.0, con, now), rest.1)
      else (rest.0, Inserted(rest.1, con, now))
  }

  /** The identifiers of the contacts of `s` that are out of range, ... */
  function OutUids(s: seq<Contact>, id: Key, index: nat, chunk: nat): set<Key>
    requires index < 8 && chunk < 32
  {
    set x | x in s && OutOfRange(x, id, index, chunk) :: x.uid
  }

  /** ... and of those in range. */
  function InUids(s: seq<Contact>, id: Key, index: nat, chunk: nat): set<Key>
    requires index < 8 && chunk < 32
  {
    set x | x in s && !OutOfRange(x, id, index, chunk) :: x.uid
  }

  lemma RangeUidsAppend(s: seq<Contact>, c: Contact, id: Key, index: nat, chunk: nat)
    requires index < 8 && chunk < 32
    ensures OutUids(s + [c], id, index, chunk) == OutUids(s, id, index, chunk) + (if OutOfRange(c, id, index, chunk) then {c.uid} else {})
    ensures InUids(s + [c], id, index, chunk) == InUids(s, id, index, chunk) + (if OutOfRange(c, id, index, chunk) then {} else {c.uid})
  {
  }

  /** `split` partitions the identifiers: the first bucket holds exactly those
      of the out-of-range contacts, the second those of the in-range ones, and
      together they are no longer than the bucket (duplicates merge). */
  lemma {:induction false} SplitUids(s: seq<Contact>, id: Key, index: nat, chunk: nat, now: int)
    requires index < 8 && chunk < 32
    ensures var r := SplitSpec(s, id, index, chunk, now);
      && Uids(r.0) == OutUids(s, id, index, chunk)
      && Uids(r.1) == InUids(s, id, index, chunk)
  {
    if s != [] {
      var init := s[..|s| - 1];
      var con := s[|s| - 1];
      var rest := SplitSpec(init, id, index, chunk, now);
      SplitUids(init, id, index, chunk, now);
      assert s == init + [con];
      RangeUidsAppend(init, con, id, index, chunk);
      if OutOfRange(con, id, index, chunk) {
        InsertedUids(rest.0, con, now);
      } else {
        InsertedUids(rest.1, con, now);
      }
    }
  }

  lemma {:induction false} SplitLength(s: seq<Contact>, id: Key, index: nat, chunk: nat, now: int)
    requires index < 8 && chunk < 32
    ensures |SplitSpec(s, id, index, chunk, now).0| + |SplitSpec(s, id, index, chunk, now).1| <= |s|
  {
    if s != [] {
      var init := s[..|s| - 1];
      var con := s[|s| - 1];
      var rest := SplitSpec(init, id, index, chunk, now);
      SplitLength(init, id, index, chunk, now);
      InsertedLength(rest.0, con, now);
      InsertedLength(rest.1, con, now);
    }
  }

  /** `Bucket::get_sorted`'s order: ascending XOR distance to `id`. */
  function ByDistance(id: Key): Contact -> int
  {
    (c: Contact) => DistanceValue(id, c.uid) as int
  }

  /** `Bucket::get_sorted`: a copy sorted by `Vec::sort_by` (stable). */
  function SortedByDistance(s: seq<Contact>, id: Key): (r: seq<Contact>)
    ensures Sorting.SortedBy(r, ByDistance(id))
    ensures multiset(r) == multiset(s)
  {
    Sorting.SortBy(s, ByDistance(id))
  }

  // ---------------------------------------------------------------------------
  // What the operations promise.

  lemma SwapPermutes(s: seq<Contact>, i: nat, j: nat)
    requires i < |s| && j < |s|
    ensures |Swap(s, i, j)| == |s| && multiset(Swap(s, i, j)) == multiset(s)
    ensures Swap(s, i, j)[j] == s[i] && Swap(s, i, j)[i] == s[j]
    ensures forall k :: 0 <= k < |s| && k != i && k != j ==> Swap(s, i, j)[k] == s[k]
  {
    var t := s[i := s[j]];
    assert multiset(t) == multiset(s) - multiset{s[i]} + multiset{s[j]};
  }

  /** `move_to_tail` permutes the bucket and, when `c` is present, exchanges
      the first contact equal to `c` with the last one and leaves every other
      position alone; otherwise it changes nothing. */
  lemma MovedToTailSpec(s: seq<Contact>, c: Contact)
    ensures |MovedToTail(s, c)| == |s|
    ensures multiset(MovedToTail(s, c)) == multiset(s)
    ensures c in s ==> MovedToTail(s, c)[|s| - 1] == c
    ensures c in s ==> MovedToTail(s, c)[IndexOf(s, c)] == s[|s| - 1]
    ensures c in s ==> forall k :: 0 <= k < |s| - 1 && k != IndexOf(s, c) ==> MovedToTail(s, c)[k] == s[k]
    ensures c !in s ==> MovedToTail(s, c) == s
  {
    var i := IndexOf(s, c);
    if i < |s| {
      SwapPermutes(s, i, |s| - 1);
    }
  }

  lemma MultisetSameSet(s: seq<Contact>, t: seq<Contact>)
    requires multiset(s) == multiset(t)
    ensures Uids(s) == Uids(t)
  {
    forall x | x in s ensures x in t { assert x in multiset(s); }
    forall x | x in t ensures x in s { assert x in multiset(t); }
  }

  lemma InsertedLength(s: seq<Contact>, c: Contact, now: int)
    ensures |Inserted(s, c, now)| == if c in s then |s| else |s| + 1
  {
    var i := IndexOf(s, c);
    if i < |s| {
      MovedToTailSpec(s[i := See(s[i], now)], c);
    }
  }

  lemma InsertedUids(s: seq<Contact>, c: Contact, now: int)
    ensures Uids(Inserted(s, c, now)) == Uids(s) + {c.uid}
  {
    var i := IndexOf(s, c);
    if i < |s| {
      var t := s[i := See(s[i], now)];
      MovedToTailSpec(t, c);
      MultisetSameSet(MovedToTail(t, c), t);
      forall x | x in s ensures x.uid in Uids(t) {
        var k :| 0 <= k < |s| && s[k] == x;
        assert t[k].uid == x.uid;
      }
      forall x | x in t ensures x.uid in Uids(s) {
        var k :| 0 <= k < |t| && t[k] == x;
        assert s[k].uid == x.uid;
      }
    } else {
      assert Inserted(s, c, now) == s + [See(c, now)];
    }
  }

  /** Inserting a contact that is not present appends it, marked seen, and
      grows the bucket by one; inserting one that is present keeps the length
      and the set of identifiers. */
  lemma InsertedSpec(s: seq<Contact>, c: Contact, now: int)
    ensures c !in s ==> Inserted(s, c, now) == s + [See(c, now)]
    ensures c in s ==> |Inserted(s, c, now)| == |s| && Uids(Inserted(s, c, now)) == Uids(s)
  {
    InsertedLength(s, c, now);
    InsertedUids(s, c, now);
    if c in s {
      var k :| 0 <= k < |s| && s[k] == c;
      assert c.uid in Uids(s);
    }
  }

  /** The refresh of a present contact marks it seen in place and does not move
      it, when the argument was not already marked with this clock reading and
      occurs once: `see()` changes the stored record before `move_to_tail`
      looks for the argument, so the search finds nothing. */
  lemma {:induction false} RefreshStaysInPlace(s: seq<Contact>, c: Contact, now: int, k: nat)
    requires k < |s| && s[k] == c
    requires forall j :: 0 <= j < |s| && j != k ==> s[j] != c
    requires c.lastSeen != Seen(now)
    ensures Inserted(s, c, now) == s[k := See(c, now)]
  {
    var i := IndexOf(s, c);
    assert i == k;
    var t := s[k := See(c, now)];
    assert forall j :: 0 <= j < |t| ==> t[j] != c;
    assert IndexOf(t, c) == |t|;
  }

  /** `remove` deletes exactly the first contact equal to `c`, keeping the
      others in order, and does nothing when `c` is absent. */
  lemma RemovedSpec(s: seq<Contact>, c: Contact)
    ensures c !in s ==> Removed(s, c) == s
    ensures c in s ==>
      (|Removed(s, c)| == |s| - 1
       && multiset(Removed(s, c)) == multiset(s) - multiset{c}
       && Removed(s, c) == s[..IndexOf(s, c)] + s[IndexOf(s, c) + 1..])
  {
    var i := IndexOf(s, c);
    if i < |s| {
      var a, b := s[..i], s[i + 1..];
      assert s == a + [c] + b;
      assert multiset(s) == multiset(a) + multiset{c} + multiset(b);
      assert Removed(s, c) == a + b;
      assert multiset(a + b) == multiset(a) + multiset(b);
    }
  }

  /** After `split` every contact of the first bucket is out of range and
      every contact of the second is in range. */
  lemma SplitSides(s: seq<Contact>, id: Key, index: nat, chunk: nat, now: int)
    requires index < 8 && chunk < 32
    ensures forall x :: x in SplitSpec(s, id, index, chunk, now).0 ==> OutOfRange(x, id, index, chunk)
    ensures forall x :: x in SplitSpec(s, id, index, chunk, now).1 ==> !OutOfRange(x, id, index, chunk)
  {
    var r := SplitSpec(s, id, index, chunk, now);
    SplitUids(s, id, index, chunk, now);
    forall x | x in r.0 ensures OutOfRange(x, id, index, chunk) {
      assert x.uid in Uids(r.0);
      var y :| y in s && OutOfRange(y, id, index, chunk) && y.uid == x.uid;
    }
    forall x | x in r.1 ensures !OutOfRange(x, id, index, chunk) {
      assert x.uid in Uids(r.1);
      var y :| y in s && !OutOfRange(y, id, index, chunk) && y.uid == x.uid;
    }
  }

  /** No contact of `s` carries the clock reading `now` yet. */
  ghost predicate Unseen(s: seq<Contact>, now: int)
  {
    forall x :: x in s ==> x.lastSeen != Seen(now)
  }

  ghost predicate AllSeen(s: seq<Contact>, now: int)
  {
    forall x :: x in s ==> x.lastSeen == Seen(now)
  }

  /** The contacts of `s`, in order, that are out of range (`out`) or in
      range (`!out`). */
  function Side(s: seq<Contact>, id: Key, index: nat, chunk: nat, out: bool): (r: seq<Contact>)
    requires index < 8 && chunk < 32
    ensures |r| <= |s|
    ensures forall x :: x in r ==> x in s && OutOfRange(x, id, index, chunk) == out
  {
    if s == [] then []
    else
      var con := s[|s| - 1];
      Side(s[..|s| - 1], id, index, chunk, out) + (if OutOfRange(con, id, index, chunk) == out then [con] else [])
  }

  /** Every contact of `s`, in order, marked seen at `now`. */
  function Stamped(s: seq<Contact>, now: int): (r: seq<Contact>)
    ensures |r| == |s|
    ensures forall i :: 0 <= i < |s| ==> r[i] == See(s[i], now)
  {
    if s == [] then [] else Stamped(s[..|s| - 1], now) + [See(s[|s| - 1], now)]
  }

  lemma StampedAppend(s: seq<Contact>, c: Contact, now: int)
    ensures Stamped(s + [c], now) == Stamped(s, now) + [See(c, now)]
  {
    assert (s + [c])[..|s|] == s;
  }

  lemma StampedAllSeen(s: seq<Contact>, now: int)
    ensures AllSeen(Stamped(s, now), now)
  {
    var r := Stamped(s, now);
    forall x | x in r ensures x.lastSeen == Seen(now) {
      var k :| 0 <= k < |r| && r[k] == x;
    }
  }

  /** When nothing in the bucket was seen at `now`, `split` keeps every contact
      and its order: the first half is the out-of-range contacts of the bucket,
      the second the in-range ones, each marked seen. */
  lemma SplitUnseen(s: seq<Contact>, id: Key, index: nat, chunk: nat, now: int)
    requires index < 8 && chunk < 32
    requires Unseen(s, now)
    ensures SplitSpec(s, id, index, chunk, now).0 == Stamped(Side(s, id, index, chunk, true), now)
    ensures SplitSpec(s, id, index, chunk, now).1 == Stamped(Side(s, id, index, chunk, false), now)
    ensures |SplitSpec(s, id, index, chunk, now).0| + |SplitSpec(s, id, index, chunk, now).1| == |s|
    ensures AllSeen(SplitSpec(s, id, index, chunk, now).0, now)
    ensures AllSeen(SplitSpec(s, id, index, chunk, now).1, now)
  {
    SplitInOrder(s, id, index, chunk, now);
    SideLengths(s, id, index, chunk);
    StampedAllSeen(Side(s, id, index, chunk, true), now);
    StampedAllSeen(Side(s, id, index, chunk, false), now);
  }

  /** The induction behind `SplitUnseen`. */
  lemma {:induction false} SplitInOrder(s: seq<Contact>, id: Key, index: nat, chunk: nat, now: int)
    requires index < 8 && chunk < 32
    requires Unseen(s, now)
    ensures SplitSpec(s, id, index, chunk, now).0 == Stamped(Side(s, id, index, chunk, true), now)
    ensures SplitSpec(s, id, index, chunk, now).1 == Stamped(Side(s, id, index, chunk, false), now)
  {
    if s != [] {
      var init := s[..|s| - 1];
      var con := s[|s| - 1];
      SplitInOrder(init, id, index, chunk, now);
      var rest := SplitSpec(init, id, index, chunk, now);
      var outs, ins := Side(init, id, index, chunk, true), Side(init, id, index, chunk, false);
      StampedAllSeen(outs, now);
      StampedAllSeen(ins, now);
      assert con.lastSeen != Seen(now);
      if OutOfRange(con, id, index, chunk) {
        AppendUnseen(rest.0, con, now);
        StampedAppend(outs, con, now);
      } else {
        AppendUnseen(rest.1, con, now);
        StampedAppend(ins, con, now);
      }
    }
  }

  /** Every contact is on exactly one side. */
  lemma {:induction false} SideLengths(s: seq<Contact>, id: Key, index: nat, chunk: nat)
    requires index < 8 && chunk < 32
    ensures |Side(s, id, index, chunk, true)| + |Side(s, id, index, chunk, false)| == |s|
  {
    if s != [] {
      SideLengths(s[..|s| - 1], id, index, chunk);
    }
  }

  /** An unseen contact is never found among marked ones, so insert appends it. */
  lemma AppendUnseen(s: seq<Contact>, c: Contact, now: int)
    requires AllSeen(s, now) && c.lastSeen != Seen(now)
    ensures Inserted(s, c, now) == s + [See(c, now)]
    ensures AllSeen(Inserted(s, c, now), now)
  {
    assert c !in s;
  }

  // ---------------------------------------------------------------------------
  // The bucket as the source mutates it.

  class Bucket {
    var contacts: seq<Contact>

    /** `Bucket::new`. */
    constructor ()
      ensures contacts == []
    {
      contacts := [];
    }

    /** `Bucket::insert`: the search loop, then see-and-move or append. */
    method Insert(node: Contact, now: int)
      modifies this
      ensures contacts == Inserted(old(contacts), node, now)
    {
      var index := 0;
      while index < |contacts| && contacts[index] != node
        invariant 0 <= index <= |contacts|
        invariant forall j :: 0 <= j < index ==> contacts[j] != node
      {
        index := index + 1;
      }
      assert index == IndexOf(contacts, node);
      if index < |contacts| {
        contacts := contacts[index := See(contacts[index], now)];
        MoveToTail(node);
      } else {
        contacts := contacts + [See(node, now)];
      }
    }

    /** `Bucket::remove`. */
    method Remove(node: Contact)
      modifies this
      ensures contacts == Removed(old(contacts), node)
    {
      var count := 0;
      while count < |contacts|
        invariant 0 <= count <= |contacts|
        invariant contacts == old(contacts)
        invariant forall j :: 0 <= j < count ==> contacts[j] != node
      {
        if contacts[count] == node {
          assert count == IndexOf(contacts, node);
          contacts := contacts[..count] + contacts[count + 1..];
          return;
        }
        count := count + 1;
      }
    }

    /** `Bucket::move_to_tail`. */
    method MoveToTail(node: Contact)
      modifies this
      ensures contacts == MovedToTail(old(contacts), node)
    {
      var count := 0;
      while count < |contacts|
        invariant 0 <= count <= |contacts|
        invariant contacts == old(contacts)
        invariant forall j :: 0 <= j < count ==> contacts[j] != node
      {
        if contacts[count] == node {
          assert count == IndexOf(contacts, node);
          contacts := Swap(contacts, count, |contacts| - 1);
          return;
        }
        count := count + 1;
      }
    }

    /** `Bucket::split`: drains this bucket into two fresh ones (out of range
      first). A bit index of 8 or more has no character in the binary string
      and panics. */
    method Split(id: Key, index: nat, chunk: nat, now: int) returns (bucket1: Bucket, bucket0: Bucket)
      requires index < 8 && chunk < 32
      modifies this
      ensures fresh(bucket1) && fresh(bucket0)
      ensures contacts == []
      ensures (bucket1.contacts, bucket0.contacts) == SplitSpec(old(contacts), id, index, chunk, now)
    {
      bucket0 := new Bucket();
      bucket1 := new Bucket();
      var drained := contacts;
      contacts := [];
      var i := 0;
      while i < |drained|
        invariant 0 <= i <= |drained|
        invariant drained == old(contacts) && contacts == []
        invariant (bucket1.contacts, bucket0.contacts) == SplitSpec(drained[..i], id, index, chunk, now)
      {
        var con := drained[i];
        assert drained[..i + 1][..i] == drained[..i];
        if OutOfRange(con, id, index, chunk) {
          bucket1.Insert(con, now);
        } else {
          bucket0.Insert(con, now);
        }
        i := i + 1;
      }
      assert drained[..i] == drained;
    }

    /** `Bucket::is_full`: exactly `K` contacts (a longer bucket is not full). */
    function IsFull(): bool
      reads this
    {
      |contacts| == K
    }

    /** `Bucket::len`. */
    function Len(): nat
      reads this
    {
      |contacts|
    }

    /** `Bucket::get_sorted`: a copy in ascending XOR distance to `id`, a
      permutation of the bucket, which is left as it is. */
    function GetSorted(id: Key): (r: seq<Contact>)
      reads this
      ensures Sorting.SortedBy(r, ByDistance(id))
      ensures multiset(r) == multiset(contacts)
    {
      SortedByDistance(contacts, id)
    }

    /** `Bucket::insert_full` with the ping as an oracle. */
    method InsertFull(con: Contact, pingOk: bool, now: int)
      requires |contacts| > 0
      modifies this
      ensures contacts == InsertFullSpec(old(contacts), con, pingOk, now)
    {
      if !pingOk {
        contacts := contacts[1..];
        contacts := contacts + [See(con, now)];
      }
    }
  }
}
