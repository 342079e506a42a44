/** The routing table (`Rtable` in src/p2p/rtable.rs): the root of the trie
    and the lookup of the contacts closest to an identifier. */
module Routing {
  import opened Bytes
  import opened Keys
  import opened Wrappers
  import opened Buckets
  import Trie
  import Sorting

  /** The most contacts `Rtable::lookup` collects. */
  const LookupLimit: nat := 20

  /** The contacts of the bucket `Node::lookup` finds for `target` from the
      root, in ascending distance to `id`; none when no bucket is there. */
  function SortedBucket(head: Trie.Node, target: Key, id: Key): (r: seq<Contact>)
    ensures Sorting.SortedBy(r, ByDistance(id))
  {
    match Trie.Lookup(head, target, 0, 0)
    case Some(b) => SortedByDistance(b, id)
    case None => []
  }

  /** The identifier with its top bit flipped: `set_bitmask(0, 0)`, the only
      one the lookup ever uses, since it resets index and chunk to 0. */
  function Flipped(id: Key): Key
  {
    SetBitmask(id, 0, 0)
  }

  /** What `Rtable::lookup` returns: the buckets for `id`, for `id` with its top
      bit flipped, and for `id` again (the third round stops on a prefix
      already visited), concatenated and cut at 20 entries. */
  function LookupSpec(head: Trie.Node, id: Key): (r: seq<Contact>)
    ensures |r| <= LookupLimit
  {
    Sorting.Truncate(SortedBucket(head, id, id) + SortedBucket(head, Flipped(id), id) + SortedBucket(head, id, id), LookupLimit)
  }

  class Rtable {
    var head: Trie.Node

    /** `Rtable::new`: a root leaf with an empty bucket. */
    constructor ()
      ensures head == Trie.NewNode()
    {
      head := Trie.NewNode();
    }

    /** `Rtable::insert`: insertion from the root, at bit 0 of byte 0. The
        caller must stay clear of the "Invalid bit" panic. */
    method Insert(con: Contact, uid: Key, pingOk: bool, now: int)
      requires Trie.Insert(head, con, uid, pingOk, now, 0, 0).Some?
      modifies this
      ensures head == Trie.Insert(old(head), con, uid, pingOk, now, 0, 0).value
    {
      head := Trie.Insert(head, con, uid, pingOk, now, 0, 0).value;
    }

    /** `Rtable::lookup`: query the bucket for the current target, push its
        contacts sorted by distance to `id` and stop at 20, then flip the
        target's top bit and stop when its one-byte prefix was seen before. */
    method Lookup(id: Key) returns (kClosest: seq<Contact>)
      ensures kClosest == LookupSpec(head, id)
    {
      var index, chunk := 0, 0;
      kClosest := [];
      var target := id;
      var visited: set<seq<byte>> := {};
      ghost var rounds := 0;
      while |kClosest| <= LookupLimit
        invariant rounds <= 2 && index == 0 && chunk == 0
        invariant target == Target(id, rounds) && visited == Visited(id, rounds)
        invariant kClosest == Gathered(head, id, rounds) && |kClosest| < LookupLimit
        decreases 2 - rounds
      {
        var kbucket := Trie.Lookup(head, target, index, chunk);
        if kbucket.Some? {
          var sorted := SortedByDistance(kbucket.value, id);
          var full;
          kClosest, full := PushUntilFull(kClosest, sorted);
          if full {
            FullRound(head, id, rounds);
            return;
          }
        }
        assert kClosest == Gathered(head, id, rounds) + SortedBucket(head, target, id);
        target := SetBitmask(target, index, chunk);
        var prefix := Prefix(target, index, chunk);
        NextRound(id, rounds);
        if prefix in visited {
          LastRound(head, id, kClosest);
          break;
        }
        visited := visited + {prefix};
        index, chunk := 0, 0;
        rounds := rounds + 1;
      }
    }
  }

  /** The target of each round: `id`, then `id` with its top bit flipped,
      then `id` again. */
  function Target(id: Key, rounds: nat): Key
  {
    if rounds == 1 then Flipped(id) else id
  }

  /** The prefixes marked visited before each round. */
  function Visited(id: Key, rounds: nat): set<seq<byte>>
  {
    if rounds == 0 then {}
    else if rounds == 1 then {Prefix(Flipped(id), 0, 0)}
    else {Prefix(Flipped(id), 0, 0), Prefix(id, 0, 0)}
  }

  /** The contacts collected before each round. */
  function Gathered(head: Trie.Node, id: Key, rounds: nat): seq<Contact>
  {
    if rounds == 0 then []
    else if rounds == 1 then SortedBucket(head, id, id)
    else SortedBucket(head, id, id) + SortedBucket(head, Flipped(id), id)
  }

  /** The end of a round: flipping the top bit of the target gives the next
      round's target; its prefix was seen exactly in the third round, and
      otherwise marking it gives the next round's visited set. */
  lemma NextRound(id: Key, rounds: nat)
    requires rounds <= 2
    ensures var next := SetBitmask(Target(id, rounds), 0, 0);
      && (Prefix(next, 0, 0) in Visited(id, rounds) <==> rounds == 2)
      && (rounds < 2 ==> next == Target(id, rounds + 1)
                         && Visited(id, rounds) + {Prefix(next, 0, 0)} == Visited(id, rounds + 1))
  {
    PrefixTopBitFlip(id);
    SetBitmaskInvolution(id, 0, 0);
  }

  /** Filling up in a round gives the first 20 of all three rounds. */
  lemma FullRound(head: Trie.Node, id: Key, rounds: nat)
    requires rounds <= 2
    requires |Gathered(head, id, rounds) + SortedBucket(head, Target(id, rounds), id)| >= LookupLimit
    ensures Sorting.Truncate(Gathered(head, id, rounds) + SortedBucket(head, Target(id, rounds), id), LookupLimit)
         == LookupSpec(head, id)
  {
    var first := SortedBucket(head, id, id);
    var second := SortedBucket(head, Flipped(id), id);
    var s := Gathered(head, id, rounds) + SortedBucket(head, Target(id, rounds), id);
    assert s == if rounds == 0 then first else if rounds == 1 then first + second else first + second + first;
    TruncateLater(first, second, first, s);
  }

  /** Cutting at 20 a prefix of three rounds that already has 20 entries. */
  lemma TruncateLater(a: seq<Contact>, b: seq<Contact>, c: seq<Contact>, s: seq<Contact>)
    requires s == a || s == a + b || s == a + b + c
    requires |s| >= LookupLimit
    ensures Sorting.Truncate(s, LookupLimit) == Sorting.Truncate(a + b + c, LookupLimit)
  {
    if s == a {
      assert a + b + c == s + (b + c);
      TruncateAppend(s, b + c);
    } else if s == a + b {
      TruncateAppend(s, c);
    }
  }

  /** Stopping after the third round returns all three rounds. */
  lemma LastRound(head: Trie.Node, id: Key, kClosest: seq<Contact>)
    requires kClosest == Gathered(head, id, 2) + SortedBucket(head, Target(id, 2), id)
    requires |kClosest| < LookupLimit
    ensures kClosest == LookupSpec(head, id)
  {
  }

  /** The `for contact in ... { push; if len == 20 { return } }` loop of
      `Rtable::lookup`: appends the contacts one by one and reports whether
      the list reached 20 entries, at which point it stops. */
  method PushUntilFull(kClosest: seq<Contact>, sorted: seq<Contact>) returns (r: seq<Contact>, full: bool)
    requires |kClosest| < LookupLimit
    ensures full <==> |kClosest + sorted| >= LookupLimit
    ensures full ==> r == Sorting.Truncate(kClosest + sorted, LookupLimit)
    ensures !full ==> r == kClosest + sorted
  {
    r := kClosest;
    var j := 0;
    while j < |sorted|
      invariant 0 <= j <= |sorted|
      invariant r == kClosest + sorted[..j]
      invariant |r| < LookupLimit
    {
      r := r + [sorted[j]];
      assert sorted[..j + 1] == sorted[..j] + [sorted[j]];
      if |r| == LookupLimit {
        assert (kClosest + sorted)[..LookupLimit] == r;
        return r, true;
      }
      j := j + 1;
    }
    assert sorted[..j] == sorted;
    return r, false;
  }

  /** Cutting a list at 20 once its head already has 20 entries ignores the tail. */
  lemma TruncateAppend(s: seq<Contact>, t: seq<Contact>)
    requires |s| >= LookupLimit
    ensures Sorting.Truncate(s + t, LookupLimit) == Sorting.Truncate(s, LookupLimit)
  {
    assert (s + t)[..LookupLimit] == s[..LookupLimit];
  }

  // ---------------------------------------------------------------------------

  /** Every contact the lookup returns belongs to the bucket found for `id`
      or to the one found for `id` with its top bit flipped. */
  lemma LookupFromTwoBuckets(head: Trie.Node, id: Key, c: Contact)
    requires c in LookupSpec(head, id)
    ensures c in SortedBucket(head, id, id) || c in SortedBucket(head, Flipped(id), id)
  {
    var all := SortedBucket(head, id, id) + SortedBucket(head, Flipped(id), id) + SortedBucket(head, id, id);
    assert c in all;
  }

  /** The first bucket is searched twice: when it is not empty and the three
      rounds together stay below 20 entries, its closest contact is returned
      twice. */
  lemma LookupRepeatsFirstBucket(head: Trie.Node, id: Key)
    requires SortedBucket(head, id, id) != []
    requires 2 * |SortedBucket(head, id, id)| + |SortedBucket(head, Flipped(id), id)| <= LookupLimit
    ensures var r := LookupSpec(head, id);
      var i := |SortedBucket(head, id, id)| + |SortedBucket(head, Flipped(id), id)|;
      i < |r| && r[0] == r[i]
  {
  }

  /** The lookup is as long as the three rounds together, up to 20. */
  lemma LookupLength(head: Trie.Node, id: Key)
    ensures var n := 2 * |SortedBucket(head, id, id)| + |SortedBucket(head, Flipped(id), id)|;
      |LookupSpec(head, id)| == if n <= LookupLimit then n else LookupLimit
  {
  }

  /** After `Rtable::new`, every lookup is empty. */
  lemma LookupEmptyTable(id: Key)
    ensures LookupSpec(Trie.NewNode(), id) == []
  {
    Trie.LookupLeaf([], id, 0, 0);
    Trie.LookupLeaf([], Flipped(id), 0, 0);
  }

  /** A contact inserted into a table whose buckets sit at leaves less than 255
      levels deep is found through its own identifier's bucket, unless the ping
      of a full bucket's head answered. */
  lemma InsertThenFind(head: Trie.Node, con: Contact, uid: Key, now: int)
    requires Trie.LeavesHoldBuckets(head) && Trie.Height(head) <= 255
    ensures var t := Trie.Insert(head, con, uid, false, now, 0, 0);
      t.Some? ==> var r := Trie.Lookup(t.value, con.uid, 0, 0); r.Some? && con.uid in Uids(r.value)
  {
    Trie.InsertThenLookup(head, con, uid, now, 0, 0);
  }
}
