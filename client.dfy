/** The sequential bookkeeping of the node lookup in src/p2p/client.rs: the
    merge of a peer's reply into the k-closest list (`insert_closest`), the
    shared state of the parallel lookup (`FNodeManager`) and the conversion of
    a reply's contacts (`contact_list`). This revision of the client builds its
    contacts with an `ip` and a `port` field, so it gets its own `Peer` record. */
module Client {
  import opened Bytes
  import opened Keys
  import opened Wrappers
  import opened Sorting
  import Buckets

  /** A contact as client.rs sees it. */
  datatype Peer = Peer(uid: Key, ip: string, port: u16)

  /** The wire form of a contact in this revision of client.rs. */
  datatype Kcontact = Kcontact(uid: seq<byte>, ip: string, port: i32)

  /** The comparator of `insert_closest`: the XOR distance of the contact's
      identifier to `key`, compared as the big-endian 256-bit number. */
  function PeerDistance(key: Key): Peer -> int
  {
    (p: Peer) => DistanceValue(key, p.uid) as int
  }

  /** The three vectors `insert_closest` works on. */
  datatype Lists = Lists(kClosest: seq<Peer>, localVisit: seq<Peer>, toInsert: seq<Peer>)

  /** The outcome: the new k-closest list (written back through `&mut`), the
      returned to-visit list and progress flag, or a panic of `Vec::remove`. */
  datatype Merge = Merged(kClosest: seq<Peer>, localVisit: seq<Peer>, success: bool) | Panicked

  /** `s` in the order repeated `Vec::pop` hands it out. */
  function Reversed<T>(s: seq<T>): (r: seq<T>)
    ensures |r| == |s|
    ensures forall i :: 0 <= i < |s| ==> r[i] == s[|s| - 1 - i]
  {
    if s == [] then [] else [s[|s| - 1]] + Reversed(s[..|s| - 1])
  }

  /** How many contacts the filling loop moves: until the list holds K or
      the reply runs out. */
  function Moved(have: nat, offered: nat): nat
  {
    if have >= Buckets.K then 0
    else if offered <= Buckets.K - have then offered
    else Buckets.K - have
  }

  /** The filling `while` loop: pop the last contact of the reply and push it
      onto both lists while the k-closest list is short of K. */
  function Fill(st: Lists): Lists
    decreases |st.toInsert|
  {
    if |st.kClosest| < Buckets.K && st.toInsert != [] then
      var node := st.toInsert[|st.toInsert| - 1];
      Fill(Lists(st.kClosest + [node], st.localVisit + [node], st.toInsert[..|st.toInsert| - 1]))
    else st
  }

  /** The inner `for` loop over a snapshot `ks` of the k-closest list, for one
      contact `x` of the reply: every member `x` is strictly closer than makes
      it push `x` onto both lists and remove the reply's head (`_index` is
      always 0 there), which panics once the reply is empty. */
  function Scan(x: Peer, ks: seq<Peer>, key: Key, st: Lists): Option<Lists>
    decreases |ks|
  {
    if ks == [] then Some(st)
    else if PeerDistance(key)(x) < PeerDistance(key)(ks[0]) then
      if st.toInsert == [] then None
      else Scan(x, ks[1..], key, Lists(st.kClosest + [x], st.localVisit + [x], st.toInsert[1..]))
    else Scan(x, ks[1..], key, st)
  }

  /** The outer `for` loop over a snapshot `xs` of the remaining reply; each
      round scans the k-closest list as it stands when the round starts. */
  function Rounds(xs: seq<Peer>, key: Key, st: Lists): Option<Lists>
    decreases |xs|
  {
    if xs == [] then Some(st)
    else
      match Scan(xs[0], st.kClosest, key, st)
      case None => None
      case Some(next) => Rounds(xs[1..], key, next)
  }

  /** `!` on a `usize`: the bitwise complement of a 64-bit value. */
  function BitNot(n: nat): (r: nat)
    requires n < TwoTo64
    ensures r < TwoTo64 && n + r == TwoTo64 - 1
  {
    TwoTo64 - 1 - n
  }

  /** What `insert_closest` does, as written. */
  function MergeReply(kClosest: seq<Peer>, localVisit: seq<Peer>, closest: seq<Peer>, key: Key): Merge
    requires |closest| < TwoTo64
  {
    var filled := Fill(Lists(kClosest, localVisit, closest));
    if filled.toInsert == [] then Merged(filled.kClosest, filled.localVisit, true)
    else
      match Rounds(filled.toInsert, key, filled)
      case None => Panicked
      case Some(st) =>
        Merged(Truncate(SortBy(st.kClosest, PeerDistance(key)), Buckets.K),
               Truncate(SortBy(st.localVisit, PeerDistance(key)), Buckets.K),
               BitNot(|closest|) == |st.toInsert|)
  }

  /** `insert_closest`, with its loops. `k_closest` is borrowed mutably: the
      method returns its new value inside the outcome. */
  method InsertClosest(kClosest: seq<Peer>, localVisit: seq<Peer>, closest: seq<Peer>, key: Key) returns (r: Merge)
    requires |closest| < TwoTo64
    ensures r == MergeReply(kClosest, localVisit, closest, key)
  {
    var prevLen := |closest|;
    var k, lv, ctc := kClosest, localVisit, closest;
    while |k| < Buckets.K && ctc != []
      invariant Fill(Lists(k, lv, ctc)) == Fill(Lists(kClosest, localVisit, closest))
      decreases |ctc|
    {
      var node := ctc[|ctc| - 1];
      ctc := ctc[..|ctc| - 1];
      k := k + [node];
      lv := lv + [node];
    }
    if ctc == [] {
      return Merged(k, lv, true);
    }
    ghost var filled := Lists(k, lv, ctc);
    var snapshot := ctc;
    var i := 0;
    while i < |snapshot|
      invariant 0 <= i <= |snapshot|
      invariant Rounds(snapshot[i..], key, Lists(k, lv, ctc)) == Rounds(snapshot, key, filled)
    {
      var x := snapshot[i];
      var ks := k;
      ghost var start := Lists(k, lv, ctc);
      var j := 0;
      while j < |ks|
        invariant 0 <= j <= |ks|
        invariant Scan(x, ks[j..], key, Lists(k, lv, ctc)) == Scan(x, ks, key, start)
      {
        assert ks[j..][1..] == ks[j + 1..];
        if PeerDistance(key)(x) < PeerDistance(key)(ks[j]) {
          k := k + [x];
          lv := lv + [x];
          if ctc == [] {
            return Panicked;
          }
          ctc := ctc[1..];
        }
        j := j + 1;
      }
      assert snapshot[i..][1..] == snapshot[i + 1..];
      i := i + 1;
    }
    k := Truncate(SortBy(k, PeerDistance(key)), Buckets.K);
    lv := Truncate(SortBy(lv, PeerDistance(key)), Buckets.K);
    var success := BitNot(prevLen) == |ctc|;
    return Merged(k, lv, success);
  }

  // ---------------------------------------------------------------------------
  // What `insert_closest` does.

  /** The last `n` elements of `s` in the order `Vec::pop` hands them out. */
  function Popped<T>(s: seq<T>, n: nat): (r: seq<T>)
    requires n <= |s|
    ensures |r| == n
  {
    Reversed(s[|s| - n..])
  }

  /** The filling loop moves the last `Moved` contacts of the reply, in pop
      order, onto the end of both lists and leaves the rest of the reply. */
  lemma {:induction false} FillSpec(st: Lists, n: nat)
    requires n == Moved(|st.kClosest|, |st.toInsert|)
    ensures n <= |st.toInsert|
    ensures Fill(st) == Lists(st.kClosest + Popped(st.toInsert, n), st.localVisit + Popped(st.toInsert, n),
                              st.toInsert[..|st.toInsert| - n])
    decreases |st.toInsert|
  {
    var m := |st.toInsert|;
    if |st.kClosest| < Buckets.K && st.toInsert != [] {
      var node := st.toInsert[m - 1];
      var rest := st.toInsert[..m - 1];
      var next := Lists(st.kClosest + [node], st.localVisit + [node], rest);
      assert Fill(st) == Fill(next);
      FillSpec(next, n - 1);
      PopStep(st.kClosest, st.toInsert, n);
      PopStep(st.localVisit, st.toInsert, n);
    } else {
      assert st.toInsert[m - n..] == [];
      assert st.toInsert[..m - n] == st.toInsert;
    }
  }

  /** Popping the last of the `n` last elements first. */
  lemma PopStep<T>(a: seq<T>, s: seq<T>, n: nat)
    requires 0 < n <= |s|
    ensures (a + [s[|s| - 1]]) + Popped(s[..|s| - 1], n - 1) == a + Popped(s, n)
    ensures s[..|s| - 1][..|s| - 1 - (n - 1)] == s[..|s| - n]
  {
    var m := |s|;
    var moved := s[m - n..];
    assert moved[|moved| - 1] == s[m - 1];
    assert moved[..|moved| - 1] == s[..m - 1][m - 1 - (n - 1)..];
    assert Popped(s, n) == [s[m - 1]] + Popped(s[..m - 1], n - 1);
  }

  /** When the reply fits in the free places of the k-closest list, all of it
      is pushed in pop order and the function returns at once with `true`,
      leaving both lists unsorted and untruncated. */
  lemma EarlyReturn(kClosest: seq<Peer>, localVisit: seq<Peer>, closest: seq<Peer>, key: Key)
    requires |closest| < TwoTo64
    requires closest == [] || |kClosest| + |closest| <= Buckets.K
    ensures MergeReply(kClosest, localVisit, closest, key)
         == Merged(kClosest + Reversed(closest), localVisit + Reversed(closest), true)
  {
    var n := Moved(|kClosest|, |closest|);
    FillSpec(Lists(kClosest, localVisit, closest), n);
    assert closest[|closest| - n..] == closest;
  }

  /** One scan only appends copies of `x`, one per entry it takes off the
      reply, and appends any only when `x` is strictly closer to the key than
      a member of the snapshot. */
  lemma {:induction false} ScanAppends(x: Peer, ks: seq<Peer>, key: Key, st: Lists)
    requires Scan(x, ks, key, st).Some?
    ensures var r := Scan(x, ks, key, st).value;
      && st.kClosest <= r.kClosest
      && |r.kClosest| - |st.kClosest| == |st.toInsert| - |r.toInsert| == |r.localVisit| - |st.localVisit|
      && (forall i :: |st.kClosest| <= i < |r.kClosest| ==> r.kClosest[i] == x)
      && (|r.kClosest| > |st.kClosest| ==> exists y :: y in ks && PeerDistance(key)(x) < PeerDistance(key)(y))
    decreases |ks|
  {
    if ks != [] {
      if PeerDistance(key)(x) < PeerDistance(key)(ks[0]) {
        var next := Lists(st.kClosest + [x], st.localVisit + [x], st.toInsert[1..]);
        assert Scan(x, ks, key, st) == Scan(x, ks[1..], key, next);
        ScanAppends(x, ks[1..], key, next);
        assert ks[0] in ks;
      } else {
        assert Scan(x, ks, key, st) == Scan(x, ks[1..], key, st);
        ScanAppends(x, ks[1..], key, st);
        var r := Scan(x, ks, key, st).value;
        if |r.kClosest| > |st.kClosest| {
          var y :| y in ks[1..] && PeerDistance(key)(x) < PeerDistance(key)(y);
          assert y in ks;
        }
      }
    }
  }

  /** The second phase appends only contacts of the reply, each strictly
      closer to the key than some member of the k-closest list it produces;
      every appended contact also takes an entry off the reply. */
  lemma {:induction false} RoundsAppendCloser(xs: seq<Peer>, key: Key, st: Lists)
    requires Rounds(xs, key, st).Some?
    ensures var r := Rounds(xs, key, st).value;
      && st.kClosest <= r.kClosest
      && |r.kClosest| - |st.kClosest| == |st.toInsert| - |r.toInsert| == |r.localVisit| - |st.localVisit|
      && (forall i :: |st.kClosest| <= i < |r.kClosest| ==>
            r.kClosest[i] in xs && exists y :: y in r.kClosest && PeerDistance(key)(r.kClosest[i]) < PeerDistance(key)(y))
    decreases |xs|
  {
    if xs != [] {
      var next := Scan(xs[0], st.kClosest, key, st).value;
      ScanAppends(xs[0], st.kClosest, key, st);
      RoundsAppendCloser(xs[1..], key, next);
      var r := Rounds(xs, key, st).value;
      assert r == Rounds(xs[1..], key, next).value;
      forall i | |st.kClosest| <= i < |r.kClosest|
        ensures r.kClosest[i] in xs && exists y :: y in r.kClosest && PeerDistance(key)(r.kClosest[i]) < PeerDistance(key)(y)
      {
        if i < |next.kClosest| {
          assert next.kClosest[i] == r.kClosest[i];
          assert next.kClosest[i] == xs[0];
          var y :| y in st.kClosest && PeerDistance(key)(xs[0]) < PeerDistance(key)(y);
          var k :| 0 <= k < |st.kClosest| && st.kClosest[k] == y;
          assert r.kClosest[k] == y;
        } else {
          assert r.kClosest[i] in xs[1..];
        }
      }
    }
  }

  /** Once the reply outgrows the free places, a merge that does not panic
      leaves both lists sorted by distance to the key and at most K long, and
      reports no progress: `!prev_len` is at least 2^63 while the reply, a
      `Vec`, is shorter than that. */
  lemma SecondPhaseSortsAndFails(kClosest: seq<Peer>, localVisit: seq<Peer>, closest: seq<Peer>, key: Key)
    requires |closest| < 0x8000_0000_0000_0000
    requires closest != [] && |kClosest| + |closest| > Buckets.K
    ensures var r := MergeReply(kClosest, localVisit, closest, key);
      r.Merged? ==>
        && SortedBy(r.kClosest, PeerDistance(key)) && |r.kClosest| <= Buckets.K
        && SortedBy(r.localVisit, PeerDistance(key)) && |r.localVisit| <= Buckets.K
        && !r.success
  {
    var filled := Fill(Lists(kClosest, localVisit, closest));
    FillSpec(Lists(kClosest, localVisit, closest), Moved(|kClosest|, |closest|));
    if filled.toInsert != [] && Rounds(filled.toInsert, key, filled).Some? {
      var st := Rounds(filled.toInsert, key, filled).value;
      RoundsAppendCloser(filled.toInsert, key, filled);
      TruncateSorted(SortBy(st.kClosest, PeerDistance(key)), Buckets.K, PeerDistance(key));
      TruncateSorted(SortBy(st.localVisit, PeerDistance(key)), Buckets.K, PeerDistance(key));
    }
  }

  /** Every contact the merge leaves in the k-closest list was there before
      or came with the reply. */
  lemma MergeProvenance(kClosest: seq<Peer>, localVisit: seq<Peer>, closest: seq<Peer>, key: Key, c: Peer)
    requires |closest| < TwoTo64
    requires var r := MergeReply(kClosest, localVisit, closest, key); r.Merged? && c in r.kClosest
    ensures c in kClosest || c in closest
  {
    var filled := Fill(Lists(kClosest, localVisit, closest));
    FillMembers(Lists(kClosest, localVisit, closest));
    if filled.toInsert != [] {
      var st := Rounds(filled.toInsert, key, filled).value;
      TruncatedSortMembers(st.kClosest, PeerDistance(key), c);
      RoundsMembers(filled.toInsert, key, filled, c);
    }
  }

  /** The filling loop only moves contacts from the reply to the lists. */
  lemma FillMembers(st: Lists)
    ensures forall c :: c in Fill(st).kClosest ==> c in st.kClosest || c in st.toInsert
    ensures forall c :: c in Fill(st).toInsert ==> c in st.toInsert
  {
    var n := Moved(|st.kClosest|, |st.toInsert|);
    FillSpec(st, n);
    var m := |st.toInsert|;
    ReversedMembers(st.toInsert[m - n..]);
    assert forall y :: y in st.toInsert[m - n..] ==> y in st.toInsert;
    assert forall y :: y in st.toInsert[..m - n] ==> y in st.toInsert;
  }

  /** The second phase only adds contacts of the remaining reply. */
  lemma RoundsMembers(xs: seq<Peer>, key: Key, st: Lists, c: Peer)
    requires Rounds(xs, key, st).Some? && c in Rounds(xs, key, st).value.kClosest
    ensures c in st.kClosest || c in xs
  {
    var r := Rounds(xs, key, st).value;
    RoundsAppendCloser(xs, key, st);
    var i :| 0 <= i < |r.kClosest| && r.kClosest[i] == c;
    if i < |st.kClosest| {
      assert st.kClosest[i] == c;
    }
  }

  /** Sorting and truncating keeps only elements of the list. */
  lemma TruncatedSortMembers<T>(s: seq<T>, key: T -> int, c: T)
    requires c in Truncate(SortBy(s, key), Buckets.K)
    ensures c in s
  {
    assert c in SortBy(s, key);
    assert c in multiset(SortBy(s, key));
  }

  lemma {:induction false} ReversedMembers<T>(s: seq<T>)
    ensures forall y :: y in Reversed(s) <==> y in s
  {
    if s != [] {
      ReversedMembers(s[..|s| - 1]);
      assert s == s[..|s| - 1] + [s[|s| - 1]];
    }
  }

  // ---------------------------------------------------------------------------
  // The shared state of a lookup.

  /** `FNodeManager`: the k-closest list, the stack of nodes to visit and the
      set of visited identifiers, shared by the parallel lookups. */
  class FNodeManager {
    var kClosest: seq<Peer>
    var nodesToVisit: seq<Peer>
    var visitedNodes: set<Key>

    constructor (kClosest0: seq<Peer>, nodesToVisit0: seq<Peer>, visitedNodes0: set<Key>)
      ensures kClosest == kClosest0 && nodesToVisit == nodesToVisit0 && visitedNodes == visitedNodes0
    {
      kClosest := kClosest0;
      nodesToVisit := nodesToVisit0;
      visitedNodes := visitedNodes0;
    }

    /** `pop_ntv`: the last node to visit, removed, or `None` when there is none. */
    method PopNtv() returns (r: Option<Peer>)
      modifies this
      ensures old(nodesToVisit) == [] ==> r == None && nodesToVisit == []
      ensures old(nodesToVisit) != [] ==>
        r == Some(old(nodesToVisit)[|old(nodesToVisit)| - 1]) && nodesToVisit + [r.value] == old(nodesToVisit)
      ensures kClosest == old(kClosest) && visitedNodes == old(visitedNodes)
    {
      if nodesToVisit == [] {
        return None;
      }
      r := Some(nodesToVisit[|nodesToVisit| - 1]);
      nodesToVisit := nodesToVisit[..|nodesToVisit| - 1];
    }

    /** `contains_vn`. */
    predicate ContainsVn(id: Key)
      reads this
    {
      id in visitedNodes
    }

    /** `insert_vn`: `HashSet::insert`, true exactly when the identifier was
        not visited yet; afterwards it is. */
    method InsertVn(id: Key) returns (added: bool)
      modifies this
      ensures added <==> !old(ContainsVn(id))
      ensures ContainsVn(id) && visitedNodes == old(visitedNodes) + {id}
      ensures kClosest == old(kClosest) && nodesToVisit == old(nodesToVisit)
    {
      added := id !in visitedNodes;
      visitedNodes := visitedNodes + {id};
    }
  }

  // ---------------------------------------------------------------------------
  // Contact conversion.

  /** `k.port as u16`: the low 16 bits of the 32-bit port. */
  function PortOf(port: i32): (p: u16)
    ensures 0 <= port as int < 0x1_0000 ==> p as int == port as int
  {
    (port as int % 0x1_0000) as u16
  }

  /** The converter closure of `contact_list`; `Key::from_vec` needs 32 bytes. */
  function FromKcontact(k: Kcontact): Peer
    requires |k.uid| == 32
  {
    Peer(FromVec(k.uid), k.ip, PortOf(k.port))
  }

  /** `format_kcontact` of client.rs: the identifier's bytes, the ip, and
      the port widened to `i32`. */
  function ToKcontact(p: Peer): (k: Kcontact)
    ensures |k.uid| == 32
  {
    Kcontact(AsBytes(p.uid), p.ip, p.port as int as i32)
  }

  /** `contact_list`: the converter applied to every element, in order. */
  function ContactList(ks: seq<Kcontact>): (r: seq<Peer>)
    requires forall i :: 0 <= i < |ks| ==> |ks[i].uid| == 32
    ensures |r| == |ks|
    ensures forall i :: 0 <= i < |ks| ==> r[i] == FromKcontact(ks[i])
  {
    if ks == [] then [] else [FromKcontact(ks[0])] + ContactList(ks[1..])
  }

  /** Converting contacts to the wire form and back with `contact_list`
      gives them back unchanged. */
  lemma ContactListRoundTrip(ps: seq<Peer>)
    ensures var ks := seq(|ps|, i requires 0 <= i < |ps| => ToKcontact(ps[i]));
      (forall i :: 0 <= i < |ks| ==> |ks[i].uid| == 32) && ContactList(ks) == ps
  {
    var ks := seq(|ps|, i requires 0 <= i < |ps| => ToKcontact(ps[i]));
    assert forall i :: 0 <= i < |ks| ==> |ks[i].uid| == 32;
    var r := ContactList(ks);
    forall i | 0 <= i < |ps| ensures r[i] == ps[i] {
      assert ks[i] == ToKcontact(ps[i]);
    }
  }

  /** A negative port on the wire wraps around: -1 becomes 65535. */
  lemma PortWraps()
    ensures PortOf(-1) == 65535
  {
  }
}
