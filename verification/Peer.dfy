/** The peer's bookkeeping as it stands in memory: a map, and a Go slice over a backing array of which a reader
    may hold a copied header. */
module Peer {
  import opened Base
  import opened Membership

  /** A slice header copied under the read lock, with the elements it had then. */
  datatype Snapshot = Snapshot(arr: array<PeerInfo>, len: nat, elements: seq<PeerInfo>)

  /** The capacity of the channel `changes`. */
  const CHANGES := 16

  /** A change is signalled unless the channel is full. */
  function Notified(changes: nat): (r: nat)
    ensures r == changes || r == changes + 1
    ensures r == changes <==> changes >= 16
  {
    if changes < CHANGES then changes + 1 else changes
  }

  class Peer {
    var peers: map<bytes, PeerInfo>
    /** failedPeers: the first `len` elements of `backing`, whose length is the slice's capacity. */
    var backing: array<PeerInfo>
    var len: nat
    var changes: nat
    var joins: nat
    var leaves: nat
    var updates: nat
    ghost var expired: set<bytes>
    /** Every header that a reader may still hold. */
    ghost var held: set<Snapshot>

    /** Each copied slice still has its elements, and what will next be written lies outside it. */
    ghost predicate Valid()
      reads this, backing, set s | s in held :: s.arr
    {
      len <= backing.Length && changes <= CHANGES && Intact() && forall s :: s in held ==> Clear(s)
    }

    /** Each copied slice still has its elements. This says nothing of the peer's other fields, and so may hold in the
        middle of a method as well as between methods. */
    ghost predicate Intact()
      reads this, set s | s in held :: s.arr
    {
      forall s :: s in held ==> s.len <= s.arr.Length && s.arr[..s.len] == s.elements
    }

    ghost predicate Clear(s: Snapshot)
      reads this
    {
      s.arr == backing ==> s.len <= len
    }

    ghost function State(): Members
      requires len <= backing.Length
      reads this, backing
    {
      Members(peers, backing[..len], expired)
    }

    constructor ()
      ensures Valid() && State() == NO_MEMBERS && held == {}
    {
      peers, len, changes, joins, leaves, updates := map[], 0, 0, 0, 0, 0;
      backing := new PeerInfo[0];
      expired, held := {}, {};
    }

    /** The one store into an array that a reader may hold: behind the end of the list, whose length still is what it
        was. Every other store of this class is into one of its fields or into an array it has just made. */
    method StoreBehind(pr: PeerInfo)
      requires Valid() && len < backing.Length
      modifies backing
      ensures Valid() && backing[len] == pr
      ensures forall i :: 0 <= i < backing.Length && i != len ==> backing[i] == old(backing[i])
    {
      backing[len] := pr;
      forall s | s in held
        ensures s.len <= s.arr.Length && s.arr[..s.len] == s.elements
      {
        assert old(s.arr[..s.len]) == s.elements && Clear(s);
        assert s.arr[..s.len] == old(s.arr[..s.len]);
      }
    }

    /** `append(p.failedPeers, pr)`: in place while the capacity lasts, else into a larger array. */
    method Append(pr: PeerInfo)
      requires Valid()
      modifies this`backing, this`len, backing
      ensures Valid() && backing[..len] == old(backing[..len]) + [pr]
      ensures backing == old(backing) || fresh(backing)
    {
      if len == backing.Length {
        var grown := new PeerInfo[2 * len + 1];
        forall i | 0 <= i < len { grown[i] := backing[i]; }
        grown[len] := pr;
        assert grown[..len] == backing[..len];
        assert grown[..len + 1] == grown[..len] + [pr];
        backing := grown;
      } else {
        StoreBehind(pr);
        assert backing[..len + 1] == old(backing[..len]) + [pr];
      }
      len := len + 1;
    }

    /** `select { case p.changes <- struct{}{}: default: }`. */
    method Notify()
      requires Valid()
      modifies this`changes
      ensures Valid() && changes == Notified(old(changes))
    {
      if changes < CHANGES { changes := changes + 1; }
    }

    /** `setInitialFailed`. */
    method SetInitialFailed(seeds: seq<Seed>, myAddr: bytes, now: int)
      requires Valid()
      modifies this`peers, this`backing, this`len, backing
      ensures Valid() && State() == SeedAll(old(State()), seeds, myAddr, now)
      ensures held == old(held)
    {
      assert seeds[0..] == seeds;
      for i := 0 to |seeds|
        invariant Valid() && held == old(held) && (backing == old(backing) || fresh(backing))
        invariant SeedAll(State(), seeds[i..], myAddr, now) == SeedAll(old(State()), seeds, myAddr, now)
      {
        assert seeds[i..][0] == seeds[i] && seeds[i..][1..] == seeds[i + 1..];
        if seeds[i].text != myAddr && seeds[i].parsed.Some? {
          var pr := PeerInfo(StatusFailed, now, Node([], seeds[i].parsed.value));
          Append(pr);
          peers := peers[seeds[i].text := pr];
        }
      }
    }

    /** `peerJoin`. */
    method PeerJoin(n: Node)
      requires Valid()
      modifies this
      ensures Valid() && State() == Join(old(State()), n) && held == old(held)
      ensures joins == old(joins) + 1 && leaves == old(leaves) && updates == old(updates)
      ensures changes == Notified(old(changes))
    {
      var pr := PeerInfo(StatusAlive, ZERO_TIME, n);
      var oldStatus := StatusNone;
      if n.address in peers {
        oldStatus := peers[n.address].status;
        pr := peers[n.address].(node := n, status := StatusAlive, leaveTime := ZERO_TIME);
      }
      peers := peers[n.address := pr];
      joins := joins + 1;
      expired := expired - {n.address};
      if oldStatus.StatusFailed? {
        var arr, k := RemoveOldPeer(backing, len, pr.node.address);
        backing, len := arr, k;
      }
      Notify();
    }

    /** `peerLeave`. */
    method PeerLeave(n: Node, now: int)
      requires Valid()
      modifies this, backing
      ensures Valid() && State() == Leave(old(State()), n, now) && held == old(held)
      ensures leaves == old(leaves) + (if n.address in old(peers) then 1 else 0)
      ensures joins == old(joins) && updates == old(updates)
      ensures changes == if n.address in old(peers) then Notified(old(changes)) else old(changes)
    {
      if n.address !in peers { return; }
      var pr := peers[n.address].(status := StatusFailed, leaveTime := now);
      Append(pr);
      peers := peers[n.address := pr];
      leaves := leaves + 1;
      Notify();
    }

    /** `peerUpdate`. */
    method PeerUpdate(n: Node)
      requires Valid()
      modifies this
      ensures Valid() && State() == Update(old(State()), n) && held == old(held)
      ensures updates == old(updates) + (if n.address in old(peers) then 1 else 0)
      ensures joins == old(joins) && leaves == old(leaves)
      ensures changes == if n.address in old(peers) then Notified(old(changes)) else old(changes)
    {
      if n.address !in peers { return; }
      peers := peers[n.address := peers[n.address].(node := n)];
      updates := updates + 1;
      Notify();
    }

    /** `removeFailedPeers`. */
    method RemoveFailedPeers(timeout: int, now: int)
      requires Valid()
      modifies this`peers, this`backing, this`len, this`expired
      ensures Valid() && State() == Expire(old(State()), timeout, now)
    {
      hide Kept, Expired, ExpiredNames, ExpiredAddresses;
      ghost var all := backing[..len];
      var keep := new PeerInfo[len];
      var k, i := 0, 0;
      SweepNone(timeout, now);
      while i < len
        invariant 0 <= k <= i <= len && Valid() && fresh(keep) && expired == old(expired)
        invariant backing == old(backing) && len == old(len) && backing[..len] == all
        invariant keep[..k] == Kept(all[..i], timeout, now)
        invariant peers == old(peers) - ExpiredNames(all[..i], timeout, now)
      {
        var pr := backing[i];
        assert pr == all[i];
        SweepOne(all, i, timeout, now);
        if !Expired(pr, timeout, now) {
          keep[k] := pr;
          k := k + 1;
          assert keep[..k] == keep[..k - 1] + [pr];
        } else {
          peers := peers - {pr.node.name};
        }
        i := i + 1;
      }
      assert all[..len] == all;
      expired := expired + ExpiredAddresses(all, timeout, now);
      backing, len := keep, k;
    }

    // ---- the reader ----

    /** The head of `reconnect`: the slice header is copied, not the elements. */
    method CopyFailedPeers() returns (s: Snapshot)
      requires Valid()
      modifies this`held
      ensures Valid() && held == old(held) + {s} && s.elements == State().failed && |s.elements| == s.len
    {
      s := Snapshot(backing, len, backing[..len]);
      held := held + {s};
    }

    /** One turn of the loop in `reconnect`, which holds no lock: however many events have come in since the copy was
        made, and if one is being handled, the element is the one that was listed then. */
    method ReadCopy(s: Snapshot, i: nat) returns (pr: PeerInfo)
      requires Intact() && s in held && i < s.len
      ensures |s.elements| == s.len && pr == s.elements[i]
    {
      pr := s.arr[i];
      assert pr == s.arr[..s.len][i];
    }
  }

  /** `removeOldPeer`: always into a new array. */
  method RemoveOldPeer(old_: array<PeerInfo>, n: nat, addr: bytes) returns (arr: array<PeerInfo>, k: nat)
    requires n <= old_.Length
    ensures fresh(arr) && k <= arr.Length == n && arr[..k] == Without(old_[..n], addr)
  {
    arr := new PeerInfo[n];
    k := 0;
    for i := 0 to n
      invariant k <= i && arr[..k] == Without(old_[..i], addr)
    {
      assert old_[..i + 1][..i] == old_[..i];
      if old_[i].node.address != addr {
        arr[k] := old_[i];
        k := k + 1;
        assert arr[..k] == arr[..k - 1] + [old_[i]];
      }
    }
  }
}
