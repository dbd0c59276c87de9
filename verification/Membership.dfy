/** The bookkeeping of cluster members: what each event does to the map of peers and the list of failed ones. */
module Membership {
  import opened Base

  /** A node as memberlist announces it; `address` is its host and port in canonical form. */
  datatype Node = Node(name: bytes, address: bytes)

  datatype PeerStatus = StatusNone | StatusAlive | StatusFailed

  datatype PeerInfo = PeerInfo(status: PeerStatus, leaveTime: int, node: Node)

  /** A configured peer, and the address of its IP and port when it is made of these. */
  datatype Seed = Seed(text: bytes, parsed: Option<bytes>)

  /** `expired` is history: the addresses of the peers that were failed when they were last dropped. */
  datatype Members = Members(peers: map<bytes, PeerInfo>, failed: seq<PeerInfo>, expired: set<bytes>)

  const NO_MEMBERS := Members(map[], [], {})
  const ZERO_TIME := 0

  // ---- the events ----

  function SeedOne(m: Members, seed: Seed, myAddr: bytes, now: int): Members {
    if seed.text == myAddr || seed.parsed.None? then m
    else
      var pr := PeerInfo(StatusFailed, now, Node([], seed.parsed.value));
      Members(m.peers[seed.text := pr], m.failed + [pr], m.expired)
  }

  function SeedAll(m: Members, seeds: seq<Seed>, myAddr: bytes, now: int): Members
    decreases |seeds|
  {
    if seeds == [] then m else SeedAll(SeedOne(m, seeds[0], myAddr, now), seeds[1..], myAddr, now)
  }

  /** `removeOldPeer`. */
  function Without(ps: seq<PeerInfo>, addr: bytes): seq<PeerInfo>
    decreases |ps|
  {
    if ps == [] then []
    else Without(ps[..|ps| - 1], addr) + (if ps[|ps| - 1].node.address == addr then [] else [ps[|ps| - 1]])
  }

  function Join(m: Members, n: Node): Members {
    var pr := PeerInfo(StatusAlive, ZERO_TIME, n);
    var rejoined := n.address in m.peers && m.peers[n.address].status.StatusFailed?;
    Members(m.peers[n.address := pr], if rejoined then Without(m.failed, n.address) else m.failed,
            m.expired - {n.address})
  }

  function Leave(m: Members, n: Node, now: int): Members {
    if n.address !in m.peers then m
    else
      var pr := m.peers[n.address].(status := StatusFailed, leaveTime := now);
      Members(m.peers[n.address := pr], m.failed + [pr], m.expired)
  }

  function Update(m: Members, n: Node): Members {
    if n.address !in m.peers then m
    else m.(peers := m.peers[n.address := m.peers[n.address].(node := n)])
  }

  predicate Expired(pr: PeerInfo, timeout: int, now: int) {
    pr.leaveTime + timeout <= now
  }

  function Kept(ps: seq<PeerInfo>, timeout: int, now: int): seq<PeerInfo>
    decreases |ps|
  {
    if ps == [] then []
    else
      var last := ps[|ps| - 1];
      Kept(ps[..|ps| - 1], timeout, now) + (if Expired(last, timeout, now) then [] else [last])
  }

  /** The map is keyed by address, but what is deleted from it is the entry under the peer's name. */
  function Expire(m: Members, timeout: int, now: int): Members {
    Members(m.peers - ExpiredNames(m.failed, timeout, now), Kept(m.failed, timeout, now),
            m.expired + ExpiredAddresses(m.failed, timeout, now))
  }

  function ExpiredNames(ps: seq<PeerInfo>, timeout: int, now: int): set<bytes> {
    set pr | pr in ps && Expired(pr, timeout, now) :: pr.node.name
  }

  function ExpiredAddresses(ps: seq<PeerInfo>, timeout: int, now: int): set<bytes> {
    set pr | pr in ps && Expired(pr, timeout, now) :: pr.node.address
  }

  /** One turn of the sweep. */
  lemma SweepOne(ps: seq<PeerInfo>, i: nat, timeout: int, now: int)
    requires i < |ps|
    ensures var pr := ps[i];
            var gone := Expired(pr, timeout, now);
            && Kept(ps[..i + 1], timeout, now) == Kept(ps[..i], timeout, now) + (if gone then [] else [pr])
            && ExpiredNames(ps[..i + 1], timeout, now)
            == ExpiredNames(ps[..i], timeout, now) + (if gone then {pr.node.name} else {})
            && ExpiredAddresses(ps[..i + 1], timeout, now)
            == ExpiredAddresses(ps[..i], timeout, now) + (if gone then {pr.node.address} else {})
  {
    assert ps[..i + 1][..i] == ps[..i];
    assert forall q :: q in ps[..i + 1] <==> q in ps[..i] || q == ps[i];
  }

  lemma SweepNone(timeout: int, now: int)
    ensures Kept([], timeout, now) == []
    ensures ExpiredNames([], timeout, now) == {} && ExpiredAddresses([], timeout, now) == {}
  {
  }

  // ---- the invariant ----

  /** An address has a colon between host and port; a name is a ULID and has none. */
  predicate ProperNode(n: Node) {
    58 in n.address && 58 !in n.name
  }

  predicate ProperSeed(s: Seed) {
    58 in s.text && (s.parsed.Some? ==> s.parsed.value == s.text)
  }

  predicate ListedAsFailed(m: Members, pr: PeerInfo) {
    pr.node.address in m.peers && m.peers[pr.node.address].status.StatusFailed?
  }

  predicate ByLeaveTime(ps: seq<PeerInfo>, clock: int) {
    && (forall i, j :: 0 <= i < j < |ps| ==> ps[i].leaveTime <= ps[j].leaveTime)
    && (forall i :: 0 <= i < |ps| ==> ps[i].leaveTime <= clock)
  }

  /** Every listed peer has a Failed record under its address; every Failed record is of a listed or an expired
      peer; the list is in the order of leaving; names and addresses are told apart. */
  ghost predicate Inv(m: Members, clock: int) {
    AllListed(m) && AllAccounted(m) && Addressed(m) && ByLeaveTime(m.failed, clock)
  }

  ghost predicate AllListed(m: Members) {
    forall i :: 0 <= i < |m.failed| ==> ListedAsFailed(m, m.failed[i]) && ProperNode(m.failed[i].node)
  }

  ghost predicate AllAccounted(m: Members) {
    forall a :: a in m.peers && m.peers[a].status.StatusFailed? ==>
      a in m.expired || exists i :: 0 <= i < |m.failed| && m.failed[i].node.address == a
  }

  ghost predicate Addressed(m: Members) {
    forall a :: a in m.peers ==> m.peers[a].node.address == a && ProperNode(m.peers[a].node)
  }

  lemma SeedOneKeeps(m: Members, seed: Seed, myAddr: bytes, clock: int, now: int)
    requires Inv(m, clock) && clock <= now && ProperSeed(seed)
    ensures Inv(SeedOne(m, seed, myAddr, now), now)
  {
    var m' := SeedOne(m, seed, myAddr, now);
    if m' != m {
      assert m'.failed[|m.failed|].node.address == seed.text;
      forall a | a in m'.peers && m'.peers[a].status.StatusFailed? && a !in m'.expired
        ensures exists i :: 0 <= i < |m'.failed| && m'.failed[i].node.address == a
      {
        if a != seed.text {
          var i :| 0 <= i < |m.failed| && m.failed[i].node.address == a;
          assert m'.failed[i] == m.failed[i];
        }
      }
    }
  }

  lemma {:induction false} SeedAllKeeps(m: Members, seeds: seq<Seed>, myAddr: bytes, clock: int, now: int)
    requires Inv(m, clock) && clock <= now && forall s :: s in seeds ==> ProperSeed(s)
    ensures Inv(SeedAll(m, seeds, myAddr, now), now)
    decreases |seeds|
  {
    if seeds != [] {
      assert seeds[0] in seeds;
      SeedOneKeeps(m, seeds[0], myAddr, clock, now);
      SeedAllKeeps(SeedOne(m, seeds[0], myAddr, now), seeds[1..], myAddr, now, now);
    }
  }

  /** What a filter keeps: the others, in order. */
  lemma {:induction false} WithoutIs(ps: seq<PeerInfo>, addr: bytes)
    ensures forall pr :: pr in Without(ps, addr) <==> pr in ps && pr.node.address != addr
    decreases |ps|
  {
    if ps != [] {
      var front, last := ps[..|ps| - 1], ps[|ps| - 1];
      WithoutIs(front, addr);
      assert forall pr :: pr in ps <==> pr in front || pr == last;
    }
  }

  lemma {:induction false} WithoutOrdered(ps: seq<PeerInfo>, addr: bytes, clock: int)
    requires ByLeaveTime(ps, clock)
    ensures ByLeaveTime(Without(ps, addr), clock)
    decreases |ps|
  {
    if ps != [] {
      var front, last := ps[..|ps| - 1], ps[|ps| - 1];
      WithoutOrdered(front, addr, clock);
      WithoutIs(front, addr);
      var w := Without(front, addr);
      forall i | 0 <= i < |w|
        ensures w[i].leaveTime <= last.leaveTime
      {
        assert w[i] in w && w[i] in front;
        var j :| 0 <= j < |front| && front[j] == w[i];
        assert ps[j] == w[i];
      }
    }
  }

  lemma JoinKeeps(m: Members, n: Node, clock: int)
    requires Inv(m, clock) && ProperNode(n)
    ensures Inv(Join(m, n), clock)
  {
    WithoutIs(m.failed, n.address);
    WithoutOrdered(m.failed, n.address, clock);
    var m' := Join(m, n);
    forall i | 0 <= i < |m'.failed|
      ensures ListedAsFailed(m', m'.failed[i]) && ProperNode(m'.failed[i].node)
    {
      assert m'.failed[i] in m'.failed && m'.failed[i] in m.failed;
      var j :| 0 <= j < |m.failed| && m.failed[j] == m'.failed[i];
      assert ListedAsFailed(m, m.failed[j]);
    }
    forall a | a in m'.peers && m'.peers[a].status.StatusFailed? && a !in m'.expired
      ensures exists i :: 0 <= i < |m'.failed| && m'.failed[i].node.address == a
    {
      var i :| 0 <= i < |m.failed| && m.failed[i].node.address == a;
      assert m.failed[i] in m.failed && m.failed[i] in m'.failed;
    }
  }

  lemma LeaveKeeps(m: Members, n: Node, clock: int, now: int)
    requires Inv(m, clock) && clock <= now
    ensures Inv(Leave(m, n, now), now)
  {
    var m' := Leave(m, n, now);
    if n.address in m.peers {
      assert m'.failed[|m.failed|].node.address == n.address;
      forall a | a in m'.peers && m'.peers[a].status.StatusFailed? && a !in m'.expired
        ensures exists i :: 0 <= i < |m'.failed| && m'.failed[i].node.address == a
      {
        if a != n.address {
          var i :| 0 <= i < |m.failed| && m.failed[i].node.address == a;
          assert m'.failed[i] == m.failed[i];
        }
      }
    }
  }

  lemma UpdateKeeps(m: Members, n: Node, clock: int)
    requires Inv(m, clock) && ProperNode(n)
    ensures Inv(Update(m, n), clock)
  {
    var m' := Update(m, n);
    forall i | 0 <= i < |m'.failed|
      ensures ListedAsFailed(m', m'.failed[i])
    {
      assert ListedAsFailed(m, m.failed[i]);
    }
  }

  // ---- expiry ----

  /** How many at the head of the list have expired. */
  function ExpiredHead(ps: seq<PeerInfo>, timeout: int, now: int): (k: nat)
    ensures k <= |ps|
    decreases |ps|
  {
    if ps == [] || !Expired(ps[0], timeout, now) then 0 else 1 + ExpiredHead(ps[1..], timeout, now)
  }

  lemma {:induction false} KeptAll(ps: seq<PeerInfo>, timeout: int, now: int)
    requires forall i :: 0 <= i < |ps| ==> !Expired(ps[i], timeout, now)
    ensures Kept(ps, timeout, now) == ps
    decreases |ps|
  {
    if ps != [] {
      KeptAll(ps[..|ps| - 1], timeout, now);
    }
  }

  lemma {:induction false} KeptAppend(ps: seq<PeerInfo>, qs: seq<PeerInfo>, timeout: int, now: int)
    ensures Kept(ps + qs, timeout, now) == Kept(ps, timeout, now) + Kept(qs, timeout, now)
    decreases |qs|
  {
    if qs == [] {
      assert ps + qs == ps;
    } else {
      assert (ps + qs)[..|ps + qs| - 1] == ps + qs[..|qs| - 1];
      KeptAppend(ps, qs[..|qs| - 1], timeout, now);
    }
  }

  /** In the order of leaving, expiry drops exactly a prefix: the expired at the head, and none behind them. */
  lemma {:induction false} ExpiryDropsPrefix(ps: seq<PeerInfo>, timeout: int, now: int, clock: int)
    requires ByLeaveTime(ps, clock)
    ensures var k := ExpiredHead(ps, timeout, now);
            && Kept(ps, timeout, now) == ps[k..]
            && (forall i :: 0 <= i < |ps| ==> (Expired(ps[i], timeout, now) <==> i < k))
    decreases |ps|
  {
    hide Kept, Expired;
    if ps != [] {
      LaterExpire(ps, timeout, now, clock);
      if Expired(ps[0], timeout, now) {
        KeptRest(ps, timeout, now);
        ExpiryDropsPrefix(ps[1..], timeout, now, clock);
        var k := ExpiredHead(ps[1..], timeout, now);
        assert ps[1..][k..] == ps[k + 1..];
        forall i | 0 < i < |ps|
          ensures Expired(ps[i], timeout, now) <==> i < k + 1
        {
          assert ps[i] == ps[1..][i - 1];
        }
      }
    }
    if ExpiredHead(ps, timeout, now) == 0 {
      KeptAll(ps, timeout, now);
      assert ps[0..] == ps;
    }
  }

  lemma LaterExpire(ps: seq<PeerInfo>, timeout: int, now: int, clock: int)
    requires ByLeaveTime(ps, clock) && ps != []
    ensures !Expired(ps[0], timeout, now) ==> forall i :: 0 <= i < |ps| ==> !Expired(ps[i], timeout, now)
    ensures ByLeaveTime(ps[1..], clock)
  {
  }

  lemma KeptRest(ps: seq<PeerInfo>, timeout: int, now: int)
    requires ps != [] && Expired(ps[0], timeout, now)
    ensures Kept(ps, timeout, now) == Kept(ps[1..], timeout, now)
  {
    KeptAppend([ps[0]], ps[1..], timeout, now);
    assert [ps[0]] + ps[1..] == ps && [ps[0]][..0] == [];
    assert Kept([ps[0]], timeout, now) == [];
  }

  /** What a sweep leaves, when it takes nothing out of the map. */
  lemma ExpireIs(m: Members, timeout: int, clock: int, now: int)
    requires Inv(m, clock) && clock <= now
    ensures var k := ExpiredHead(m.failed, timeout, now);
            && Expire(m, timeout, now).failed == m.failed[k..]
            && Expire(m, timeout, now).peers == m.peers
            && m.expired <= Expire(m, timeout, now).expired
            && (forall i :: 0 <= i < k ==> m.failed[i].node.address in Expire(m, timeout, now).expired)
  {
    hide Kept, Expired;
    ExpiryDropsPrefix(m.failed, timeout, now, clock);
    forall a | a in m.peers
      ensures a in Expire(m, timeout, now).peers
    {
      forall pr | pr in m.failed
        ensures pr.node.name != a
      {
        var i :| 0 <= i < |m.failed| && m.failed[i] == pr;
      }
    }
    assert forall i :: 0 <= i < |m.failed| ==> m.failed[i] in m.failed;
  }

  lemma SuffixOrdered(ps: seq<PeerInfo>, k: nat, clock: int, now: int)
    requires ByLeaveTime(ps, clock) && clock <= now && k <= |ps|
    ensures ByLeaveTime(ps[k..], now)
  {
  }

  lemma ExpireKeeps(m: Members, timeout: int, clock: int, now: int)
    requires Inv(m, clock) && clock <= now
    ensures Inv(Expire(m, timeout, now), now) && Expire(m, timeout, now).peers == m.peers
  {
    ExpireIs(m, timeout, clock, now);
    hide *;
    var k := ExpiredHead(m.failed, timeout, now);
    InvParts(m, clock);
    SuffixOrdered(m.failed, k, clock, now);
    SuffixListed(m, Expire(m, timeout, now), k);
    SuffixAccounted(m, Expire(m, timeout, now), k);
    InvParts(Expire(m, timeout, now), now);
  }

  /** Expired peers were to be forgotten. They are exactly when there are none: in a book in agreement every one of
      them stays in the map. */
  lemma ExpiredStay(m: Members, timeout: int, clock: int, now: int)
    requires Inv(m, clock) && clock <= now
    ensures forall pr :: pr in m.failed && Expired(pr, timeout, now) ==>
              pr.node.address in Expire(m, timeout, now).peers
    ensures (forall pr :: pr in m.failed && Expired(pr, timeout, now) ==>
               pr.node.address !in Expire(m, timeout, now).peers)
       <==> ExpiredHead(m.failed, timeout, now) == 0
  {
    hide Expired, Expire, ExpiredHead;
    ExpireKeeps(m, timeout, clock, now);
    ExpiryDropsPrefix(m.failed, timeout, now, clock);
    forall pr | pr in m.failed
      ensures pr.node.address in m.peers
    {
      var i :| 0 <= i < |m.failed| && m.failed[i] == pr;
      assert ListedAsFailed(m, m.failed[i]);
    }
    if ExpiredHead(m.failed, timeout, now) > 0 {
      assert m.failed[0] in m.failed && Expired(m.failed[0], timeout, now);
    }
  }

  lemma InvParts(m: Members, clock: int)
    ensures Inv(m, clock) <==> AllListed(m) && AllAccounted(m) && Addressed(m) && ByLeaveTime(m.failed, clock)
  {
  }

  lemma SuffixListed(m: Members, m': Members, k: nat)
    requires AllListed(m) && k <= |m.failed| && m'.failed == m.failed[k..] && m'.peers == m.peers
    ensures AllListed(m') && (Addressed(m) ==> Addressed(m'))
  {
    assert forall i :: 0 <= i < |m'.failed| ==> m'.failed[i] == m.failed[i + k];
  }

  lemma SuffixAccounted(m: Members, m': Members, k: nat)
    requires AllAccounted(m) && k <= |m.failed| && m'.failed == m.failed[k..] && m'.peers == m.peers
    requires m.expired <= m'.expired && forall i :: 0 <= i < k ==> m.failed[i].node.address in m'.expired
    ensures AllAccounted(m')
  {
    forall a | a in m'.peers && m'.peers[a].status.StatusFailed? && a !in m'.expired
      ensures exists i :: 0 <= i < |m'.failed| && m'.failed[i].node.address == a
    {
      var i :| 0 <= i < |m.failed| && m.failed[i].node.address == a;
      assert m'.failed[i - k] == m.failed[i];
    }
  }

  /** In a book in any state, expiry takes something out of the map exactly when the name of a dropped peer happens to
      be a key of it; and what it takes is the entry under that key. */
  lemma ExpiryForgetsExactly(m: Members, timeout: int, now: int)
    ensures Expire(m, timeout, now).peers != m.peers
       <==> exists pr :: pr in m.failed && Expired(pr, timeout, now) && pr.node.name in m.peers
  {
    var m' := Expire(m, timeout, now);
    if pr :| pr in m.failed && Expired(pr, timeout, now) && pr.node.name in m.peers {
      assert pr.node.name !in m'.peers;
    }
  }

  // ---- runs ----

  datatype Event =
    | Seeded(seeds: seq<Seed>, myAddr: bytes)
    | Joined(n: Node)
    | Left(n: Node)
    | Updated(n: Node)
    | Swept(timeout: int)

  predicate Proper(ev: Event) {
    match ev
    case Seeded(seeds, _) => forall s :: s in seeds ==> ProperSeed(s)
    case Joined(n) => ProperNode(n)
    case Left(n) => true
    case Updated(n) => ProperNode(n)
    case Swept(_) => true
  }

  function Apply(m: Members, ev: Event, now: int): Members {
    match ev
    case Seeded(seeds, myAddr) => SeedAll(m, seeds, myAddr, now)
    case Joined(n) => Join(m, n)
    case Left(n) => Leave(m, n, now)
    case Updated(n) => Update(m, n)
    case Swept(timeout) => Expire(m, timeout, now)
  }

  /** Events with their times, under a clock that does not go back. */
  ghost predicate Run(m: Members, clock: int, evs: seq<(Event, int)>, m': Members, clock': int)
    decreases |evs|
  {
    if evs == [] then m == m' && clock <= clock'
    else
      && Proper(evs[0].0) && clock <= evs[0].1
      && Run(Apply(m, evs[0].0, evs[0].1), evs[0].1, evs[1..], m', clock')
  }

  lemma ApplyKeeps(m: Members, clock: int, ev: Event, now: int)
    requires Inv(m, clock) && Proper(ev) && clock <= now
    ensures Inv(Apply(m, ev, now), now)
  {
    match ev {
      case Seeded(seeds, myAddr) => SeedAllKeeps(m, seeds, myAddr, clock, now);
      case Joined(n) => JoinKeeps(m, n, clock);
      case Left(n) => LeaveKeeps(m, n, clock, now);
      case Updated(n) => UpdateKeeps(m, n, clock);
      case Swept(timeout) => ExpireKeeps(m, timeout, clock, now);
    }
  }

  lemma {:induction false} RunKeeps(m: Members, clock: int, evs: seq<(Event, int)>, m': Members, clock': int)
    requires Inv(m, clock) && Run(m, clock, evs, m', clock')
    ensures Inv(m', clock')
    decreases |evs|
  {
    if evs != [] {
      ApplyKeeps(m, clock, evs[0].0, evs[0].1);
      RunKeeps(Apply(m, evs[0].0, evs[0].1), evs[0].1, evs[1..], m', clock');
    }
  }

  /** After any run from the start: an address is in the list exactly if its record is Failed and has not
      expired since, as far as listing goes; no Alive peer is listed; a sweep would drop a prefix of the list and
      take nothing out of the map. */
  lemma RunAgrees(clock: int, evs: seq<(Event, int)>, m: Members, now: int, timeout: int)
    requires Run(NO_MEMBERS, clock, evs, m, now)
    ensures forall i :: 0 <= i < |m.failed| ==> ListedAsFailed(m, m.failed[i])
    ensures forall a :: a in m.peers && m.peers[a].status.StatusAlive? ==>
              forall i :: 0 <= i < |m.failed| ==> m.failed[i].node.address != a
    ensures forall a :: a in m.peers && m.peers[a].status.StatusFailed? && a !in m.expired ==>
              exists i :: 0 <= i < |m.failed| && m.failed[i].node.address == a
    ensures Expire(m, timeout, now).failed == m.failed[ExpiredHead(m.failed, timeout, now)..]
    ensures Expire(m, timeout, now).peers == m.peers
  {
    RunKeeps(NO_MEMBERS, clock, evs, m, now);
    assert forall i :: 0 <= i < |m.failed| ==> ListedAsFailed(m, m.failed[i]);
    ExpiryDropsPrefix(m.failed, timeout, now, now);
    ExpireKeeps(m, timeout, now, now);
  }
}
