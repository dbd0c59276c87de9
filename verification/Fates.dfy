/** Which failed peers are listed, and which node a record carries, told from the history of events and their times. */
module Fates {
  import opened Base
  import opened Membership
  import opened History
  import opened Duplicates

  type Events = seq<(Event, int)>

  /** A run, told by its last event. */
  lemma {:induction false} LastEvent(m: Members, clock: int, evs: Events, m': Members, clock': int)
      returns (u: Members)
    requires Run(m, clock, evs, m', clock') && evs != []
    ensures var (ev, now) := evs[|evs| - 1];
            && Run(m, clock, evs[..|evs| - 1], u, now) && Proper(ev) && now <= clock'
            && m' == Apply(u, ev, now)
    decreases |evs|
  {
    hide Apply, Proper;
    ProperFirst(m, clock, evs, m', clock');
    if |evs| == 1 {
      u := m;
      assert evs[1..] == [];
    } else {
      var rest := evs[1..];
      assert rest[|rest| - 1] == evs[|evs| - 1];
      u := LastEvent(Apply(m, evs[0].0, evs[0].1), evs[0].1, rest, m', clock');
      assert evs[..|evs| - 1][1..] == rest[..|rest| - 1];
    }
  }

  // ---- who is listed ----

  /** The k-th event makes the address fail: it is seeded, or leaves when it is known. */
  ghost predicate FailsAt(evs: Events, k: nat, a: bytes)
    requires k < |evs|
  {
    Seeds(evs[k].0, a) || (evs[k].0.Left? && evs[k].0.n.address == a && Introduced(evs[..k], a))
  }

  /** An event after which a peer that failed at time `t` still waits: it does not join, and no sweep finds its
      timeout over. */
  predicate Spares(ev: Event, now: int, a: bytes, t: int) {
    !Joins(ev, a) && (ev.Swept? ==> now < t + ev.timeout)
  }

  ghost predicate Waits(evs: Events, k: nat, a: bytes)
    requires k < |evs|
  {
    forall j :: k < j < |evs| ==> Spares(evs[j].0, evs[j].1, a, evs[k].1)
  }

  /** Some event at time `t` made the address fail, and it waits since. */
  ghost predicate Failed(evs: Events, a: bytes, t: int) {
    exists k :: 0 <= k < |evs| && FailsAt(evs, k, a) && Waits(evs, k, a) && evs[k].1 == t
  }

  ghost predicate Entered(ps: seq<PeerInfo>, a: bytes, t: int) {
    exists i :: 0 <= i < |ps| && ps[i].node.address == a && ps[i].leaveTime == t
  }

  lemma EnteredMore(ps: seq<PeerInfo>, pr: PeerInfo, a: bytes, t: int)
    ensures Entered(ps + [pr], a, t) <==> Entered(ps, a, t) || (pr.node.address == a && pr.leaveTime == t)
  {
    var qs := ps + [pr];
    assert qs[|ps|] == pr && forall i :: 0 <= i < |ps| ==> qs[i] == ps[i];
  }

  lemma {:induction false} SeedsEnter(m: Members, seeds: seq<Seed>, myAddr: bytes, now: int, a: bytes, t: int)
    requires forall s :: s in seeds ==> ProperSeed(s)
    ensures Entered(SeedAll(m, seeds, myAddr, now).failed, a, t)
       <==> Entered(m.failed, a, t) || (SomeTaken(seeds, myAddr, a) && t == now)
    decreases |seeds|
  {
    if seeds != [] {
      assert seeds[0] in seeds;
      var u := SeedOne(m, seeds[0], myAddr, now);
      SeedsEnter(u, seeds[1..], myAddr, now, a, t);
      FirstTaken(seeds, myAddr, a);
      if u != m {
        EnteredMore(m.failed, u.failed[|m.failed|], a, t);
      }
    }
  }

  lemma {:induction false} KeptIs(ps: seq<PeerInfo>, timeout: int, now: int)
    ensures forall pr :: pr in Kept(ps, timeout, now) <==> pr in ps && now < pr.leaveTime + timeout
    decreases |ps|
  {
    if ps != [] {
      var front, last := ps[..|ps| - 1], ps[|ps| - 1];
      KeptIs(front, timeout, now);
      assert forall pr :: pr in ps <==> pr in front || pr == last;
    }
  }

  lemma EnteredIn(ps: seq<PeerInfo>, a: bytes, t: int)
    ensures Entered(ps, a, t) <==> exists pr :: pr in ps && pr.node.address == a && pr.leaveTime == t
  {
    if pr :| pr in ps && pr.node.address == a && pr.leaveTime == t {
      var i :| 0 <= i < |ps| && ps[i] == pr;
    }
  }

  /** What one event does to the entries of an address. */
  lemma {:induction false} StepEnters(u: Members, clock: int, ev: Event, now: int, a: bytes, t: int)
    requires Inv(u, clock) && clock <= now && Proper(ev)
    ensures Entered(Apply(u, ev, now).failed, a, t)
       <==> ((Entered(u.failed, a, t) && Spares(ev, now, a, t))
             || (t == now && (Seeds(ev, a) || (ev.Left? && ev.n.address == a && a in u.peers))))
  {
    EnteredIn(u.failed, a, t);
    EnteredIn(Apply(u, ev, now).failed, a, t);
    match ev {
      case Seeded(seeds, myAddr) => SeedsEnter(u, seeds, myAddr, now, a, t);
      case Joined(n) =>
        WithoutIs(u.failed, n.address);
        NotListed(u, clock, n.address);
      case Left(n) =>
        if n.address in u.peers {
          EnteredMore(u.failed, u.peers[n.address].(status := StatusFailed, leaveTime := now), a, t);
        }
      case Updated(n) =>
      case Swept(timeout) => KeptIs(u.failed, timeout, now);
    }
  }

  /** Who has no Failed record is not listed. */
  lemma NotListed(u: Members, clock: int, a: bytes)
    requires Inv(u, clock)
    ensures a !in u.peers || !u.peers[a].status.StatusFailed? ==>
              forall pr :: pr in u.failed ==> pr.node.address != a
  {
    forall pr | pr in u.failed && pr.node.address == a
      ensures a in u.peers && u.peers[a].status.StatusFailed?
    {
      var i :| 0 <= i < |u.failed| && u.failed[i] == pr;
      assert ListedAsFailed(u, u.failed[i]);
    }
  }

  lemma {:induction false} FrontFails(evs: Events, k: nat, a: bytes)
    requires k < |evs| - 1
    ensures FailsAt(evs[..|evs| - 1], k, a) <==> FailsAt(evs, k, a)
    ensures TellsNode(evs[..|evs| - 1], k, a) <==> TellsNode(evs, k, a)
  {
    hide Seeds, Introduced, Introduces;
    assert evs[..|evs| - 1][..k] == evs[..k];
  }

  lemma {:induction false} FrontWaits(evs: Events, k: nat, a: bytes)
    requires k < |evs| - 1
    ensures var (ev, now) := evs[|evs| - 1];
            Waits(evs, k, a) <==> Waits(evs[..|evs| - 1], k, a) && Spares(ev, now, a, evs[k].1)
  {
    hide Spares;
    var front := evs[..|evs| - 1];
    assert forall j :: k < j < |front| ==> front[j] == evs[j];
  }

  lemma {:induction false} FailedLast(evs: Events, a: bytes, t: int)
    requires evs != []
    ensures var n := |evs| - 1;
            Failed(evs, a, t) <==>
              (Failed(evs[..n], a, t) && Spares(evs[n].0, evs[n].1, a, t)) || (FailsAt(evs, n, a) && evs[n].1 == t)
  {
    hide Spares, FailsAt;
    var n := |evs| - 1;
    var front := evs[..n];
    assert Waits(evs, n, a);
    hide Waits;
    forall k | 0 <= k < n
      ensures FailsAt(front, k, a) <==> FailsAt(evs, k, a)
      ensures Waits(evs, k, a) <==> Waits(front, k, a) && Spares(evs[n].0, evs[n].1, a, evs[k].1)
      ensures front[k] == evs[k]
    {
      FrontFails(evs, k, a);
      FrontWaits(evs, k, a);
    }
  }

  lemma {:induction false} EntriesTold(clock: int, evs: Events, m: Members, now: int, a: bytes, t: int)
    requires Run(NO_MEMBERS, clock, evs, m, now)
    ensures Entered(m.failed, a, t) <==> Failed(evs, a, t)
    decreases |evs|
  {
    hide Inv, Apply, Entered, Failed, Spares, Proper, Seeds, Introduced;
    if evs == [] {
      NoEntries(a, t);
    } else {
      var n := |evs| - 1;
      var u := LastEvent(NO_MEMBERS, clock, evs, m, now);
      hide Run;
      EntriesTold(clock, evs[..n], u, evs[n].1, a, t);
      EmptyKept(clock);
      RunKeeps(NO_MEMBERS, clock, evs[..n], u, evs[n].1);
      StepEnters(u, evs[n].1, evs[n].0, evs[n].1, a, t);
      RecordTold(clock, evs[..n], u, evs[n].1, a);
      FailedLast(evs, a, t);
    }
  }

  lemma EmptyKept(clock: int)
    ensures Inv(NO_MEMBERS, clock)
  {
  }

  lemma NoEntries(a: bytes, t: int)
    ensures !Entered(NO_MEMBERS.failed, a, t) && !Failed([], a, t)
  {
  }

  /** In every run from the start an address is listed exactly if at some time t it was seeded, or left when it was
      known, and since then has neither joined nor met a sweep, at a time now with a timeout, for which now >= t +
      timeout. */
  lemma {:induction false} ListedTold(clock: int, evs: Events, m: Members, now: int, a: bytes)
    requires Run(NO_MEMBERS, clock, evs, m, now)
    ensures Listed(m.failed, a) <==> exists k :: 0 <= k < |evs| && FailsAt(evs, k, a) && Waits(evs, k, a)
  {
    hide Run, FailsAt, Waits;
    if i :| 0 <= i < |m.failed| && m.failed[i].node.address == a {
      EntriesTold(clock, evs, m, now, a, m.failed[i].leaveTime);
    }
    if k :| 0 <= k < |evs| && FailsAt(evs, k, a) && Waits(evs, k, a) {
      EntriesTold(clock, evs, m, now, a, evs[k].1);
    }
  }

  lemma {:induction false} TimesRise(m: Members, clock: int, evs: Events, m': Members, clock': int)
    requires Run(m, clock, evs, m', clock')
    ensures forall i :: 0 <= i < |evs| ==> clock <= evs[i].1
    ensures forall i, j :: 0 <= i < j < |evs| ==> evs[i].1 <= evs[j].1
    decreases |evs|
  {
    hide Apply, Proper;
    if evs != [] {
      ProperFirst(m, clock, evs, m', clock');
      TimesRise(Apply(m, evs[0].0, evs[0].1), evs[0].1, evs[1..], m', clock');
      assert forall i :: 1 <= i < |evs| ==> evs[i] == evs[1..][i - 1];
    }
  }

  /** The last time an address failed decides: it is listed from then on, until it joins or a sweep finds the timeout
      since that time over. */
  lemma {:induction false} LastFailureDecides(clock: int, evs: Events, m: Members, now: int, a: bytes, k: nat)
    requires Run(NO_MEMBERS, clock, evs, m, now) && k < |evs|
    requires FailsAt(evs, k, a) && forall j :: k < j < |evs| ==> !FailsAt(evs, j, a)
    ensures Listed(m.failed, a) <==> Waits(evs, k, a)
  {
    hide Run, FailsAt, Listed;
    ListedTold(clock, evs, m, now, a);
    TimesRise(NO_MEMBERS, clock, evs, m, now);
    if i :| 0 <= i < |evs| && FailsAt(evs, i, a) && Waits(evs, i, a) {
      assert i <= k;
    }
  }

  /** A node that joins and leaves at time 100, with a timeout of 50, survives a sweep at 101 and at 149, but none at
      150. */
  lemma {:induction false} SomeSweeps(n: Node, sweep: int)
    ensures var left := Leave(Join(NO_MEMBERS, n), n, 100);
            |left.failed| == 1 && (Expire(left, 50, sweep).failed == left.failed <==> sweep < 150)
  {
    var left := Leave(Join(NO_MEMBERS, n), n, 100);
    var none: seq<PeerInfo> := [];
    assert |left.failed| == 1 && left.failed[0].leaveTime == 100;
    assert left.failed[..0] == none && Kept(none, 50, sweep) == none;
  }

  // ---- which node a record carries ----

  /** The k-th event says which node is at the address: it is seeded, joins, or is updated when it is known. */
  ghost predicate TellsNode(evs: Events, k: nat, a: bytes)
    requires k < |evs|
  {
    var ev := evs[k].0;
    Introduces(ev, a) || (ev.Updated? && ev.n.address == a && Introduced(evs[..k], a))
  }

  /** The node it says; a seed has no name. */
  function NodeTold(ev: Event, a: bytes): Node {
    if ev.Joined? || ev.Updated? then ev.n else Node([], a)
  }

  lemma {:induction false} SeedsTell(m: Members, seeds: seq<Seed>, myAddr: bytes, now: int, a: bytes)
    requires forall s :: s in seeds ==> ProperSeed(s)
    ensures var u := SeedAll(m, seeds, myAddr, now);
            && (SomeTaken(seeds, myAddr, a) ==> a in u.peers && u.peers[a].node == Node([], a))
            && (!SomeTaken(seeds, myAddr, a) && a in m.peers ==> a in u.peers && u.peers[a].node == m.peers[a].node)
    decreases |seeds|
  {
    if seeds != [] {
      assert seeds[0] in seeds;
      SeedsTell(SeedOne(m, seeds[0], myAddr, now), seeds[1..], myAddr, now, a);
      FirstTaken(seeds, myAddr, a);
    }
  }

  lemma {:induction false} StepTells(u: Members, clock: int, ev: Event, now: int, a: bytes)
    requires Inv(u, clock) && clock <= now && Proper(ev)
    ensures var m := Apply(u, ev, now);
            var tells := Introduces(ev, a) || (ev.Updated? && ev.n.address == a && a in u.peers);
            && (tells ==> a in m.peers && m.peers[a].node == NodeTold(ev, a))
            && (!tells && a in u.peers ==> a in m.peers && m.peers[a].node == u.peers[a].node)
  {
    match ev {
      case Seeded(seeds, myAddr) => SeedsTell(u, seeds, myAddr, now, a);
      case Swept(timeout) => ExpireKeeps(u, timeout, clock, now);
      case _ =>
    }
  }

  /** In every run from the start a record carries the node of the last event that told which node is at its address:
      leaving and sweeping tell nothing. */
  lemma {:induction false} RecordCarries(clock: int, evs: Events, m: Members, now: int, a: bytes, k: nat)
    requires Run(NO_MEMBERS, clock, evs, m, now) && k < |evs|
    requires TellsNode(evs, k, a) && forall j :: k < j < |evs| ==> !TellsNode(evs, j, a)
    ensures a in m.peers && m.peers[a].node == NodeTold(evs[k].0, a)
    decreases |evs|
  {
    hide Inv, Apply, Proper, Introduced, Introduces, NodeTold;
    var n := |evs| - 1;
    var front := evs[..n];
    var u := LastEvent(NO_MEMBERS, clock, evs, m, now);
    hide Run;
    EmptyKept(clock);
    RunKeeps(NO_MEMBERS, clock, front, u, evs[n].1);
    StepTells(u, evs[n].1, evs[n].0, evs[n].1, a);
    RecordTold(clock, front, u, evs[n].1, a);
    if k < n {
      assert !TellsNode(evs, n, a);
      forall j | k <= j < n
        ensures TellsNode(front, j, a) <==> TellsNode(evs, j, a)
      {
        FrontFails(evs, j, a);
      }
      RecordCarries(clock, front, u, evs[n].1, a, k);
    }
  }
}
