/** When the list of failed peers names a peer twice. */
module Duplicates {
  import opened Base
  import opened Membership

  predicate NoDuplicates(ps: seq<PeerInfo>) {
    forall i, j :: 0 <= i < j < |ps| ==> ps[i].node.address != ps[j].node.address
  }

  ghost predicate Listed(ps: seq<PeerInfo>, a: bytes) {
    exists i :: 0 <= i < |ps| && ps[i].node.address == a
  }

  lemma AppendDuplicates(ps: seq<PeerInfo>, pr: PeerInfo)
    ensures NoDuplicates(ps + [pr]) <==> NoDuplicates(ps) && !Listed(ps, pr.node.address)
    ensures forall a :: Listed(ps + [pr], a) <==> Listed(ps, a) || a == pr.node.address
  {
    var qs := ps + [pr];
    assert qs[|ps|] == pr && forall i :: 0 <= i < |ps| ==> qs[i] == ps[i];
    assert forall a :: Listed(ps, a) ==> Listed(qs, a);
  }

  /** A leave keeps the list free of duplicates exactly if it is of a peer not known or not listed: nothing checks
      for that. */
  lemma LeaveDuplicates(m: Members, n: Node, clock: int, now: int)
    requires Inv(m, clock) && NoDuplicates(m.failed)
    ensures NoDuplicates(Leave(m, n, now).failed) <==> n.address !in m.peers || !Listed(m.failed, n.address)
  {
    if n.address in m.peers {
      AppendDuplicates(m.failed, m.peers[n.address].(status := StatusFailed, leaveTime := now));
    }
  }

  predicate Taken(s: Seed, myAddr: bytes) {
    s.text != myAddr && s.parsed.Some?
  }

  /** The seeds that are taken are distinct, and none is listed. */
  ghost predicate FreshSeeds(ps: seq<PeerInfo>, seeds: seq<Seed>, myAddr: bytes) {
    && (forall i :: 0 <= i < |seeds| && Taken(seeds[i], myAddr) ==> !Listed(ps, seeds[i].text))
    && (forall i, j :: 0 <= i < j < |seeds| && Taken(seeds[i], myAddr) && Taken(seeds[j], myAddr) ==>
          seeds[i].text != seeds[j].text)
  }

  lemma {:induction false} FreshFirst(m: Members, seeds: seq<Seed>, myAddr: bytes, now: int)
    requires seeds != [] && NoDuplicates(m.failed) && ProperSeed(seeds[0])
    ensures var m' := SeedOne(m, seeds[0], myAddr, now);
            FreshSeeds(m.failed, seeds, myAddr) <==>
              NoDuplicates(m'.failed) && FreshSeeds(m'.failed, seeds[1..], myAddr)
  {
    hide Listed;
    var m', rest := SeedOne(m, seeds[0], myAddr, now), seeds[1..];
    if Taken(seeds[0], myAddr) {
      AppendDuplicates(m.failed, m'.failed[|m.failed|]);
    }
    assert forall i :: 1 <= i < |seeds| ==> seeds[i] == rest[i - 1];
    if FreshSeeds(m'.failed, rest, myAddr) && NoDuplicates(m'.failed) {
      forall i, j | 0 <= i < j < |seeds| && Taken(seeds[i], myAddr) && Taken(seeds[j], myAddr)
        ensures seeds[i].text != seeds[j].text
      {
        assert seeds[j] == rest[j - 1];
        if i > 0 {
          assert seeds[i] == rest[i - 1];
        }
      }
    }
  }

  lemma {:induction false} SeedAllGrows(m: Members, seeds: seq<Seed>, myAddr: bytes, now: int)
    ensures NoDuplicates(SeedAll(m, seeds, myAddr, now).failed) ==> NoDuplicates(m.failed)
    decreases |seeds|
  {
    if seeds != [] {
      var m' := SeedOne(m, seeds[0], myAddr, now);
      SeedAllGrows(m', seeds[1..], myAddr, now);
      if m'.failed != m.failed {
        AppendDuplicates(m.failed, m'.failed[|m.failed|]);
      }
    }
  }

  lemma {:induction false} SeedDuplicates(m: Members, seeds: seq<Seed>, myAddr: bytes, now: int)
    requires NoDuplicates(m.failed) && forall s :: s in seeds ==> ProperSeed(s)
    ensures NoDuplicates(SeedAll(m, seeds, myAddr, now).failed) <==> FreshSeeds(m.failed, seeds, myAddr)
    decreases |seeds|
  {
    if seeds != [] {
      assert seeds[0] in seeds;
      var m' := SeedOne(m, seeds[0], myAddr, now);
      FreshFirst(m, seeds, myAddr, now);
      hide FreshSeeds, NoDuplicates;
      SeedAllGrows(m', seeds[1..], myAddr, now);
      if NoDuplicates(m'.failed) {
        SeedDuplicates(m', seeds[1..], myAddr, now);
      }
    }
  }

  lemma {:induction false} WithoutDuplicates(ps: seq<PeerInfo>, a: bytes)
    requires NoDuplicates(ps)
    ensures NoDuplicates(Without(ps, a))
    decreases |ps|
  {
    if ps != [] {
      var front, last := ps[..|ps| - 1], ps[|ps| - 1];
      assert ps == front + [last];
      AppendDuplicates(front, last);
      WithoutDuplicates(front, a);
      WithoutIs(front, a);
      AppendDuplicates(Without(front, a), last);
      forall i | 0 <= i < |Without(front, a)|
        ensures Without(front, a)[i].node.address != last.node.address
      {
        assert Without(front, a)[i] in front;
      }
    }
  }

  /** The events that list nobody a second time. */
  ghost predicate ListsOnce(m: Members, ev: Event) {
    match ev
    case Seeded(seeds, myAddr) => FreshSeeds(m.failed, seeds, myAddr)
    case Left(n) => n.address !in m.peers || !Listed(m.failed, n.address)
    case _ => true
  }

  lemma {:induction false} StepDuplicates(m: Members, clock: int, ev: Event, now: int)
    requires Inv(m, clock) && Proper(ev) && clock <= now && NoDuplicates(m.failed)
    ensures NoDuplicates(Apply(m, ev, now).failed) <==> ListsOnce(m, ev)
  {
    match ev {
      case Seeded(seeds, myAddr) => SeedDuplicates(m, seeds, myAddr, now);
      case Joined(n) => WithoutDuplicates(m.failed, n.address);
      case Left(n) => LeaveDuplicates(m, n, clock, now);
      case Updated(n) =>
      case Swept(timeout) => ExpireIs(m, timeout, clock, now);
    }
  }

  /** In no state of the run is a peer listed twice. */
  ghost predicate NeverTwice(m: Members, evs: seq<(Event, int)>)
    decreases |evs|
  {
    NoDuplicates(m.failed) && (evs == [] || NeverTwice(Apply(m, evs[0].0, evs[0].1), evs[1..]))
  }

  /** Every event of the run is, in the state it meets, one that lists nobody a second time. */
  ghost predicate AllListOnce(m: Members, evs: seq<(Event, int)>)
    decreases |evs|
  {
    evs == [] || (ListsOnce(m, evs[0].0) && AllListOnce(Apply(m, evs[0].0, evs[0].1), evs[1..]))
  }

  /** A run never lists a peer twice exactly if its seeds are distinct and unlisted, and so is every known peer that
      leaves. */
  lemma {:induction false} RunDuplicates(m: Members, clock: int, evs: seq<(Event, int)>, m': Members, clock': int)
    requires Inv(m, clock) && Run(m, clock, evs, m', clock') && NoDuplicates(m.failed)
    ensures NeverTwice(m, evs) <==> AllListOnce(m, evs)
    decreases |evs|
  {
    hide Inv, Apply, Proper, ListsOnce, NoDuplicates;
    if evs != [] {
      var u := Apply(m, evs[0].0, evs[0].1);
      ProperFirst(m, clock, evs, m', clock');
      StepDuplicates(m, clock, evs[0].0, evs[0].1);
      ApplyKeeps(m, clock, evs[0].0, evs[0].1);
      if NoDuplicates(u.failed) {
        RunDuplicates(u, evs[0].1, evs[1..], m', clock');
      }
    }
  }

  lemma {:induction false} ProperFirst(m: Members, clock: int, evs: seq<(Event, int)>, m': Members, clock': int)
    requires evs != [] && Run(m, clock, evs, m', clock')
    ensures Proper(evs[0].0) && clock <= evs[0].1
    ensures Run(Apply(m, evs[0].0, evs[0].1), evs[0].1, evs[1..], m', clock')
  {
  }

  /** A leave of a peer that is Alive never does. */
  lemma AliveListsOnce(m: Members, clock: int, n: Node)
    requires Inv(m, clock) && n.address in m.peers && m.peers[n.address].status.StatusAlive?
    ensures ListsOnce(m, Left(n))
  {
    forall i | 0 <= i < |m.failed|
      ensures m.failed[i].node.address != n.address
    {
      assert ListedAsFailed(m, m.failed[i]);
    }
  }
}
