/** What the book of peers says of an address, told from the history of events alone. */
module History {
  import opened Base
  import opened Membership

  /** The seeds that are taken: neither the node itself nor an address that does not parse. */
  predicate Takes(s: Seed, myAddr: bytes, a: bytes) {
    s.text == a && s.text != myAddr && s.parsed.Some?
  }

  ghost predicate SomeTaken(seeds: seq<Seed>, myAddr: bytes, a: bytes) {
    exists s :: s in seeds && Takes(s, myAddr, a)
  }

  ghost predicate Seeds(ev: Event, a: bytes) {
    ev.Seeded? && SomeTaken(ev.seeds, ev.myAddr, a)
  }

  predicate Joins(ev: Event, a: bytes) {
    ev.Joined? && ev.n.address == a
  }

  ghost predicate Fails(ev: Event, a: bytes) {
    Seeds(ev, a) || (ev.Left? && ev.n.address == a)
  }

  ghost predicate Introduces(ev: Event, a: bytes) {
    Seeds(ev, a) || Joins(ev, a)
  }

  predicate Alive(m: Members, a: bytes) {
    a in m.peers && m.peers[a].status.StatusAlive?
  }

  /** No record is without a status. */
  ghost predicate Settled(m: Members) {
    forall a :: a in m.peers ==> !m.peers[a].status.StatusNone?
  }

  lemma FirstTaken(seeds: seq<Seed>, myAddr: bytes, a: bytes)
    requires seeds != []
    ensures SomeTaken(seeds, myAddr, a) <==> Takes(seeds[0], myAddr, a) || SomeTaken(seeds[1..], myAddr, a)
  {
    assert forall s :: s in seeds <==> s == seeds[0] || s in seeds[1..];
    assert seeds[0] in seeds;
  }

  lemma {:induction false} SeedAllIs(m: Members, seeds: seq<Seed>, myAddr: bytes, now: int, a: bytes)
    ensures var m' := SeedAll(m, seeds, myAddr, now);
            && (a in m'.peers <==> a in m.peers || SomeTaken(seeds, myAddr, a))
            && (Alive(m', a) <==> Alive(m, a) && !SomeTaken(seeds, myAddr, a))
            && (Settled(m) ==> Settled(m'))
    decreases |seeds|
  {
    if seeds != [] {
      FirstTaken(seeds, myAddr, a);
      SeedAllIs(SeedOne(m, seeds[0], myAddr, now), seeds[1..], myAddr, now, a);
    }
  }

  lemma StepIs(m: Members, clock: int, ev: Event, now: int, a: bytes)
    requires Inv(m, clock) && clock <= now && Settled(m)
    ensures var m' := Apply(m, ev, now);
            && (a in m'.peers <==> a in m.peers || Introduces(ev, a))
            && (Alive(m', a) <==> Joins(ev, a) || (Alive(m, a) && !Fails(ev, a)))
            && Settled(m')
  {
    match ev {
      case Seeded(seeds, myAddr) => SeedAllIs(m, seeds, myAddr, now, a);
      case Swept(timeout) => ExpireKeeps(m, timeout, clock, now);
      case _ =>
    }
  }

  /** Some event brings the address in. */
  ghost predicate Introduced(evs: seq<(Event, int)>, a: bytes) {
    exists k :: 0 <= k < |evs| && Introduces(evs[k].0, a)
  }

  /** No event at or after `k` takes it out of service. */
  ghost predicate NeverFails(evs: seq<(Event, int)>, k: nat, a: bytes) {
    forall j :: k <= j < |evs| ==> !Fails(evs[j].0, a)
  }

  /** A join after which the address neither leaves nor is seeded as failed. */
  ghost predicate LastJoined(evs: seq<(Event, int)>, a: bytes) {
    exists k :: 0 <= k < |evs| && Joins(evs[k].0, a) && NeverFails(evs, k + 1, a)
  }

  lemma FirstIntroduced(evs: seq<(Event, int)>, a: bytes)
    requires evs != []
    ensures Introduced(evs, a) <==> Introduces(evs[0].0, a) || Introduced(evs[1..], a)
  {
    if k :| 1 <= k < |evs| && Introduces(evs[k].0, a) {
      assert evs[1..][k - 1] == evs[k];
    }
    if k :| 0 <= k < |evs| - 1 && Introduces(evs[1..][k].0, a) {
      assert evs[k + 1] == evs[1..][k];
    }
  }

  lemma NeverFailsRest(evs: seq<(Event, int)>, k: nat, a: bytes)
    requires evs != []
    ensures NeverFails(evs[1..], k, a) <==> NeverFails(evs, k + 1, a)
    ensures NeverFails(evs, 0, a) <==> !Fails(evs[0].0, a) && NeverFails(evs, 1, a)
  {
    assert forall j :: k <= j < |evs| - 1 ==> evs[1..][j] == evs[j + 1];
    assert forall j :: k + 1 <= j < |evs| ==> evs[1..][j - 1] == evs[j];
  }

  lemma FirstJoined(evs: seq<(Event, int)>, a: bytes)
    requires evs != []
    ensures LastJoined(evs, a) <==> (Joins(evs[0].0, a) && NeverFails(evs, 1, a)) || LastJoined(evs[1..], a)
  {
    hide NeverFails;
    if k :| 1 <= k < |evs| && Joins(evs[k].0, a) && NeverFails(evs, k + 1, a) {
      NeverFailsRest(evs, k, a);
      assert evs[1..][k - 1] == evs[k];
    }
    if k :| 0 <= k < |evs| - 1 && Joins(evs[1..][k].0, a) && NeverFails(evs[1..], k + 1, a) {
      NeverFailsRest(evs, k + 1, a);
      assert evs[k + 1] == evs[1..][k];
    }
  }

  lemma {:induction false} RunIs(m: Members, clock: int, evs: seq<(Event, int)>, m': Members, clock': int, a: bytes)
    requires Inv(m, clock) && Settled(m) && Run(m, clock, evs, m', clock')
    ensures a in m'.peers <==> a in m.peers || Introduced(evs, a)
    ensures Alive(m', a) <==> LastJoined(evs, a) || (Alive(m, a) && NeverFails(evs, 0, a))
    ensures Settled(m')
    decreases |evs|
  {
    if evs != [] {
      hide Inv, Settled, Alive, Introduced, LastJoined, NeverFails, Apply, Introduces, Joins, Fails;
      var n := Apply(m, evs[0].0, evs[0].1);
      ApplyKeeps(m, clock, evs[0].0, evs[0].1);
      StepIs(m, clock, evs[0].0, evs[0].1, a);
      RunIs(n, evs[0].1, evs[1..], m', clock', a);
      FirstIntroduced(evs, a);
      FirstJoined(evs, a);
      NeverFailsRest(evs, 0, a);
    }
  }

  /** After any run, an address is in the map exactly if it once joined or was seeded, and is Alive exactly if it
      has joined and since then has neither left nor been seeded; else its record is Failed. Events about other
      addresses, updates and sweeps play no part. */
  lemma RecordTold(clock: int, evs: seq<(Event, int)>, m: Members, now: int, a: bytes)
    requires Run(NO_MEMBERS, clock, evs, m, now)
    ensures a in m.peers <==> Introduced(evs, a)
    ensures Alive(m, a) <==> LastJoined(evs, a)
    ensures a in m.peers && m.peers[a].status.StatusFailed? <==> Introduced(evs, a) && !LastJoined(evs, a)
  {
    RunIs(NO_MEMBERS, clock, evs, m, now, a);
    assert Settled(m);
  }
}
