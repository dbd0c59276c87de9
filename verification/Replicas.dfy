/** Replicas that gossip: broadcasts delivered in any order and any number of times, and whole states pushed
    from one store to another. */
module Replicas {
  import opened Base
  import opened TargetPb
  import opened Lww

  /** A state on the wire: the entries of its sender, the order in which they were written, and all that the sender
      knew of then, superseded entries included. */
  datatype Message = Message(entries: Entries, order: seq<bytes>, known: set<MeshEntry>)

  /** `known` is every entry that has reached the replica, by itself or through the states of others. */
  datatype Replica = Replica(store: Entries, known: set<MeshEntry>)

  /** `pool` holds every entry ever broadcast, `flying` the states on the wire. */
  datatype Net = Net(replicas: seq<Replica>, pool: set<MeshEntry>, flying: set<Message>)

  /** Broadcast does not touch the sender's own store: its entry comes back to it by delivery. A state is taken
      when it is sent and may arrive much later, more than once, or never. */
  datatype Event =
    | Broadcast(e: MeshEntry)
    | Deliver(r: nat, e: MeshEntry)
    | Send(r: nat, order: seq<bytes>)
    | Receive(r: nat, state: Message)

  ghost predicate Enabled(s: Net, ev: Event) {
    match ev
    case Broadcast(e) => true
    case Deliver(r, e) => r < |s.replicas| && e in s.pool
    case Send(r, order) => r < |s.replicas| && forall n :: n in order <==> n in s.replicas[r].store
    case Receive(r, state) => r < |s.replicas| && state in s.flying && WellOrdered(state)
  }

  /** The order is one of the names of the entries. */
  ghost predicate WellOrdered(state: Message) {
    forall n :: n in state.order <==> n in state.entries
  }

  ghost function Next(s: Net, ev: Event): Net
    requires Enabled(s, ev)
  {
    match ev
    case Broadcast(e) => s.(pool := s.pool + {e})
    case Deliver(r, e) => Merged(s, r, [e], {e})
    case Send(r, order) => s.(flying := s.flying + {Message(s.replicas[r].store, order, s.replicas[r].known)})
    case Receive(r, state) => Merged(s, r, Listing(state.entries, state.order), state.known)
  }

  ghost function Merged(s: Net, r: nat, es: seq<MeshEntry>, known: set<MeshEntry>): Net
    requires r < |s.replicas|
  {
    s.(replicas := s.replicas[r := Replica(MergeAll(s.replicas[r].store, es), s.replicas[r].known + known)])
  }

  /** The events lead from `s` to `t`. */
  ghost predicate Run(s: Net, evs: seq<Event>, t: Net)
    decreases |evs|
  {
    if evs == [] then s == t else Enabled(s, evs[0]) && Run(Next(s, evs[0]), evs[1..], t)
  }

  ghost predicate Initial(s: Net) {
    && s.pool == {} && s.flying == {}
    && (forall r :: 0 <= r < |s.replicas| ==> s.replicas[r] == Replica(map[], {}))
  }

  // ---- what every step keeps ----

  /** Each store, and each state on the wire, holds the newest of all that is known there. */
  ghost predicate Inv(s: Net) {
    && (forall r :: 0 <= r < |s.replicas| ==>
          Newest(s.replicas[r].store, s.replicas[r].known) && s.replicas[r].known <= s.pool)
    && (forall state :: state in s.flying ==>
          WellOrdered(state) && Newest(state.entries, state.known) && state.known <= s.pool)
  }

  lemma StepKeeps(s: Net, ev: Event)
    requires Inv(s) && Enabled(s, ev)
    ensures Inv(Next(s, ev))
  {
    match ev {
      case Broadcast(_) =>
      case Deliver(r, e) =>
        MergeAllNewest(s.replicas[r].store, s.replicas[r].known, [e]);
        assert Elements([e]) == {e};
      case Send(r, order) =>
      case Receive(r, state) => StateNewest(state, s.replicas[r].store, s.replicas[r].known);
    }
  }

  /** What a state brings is the newest of all its sender knew, and not only of what it lists. */
  lemma StateNewest(state: Message, es: Entries, known: set<MeshEntry>)
    requires WellOrdered(state) && Newest(state.entries, state.known) && Newest(es, known)
    ensures Newest(MergeAll(es, Listing(state.entries, state.order)), known + state.known)
  {
    MergeIsJoin(state.entries, es, state.order);
    JoinNewest(state.entries, state.known, es, known);
    assert state.known + known == known + state.known;
  }

  /** Every name is still there, with no older an entry. */
  ghost predicate NoOlder(a: Entries, b: Entries) {
    forall n :: n in a ==> n in b && !After(a[n].updated, b[n].updated)
  }

  lemma {:induction false} MergeNoOlder(es: Entries, s: seq<MeshEntry>)
    ensures NoOlder(es, MergeAll(es, s))
    decreases |s|
  {
    if s != [] {
      MergeNoOlder(MergeOne(es, s[0]), s[1..]);
    }
  }

  // ---- over whole runs ----

  lemma {:induction false} RunKeeps(s: Net, evs: seq<Event>, t: Net)
    requires Inv(s) && Run(s, evs, t)
    ensures Inv(t) && s.pool <= t.pool && |t.replicas| == |s.replicas|
    ensures forall r :: 0 <= r < |s.replicas| ==> NoOlder(s.replicas[r].store, t.replicas[r].store)
    decreases |evs|
  {
    if evs != [] {
      var u := Next(s, evs[0]);
      StepKeeps(s, evs[0]);
      StepNoOlder(s, evs[0]);
      RunKeeps(u, evs[1..], t);
      assert forall r :: 0 <= r < |s.replicas| ==>
          NoOlder(s.replicas[r].store, u.replicas[r].store) && NoOlder(u.replicas[r].store, t.replicas[r].store);
    }
  }

  lemma StepNoOlder(s: Net, ev: Event)
    requires Inv(s) && Enabled(s, ev)
    ensures var u := Next(s, ev);
            && |u.replicas| == |s.replicas|
            && forall r :: 0 <= r < |s.replicas| ==> NoOlder(s.replicas[r].store, u.replicas[r].store)
  {
    if ev.Deliver? || ev.Receive? {
      MergeNoOlder(s.replicas[ev.r].store, if ev.Deliver? then [ev.e] else Listing(ev.state.entries, ev.state.order));
    }
  }

  lemma InitialInv(s: Net)
    requires Initial(s)
    ensures Inv(s)
  {
  }

  /** Whatever happens, a replica stores under a name only an entry of that name that was once broadcast. */
  lemma StoredWasBroadcast(s: Net, evs: seq<Event>, t: Net, r: nat, n: bytes)
    requires Initial(s) && Run(s, evs, t) && r < |t.replicas| && n in t.replicas[r].store
    ensures t.replicas[r].store[n] in t.pool && t.replicas[r].store[n].name == n
  {
    InitialInv(s);
    RunKeeps(s, evs, t);
  }

  /** From any point of a run on, a name once stored stays, and its time never goes back. */
  lemma NeverOlder(s: Net, before: seq<Event>, t: Net, after: seq<Event>, u: Net, r: nat)
    requires Initial(s) && Run(s, before, t) && Run(t, after, u) && r < |s.replicas|
    ensures |t.replicas| == |u.replicas| == |s.replicas| && NoOlder(t.replicas[r].store, u.replicas[r].store)
  {
    InitialInv(s);
    RunKeeps(s, before, t);
    RunKeeps(t, after, u);
  }

  /** Every broadcast has a normal time. */
  predicate NormalRun(evs: seq<Event>) {
    forall ev :: ev in evs && ev.Broadcast? ==> Normal(ev.e.updated)
  }

  lemma {:induction false} PoolNormal(s: Net, evs: seq<Event>, t: Net)
    requires Run(s, evs, t) && NormalRun(evs) && forall e :: e in s.pool ==> Normal(e.updated)
    ensures forall e :: e in t.pool ==> Normal(e.updated)
    decreases |evs|
  {
    hide Normal, MergeAll;
    if evs != [] {
      assert evs[0] in evs && forall ev :: ev in evs[1..] ==> ev in evs;
      PoolNormal(Next(s, evs[0]), evs[1..], t);
    }
  }

  /** In nanoseconds: from any point of a run on, the instant stored under a name never falls; and at every point it
      is the latest of all that the replica knows of that name. */
  lemma {:induction false} InstantNeverFalls(s: Net, before: seq<Event>, t: Net, after: seq<Event>, u: Net, r: nat)
    requires Initial(s) && Run(s, before, t) && Run(t, after, u) && r < |s.replicas|
    requires NormalRun(before) && NormalRun(after)
    ensures |t.replicas| == |u.replicas| == |s.replicas|
    ensures forall n :: n in t.replicas[r].store ==>
              n in u.replicas[r].store
              && Instant(t.replicas[r].store[n].updated) <= Instant(u.replicas[r].store[n].updated)
    ensures forall e :: e in u.replicas[r].known ==>
              e.name in u.replicas[r].store
              && Instant(e.updated) <= Instant(u.replicas[r].store[e.name].updated)
    ensures forall n :: n in u.replicas[r].store ==>
              u.replicas[r].store[n] in u.replicas[r].known && u.replicas[r].store[n].name == n
  {
    hide Instant, After, Normal, Run;
    InitialInv(s);
    RunKeeps(s, before, t);
    RunKeeps(t, after, u);
    PoolNormal(s, before, t);
    PoolNormal(t, after, u);
    var x, y := t.replicas[r].store, u.replicas[r].store;
    forall n | n in x
      ensures n in y && Instant(x[n].updated) <= Instant(y[n].updated)
    {
      AfterIsLater(x[n].updated, y[n].updated);
    }
    forall e | e in u.replicas[r].known
      ensures e.name in y && Instant(e.updated) <= Instant(y[e.name].updated)
    {
      AfterIsLater(e.updated, y[e.name].updated);
    }
  }

  /** Replicas that know of the same entries, whether these reached them one by one or through the states of others,
      agree on every time; and on every entry if, among what was ever broadcast, name and time identify an entry. */
  lemma Converge(s: Net, evs: seq<Event>, t: Net, q: nat, r: nat)
    requires Initial(s) && Run(s, evs, t) && q < |s.replicas| && r < |s.replicas|
    ensures |t.replicas| == |s.replicas|
    ensures t.replicas[q].known == t.replicas[r].known ==> SameTimes(t.replicas[q].store, t.replicas[r].store)
    ensures t.replicas[q].known == t.replicas[r].known && Identifies(t.pool) ==>
              t.replicas[q].store == t.replicas[r].store
  {
    InitialInv(s);
    RunKeeps(s, evs, t);
    if t.replicas[q].known == t.replicas[r].known {
      SeenDetermines(t.replicas[q].store, t.replicas[r].store, t.replicas[q].known);
    }
  }

  /** The two states of `q` and `r`, taken before either arrives, each merged on the other side. */
  function PushPull(s: Net, q: nat, r: nat, ordq: seq<bytes>, ordr: seq<bytes>): seq<Event>
    requires q < |s.replicas| && r < |s.replicas|
    requires forall n :: n in ordq ==> n in s.replicas[q].store
    requires forall n :: n in ordr ==> n in s.replicas[r].store
  {
    [Send(q, ordq), Send(r, ordr), Receive(r, Message(s.replicas[q].store, ordq, s.replicas[q].known)),
     Receive(q, Message(s.replicas[r].store, ordr, s.replicas[r].known))]
  }

  /** After any run, one push/pull, whatever the map orders, leaves both replicas with the pointwise newer
      entries: the same times, and the same store if name and time identify what was broadcast. */
  lemma PushPullAgrees(s: Net, evs: seq<Event>, t: Net, q: nat, r: nat, ordq: seq<bytes>, ordr: seq<bytes>, u: Net)
    requires Initial(s) && Run(s, evs, t) && q < |t.replicas| && r < |t.replicas| && q != r
    requires forall n :: n in ordq <==> n in t.replicas[q].store
    requires forall n :: n in ordr <==> n in t.replicas[r].store
    requires Run(t, PushPull(t, q, r, ordq, ordr), u)
    ensures |u.replicas| == |t.replicas|
    ensures u.replicas[r].store == Join(t.replicas[q].store, t.replicas[r].store)
    ensures u.replicas[q].store == Join(t.replicas[r].store, t.replicas[q].store)
    ensures u.replicas[q].known == u.replicas[r].known == t.replicas[q].known + t.replicas[r].known
    ensures SameTimes(u.replicas[q].store, u.replicas[r].store)
    ensures Identifies(t.pool) ==> u.replicas[q].store == u.replicas[r].store
  {
    InitialInv(s);
    RunKeeps(s, evs, t);
    var a, b := t.replicas[q].store, t.replicas[r].store;
    PushPullStores(t, q, r, ordq, ordr, u);
    MergeIsJoin(a, b, ordq);
    MergeIsJoin(b, a, ordr);
    ExchangeAgrees(a, b);
    assert forall n :: n in a ==> a[n] in t.pool && a[n].name == n;
    assert forall n :: n in b ==> b[n] in t.pool && b[n].name == n;
  }

  lemma PushPullStores(t: Net, q: nat, r: nat, ordq: seq<bytes>, ordr: seq<bytes>, u: Net)
    requires Inv(t) && q < |t.replicas| && r < |t.replicas| && q != r
    requires forall n :: n in ordq <==> n in t.replicas[q].store
    requires forall n :: n in ordr <==> n in t.replicas[r].store
    requires Run(t, PushPull(t, q, r, ordq, ordr), u)
    ensures |u.replicas| == |t.replicas|
    ensures u.replicas[r].store == MergeAll(t.replicas[r].store, Listing(t.replicas[q].store, ordq))
    ensures u.replicas[q].store == MergeAll(t.replicas[q].store, Listing(t.replicas[r].store, ordr))
    ensures u.replicas[q].known == u.replicas[r].known == t.replicas[q].known + t.replicas[r].known
  {
    hide MergeAll, Listing, Run;
    var evs := PushPull(t, q, r, ordq, ordr);
    assert evs[0..] == evs;
    RunFrom(t, evs, 0, u);
    var t1 := Next(t, evs[0]);
    RunFrom(t1, evs, 1, u);
    var t2 := Next(t1, evs[1]);
    RunFrom(t2, evs, 2, u);
    var t3 := Next(t2, evs[2]);
    RunFrom(t3, evs, 3, u);
    RunEnds(Next(t3, evs[3]), evs, u);
  }

  lemma {:induction false} RunFrom(s: Net, evs: seq<Event>, i: nat, t: Net)
    requires i < |evs| && Run(s, evs[i..], t)
    ensures Enabled(s, evs[i]) && Run(Next(s, evs[i]), evs[i + 1..], t)
  {
    hide Enabled, Next;
    assert evs[i..][0] == evs[i] && evs[i..][1..] == evs[i + 1..];
  }

  lemma {:induction false} RunEnds(s: Net, evs: seq<Event>, t: Net)
    requires Run(s, evs[|evs|..], t)
    ensures s == t
  {
  }
}
