/** What a local state, once written, does when it arrives at another node. */
module PushPull {
  import opened Base
  import opened Skip
  import opened Message
  import opened ClusterPb
  import opened ClusterRoundTrip
  import opened TargetPb
  import opened Lww
  import opened Framing
  import opened Store
  import opened Collector
  import opened Delegate

  /** Each known store joined with the arriving one of its key. */
  function JoinStates(a: States, b: States): States {
    map k | k in b :: if k in a then Join(a[k], b[k]) else b[k]
  }

  lemma {:induction false} ListsJoin(p: Part, a: Entries, b: Entries)
    requires Lists(p, a) && Keyed(a)
    ensures MergeAll(b, Parse(Content(p.data)).entries) == Join(a, b) && Parse(Content(p.data)).ending.Clean?
  {
    hide Parse, MergeAll, Join;
    var order :| (forall n :: n in order <==> n in a) && Parse(Content(p.data)) == Stream(Listing(a, order), Clean);
    MergeIsJoin(a, b, order);
  }

  lemma {:induction false} MergeDescribed(a: States, b: States, parts: seq<Part>, keys: set<bytes>)
    requires Describes(parts, a, keys) && forall k :: k in a ==> Keyed(a[k])
    ensures var m := MergeParts(b, parts);
            m.Keys == b.Keys && forall k :: k in b ==> m[k] == if k in keys then Join(a[k], b[k]) else b[k]
    decreases |parts|
  {
    hide Parse, MergeAll, Join, Lists, Keyed;
    if parts != [] {
      var p, rest := parts[0], parts[1..];
      assert p in parts && forall q :: q in parts <==> q == p || q in rest;
      DescribesRest(parts, a, keys);
      var b' := b;
      if p.key in b {
        ListsJoin(p, a[p.key], b[p.key]);
        b' := b[p.key := Join(a[p.key], b[p.key])];
      }
      MergeDescribed(a, b', rest, keys - {p.key});
    }
  }

  lemma DescribesRest(parts: seq<Part>, a: States, keys: set<bytes>)
    requires Describes(parts, a, keys) && parts != []
    ensures Describes(parts[1..], a, keys - {parts[0].key})
  {
    hide Lists;
    var rest := parts[1..];
    assert forall q :: q in parts <==> q == parts[0] || q in rest;
    forall q | q in rest
      ensures q.key != parts[0].key
    {
      var i :| 0 <= i < |rest| && rest[i] == q;
      assert parts[i + 1] == q;
    }
  }

  lemma CanonicalDescribes(parts: seq<Part>, a: States, keys: set<bytes>)
    requires Describes(parts, a, keys)
    ensures Describes(CanonicalParts(parts), a, keys)
  {
    hide Parse;
    var c := CanonicalParts(parts);
    forall q | q in c
      ensures q.key in keys && q.key in a && q.unrecognized == [] && Lists(q, a[q.key])
    {
      var i :| 0 <= i < |c| && c[i] == q;
      assert parts[i] in parts && Content(q.data) == Content(parts[i].data);
    }
    forall k | k in keys
      ensures exists q :: q in c && q.key == k
    {
      var p :| p in parts && p.key == k;
      var i :| 0 <= i < |parts| && parts[i] == p;
      assert c[i] in c;
    }
  }

  // ---- nothing of it is refused ----

  /** A collector, where there is one, gets a group in every entry that its store takes from the other. */
  ghost predicate JoinRunnable(a: States, b: States, runners: set<bytes>, keys: set<bytes>) {
    forall k, n :: k in a && k in b && k in runners && k in keys && n in a[k] && Accepts(b[k], a[k][n]) ==>
      a[k][n].targetgroup.Some?
  }

  lemma {:induction false} ListingRunnable(a: Entries, b: Entries, order: seq<bytes>)
    requires Keyed(a) && forall n :: n in order ==> n in a
    requires forall n :: n in order && Accepts(b, a[n]) ==> a[n].targetgroup.Some?
    ensures AllRunnable(Taken(b, Listing(a, order)))
    decreases |order|
  {
    if order != [] {
      var n, rest := order[0], order[1..];
      assert n in order && forall k :: k in rest ==> k in order;
      assert Listing(a, order)[1..] == Listing(a, rest);
      ListingRunnable(a, MergeOne(b, a[n]), rest);
    }
  }

  lemma {:induction false} ListsRunnable(p: Part, a: Entries, b: Entries)
    requires Lists(p, a) && Keyed(a) && forall n :: n in a && Accepts(b, a[n]) ==> a[n].targetgroup.Some?
    ensures AllRunnable(Taken(b, Parse(Content(p.data)).entries)) && Parse(Content(p.data)).ending.Clean?
  {
    hide Parse, Taken, AllRunnable, Keyed, Accepts;
    var order :| (forall n :: n in order <==> n in a) && Parse(Content(p.data)) == Stream(Listing(a, order), Clean);
    ListingRunnable(a, b, order);
  }

  /** The parts of a local state can be taken, are not cut short, and end in no panic. */
  lemma {:induction false} DescribedRunnable(a: States, b: States, parts: seq<Part>, keys: set<bytes>,
                                             runners: set<bytes>)
    requires Describes(parts, a, keys) && (forall k :: k in a ==> Keyed(a[k])) && JoinRunnable(a, b, runners, keys)
    ensures CanTakeAll(b, runners, parts) && WellFramed(parts) && !PartsCrash(b.Keys, parts)
    decreases |parts|
  {
    hide Parse, MergeAll, Join, Lists, Keyed, Taken, AllRunnable, Accepts;
    if parts != [] {
      var p, rest := parts[0], parts[1..];
      assert p in parts && forall q :: q in parts <==> q == p || q in rest;
      DescribesRest(parts, a, keys);
      ListsJoin(p, a[p.key], map[]);
      if p.key in b && p.key in runners {
        ListsRunnable(p, a[p.key], b[p.key]);
      }
      assert Received(b, p).Keys == b.Keys;
      DescribedRunnable(a, Received(b, p), rest, keys - {p.key}, runners);
    }
  }

  // ---- two nodes ----

  /** The local state of one node, written in whatever orders its maps were iterated, leaves every store that the
      other node also has with the pointwise newer entries, and touches no other. It is decoded to parts none of
      which is cut short. */
  lemma LocalStateArrives(parts: seq<Part>, a: States, b: States)
    requires Describes(parts, a, a.Keys) && (forall k :: k in a ==> Keyed(a[k]))
    requires |FullStateBytes(FullState(parts, []))| < TWO_63
    ensures MergeState(b, FullStateBytes(FullState(parts, []))) == JoinStates(a, b)
    ensures WellFramed(DecodeFullState(NO_STATE, FullStateBytes(FullState(parts, []))).m.parts)
    ensures !StateCrashes(b.Keys, FullStateBytes(FullState(parts, [])))
  {
    hide Lists, Keyed, Join, MergeParts, DecodeFullState, FullStateBytes, WellFramed, PartsCrash;
    DecodedDescribes(parts, a);
    var decoded := CanonicalParts(parts);
    MergeDescribed(a, b, decoded, a.Keys);
    DescribedRunnable(a, b, decoded, a.Keys, {});
  }

  lemma DecodedDescribes(parts: seq<Part>, a: States)
    requires Describes(parts, a, a.Keys) && |FullStateBytes(FullState(parts, []))| < TWO_63
    ensures DecodeFullState(NO_STATE, FullStateBytes(FullState(parts, [])))
         == Decoded(FullState(CanonicalParts(parts), []), None)
    ensures Describes(CanonicalParts(parts), a, a.Keys)
  {
    hide Lists, DecodeFullState, FullStateBytes;
    WrittenSound(parts, a);
    FullStateRoundTrip(FullState(parts, []));
    CanonicalDescribes(parts, a, a.Keys);
  }

  /** And collectors can be called with what is taken from it, as far as the states allow. */
  lemma LocalStateTaken(parts: seq<Part>, a: States, b: States, runners: set<bytes>)
    requires Describes(parts, a, a.Keys) && (forall k :: k in a ==> Keyed(a[k]))
    requires |FullStateBytes(FullState(parts, []))| < TWO_63 && JoinRunnable(a, b, runners, a.Keys)
    ensures CanTakeState(b, runners, FullStateBytes(FullState(parts, [])))
  {
    hide Lists, Keyed, DecodeFullState, FullStateBytes, WellFramed, PartsCrash, CanTakeAll, JoinRunnable;
    DecodedDescribes(parts, a);
    DescribedRunnable(a, b, CanonicalParts(parts), a.Keys, runners);
  }

  lemma StoresKeyed(d: Delegate)
    requires d.Valid()
    ensures forall k :: k in d.View() ==> Keyed(d.View()[k])
  {
    forall k | k in d.states
      ensures Keyed(d.states[k].entries)
    {
      d.StoreValid(k);
    }
  }

  /** The bytes of a local state reach a node. */
  method Deliver(d: Delegate, buf: bytes, ghost parts: seq<Part>, ghost from: States) returns (panicked: bool)
    requires d.Valid() && Describes(parts, from, from.Keys) && (forall k :: k in from ==> Keyed(from[k]))
    requires buf == FullStateBytes(FullState(parts, [])) && |buf| < TWO_63
    requires JoinRunnable(from, d.View(), d.Runners(), from.Keys)
    modifies d`received, d`repr, d.repr
    ensures d.Valid() && fresh(d.repr - old(d.repr)) && !panicked
    ensures d.View() == JoinStates(from, old(d.View()))
  {
    hide Describes, Keyed, FullStateBytes, JoinRunnable, JoinStates, Delegate.Valid, MergeState, CanTakeState;
    LocalStateArrives(parts, from, d.View());
    LocalStateTaken(parts, from, d.View(), d.Runners());
    ghost var got;
    panicked, got := d.MergeRemoteState(buf);
  }

  /** Push/pull between two nodes: each sends the state of before the exchange, and merges what it gets. Unless a
      state is too long to be sent, both end with the pointwise newer entries of the stores they share. */
  method Exchange(a: Delegate, b: Delegate) returns (sent: bool, ghost pa: seq<Part>, ghost pb: seq<Part>)
    requires a.Valid() && b.Valid() && a != b && ({a} + a.repr) !! ({b} + b.repr)
    requires forall k, n :: k in a.states && n in a.states[k].entries ==> Writable(a.states[k].entries[n])
    requires forall k, n :: k in b.states && n in b.states[k].entries ==> Writable(b.states[k].entries[n])
    requires JoinRunnable(a.View(), b.View(), b.Runners(), a.View().Keys)
    requires JoinRunnable(b.View(), a.View(), a.Runners(), b.View().Keys)
    modifies a`sent, a`received, a`repr, a.repr, b`sent, b`received, b`repr, b.repr
    ensures a.Valid() && b.Valid()
    ensures Describes(pa, old(a.View()), old(a.View().Keys)) && Describes(pb, old(b.View()), old(b.View().Keys))
    ensures sent <==> |FullStateBytes(FullState(pa, []))| < TWO_63 && |FullStateBytes(FullState(pb, []))| < TWO_63
    ensures sent ==> b.View() == JoinStates(old(a.View()), old(b.View()))
    ensures sent ==> a.View() == JoinStates(old(b.View()), old(a.View()))
    ensures !sent ==> a.View() == old(a.View()) && b.View() == old(b.View())
  {
    hide Describes, Keyed, FullStateBytes, JoinRunnable, JoinStates, Delegate.Valid, Writable, Delegate.View;
    hide Delegate.Runners, Delegate.Owns;
    StoresKeyed(a);
    StoresKeyed(b);
    ghost var va, vb := a.View(), b.View();
    var fromA, fromB;
    fromA, pa := a.LocalState();
    fromB, pb := b.LocalState();
    if fromA.None? || fromB.None? { return false, pa, pb; }
    Apart(a, b);
    var x := Deliver(b, fromA.value, pa, va);
    ghost var joined := b.View();
    assert a.View() == va;
    var y := Deliver(a, fromB.value, pb, vb);
    assert b.View() == joined;
    sent := true;
  }

  /** Two nodes whose stores under a key agree, as they do after an exchange of entries that times identify, run the
      same jobs with the same keys, unless some task was refused. */
  lemma AgreeingNodes(a: Delegate, b: Delegate, k: bytes)
    requires a.Valid() && b.Valid() && k in a.states && k in b.states && a.View()[k] == b.View()[k]
    requires var x, y := a.states[k].collector, b.states[k].collector;
             && x != null && y != null && x.externalLabels == y.externalLabels
             && !x.Refused(0, x.asked) && !y.Refused(0, y.asked)
    ensures var x, y := a.states[k].collector.tasks, b.states[k].collector.tasks;
            && x.Keys == y.Keys == a.View()[k].Keys
            && forall n :: n in x ==> x[n].Keys == y[n].Keys
  {
    hide Store.Valid, Collector.Refused;
    a.StoreValid(k);
    b.StoreValid(k);
    SameJobs(a.states[k], b.states[k]);
  }

  lemma Apart(a: Delegate, b: Delegate)
    requires a.Valid() && b.Valid() && ({a} + a.repr) !! ({b} + b.repr)
    ensures a !in a.repr && forall k :: k in a.states ==> a.states[k] in a.repr && a.states[k] !in b.repr
    ensures b !in b.repr && forall k :: k in b.states ==> b.states[k] in b.repr && b.states[k] !in a.repr
  {
    a.Outside();
    b.Outside();
  }

  lemma WrittenSound(parts: seq<Part>, a: States)
    requires forall p :: p in parts ==> p.unrecognized == []
    ensures FullStateSound(FullState(parts, []))
  {
    assert AllForeign([], 1) && AllForeign([], 2) && RawAll([]) == [];
    assert forall i :: 0 <= i < |parts| ==> parts[i] in parts;
  }

  /** Two nodes that exchange the states of before the exchange agree on every time of the stores they share; and
      on the stores themselves exactly if no entries they held at equal times differed. */
  lemma {:induction false} ExchangeStates(pa: seq<Part>, a: States, pb: seq<Part>, b: States, k: bytes)
    requires Describes(pa, a, a.Keys) && Describes(pb, b, b.Keys) && k in a && k in b
    requires (forall j :: j in a ==> Keyed(a[j])) && (forall j :: j in b ==> Keyed(b[j]))
    requires |FullStateBytes(FullState(pa, []))| < TWO_63 && |FullStateBytes(FullState(pb, []))| < TWO_63
    ensures var b' := MergeState(b, FullStateBytes(FullState(pa, [])));
            var a' := MergeState(a, FullStateBytes(FullState(pb, [])));
            && k in a' && k in b' && SameTimes(a'[k], b'[k])
            && (a'[k] == b'[k] <==>
                forall n :: n in a[k] && n in b[k] && a[k][n].updated == b[k][n].updated ==> a[k][n] == b[k][n])
  {
    hide Describes, Keyed, Join, MergeState, FullStateBytes;
    LocalStateArrives(pa, a, b);
    LocalStateArrives(pb, b, a);
    ExchangeAgrees(a[k], b[k]);
  }

  /** A broadcast entry, written in any order of its labels and wrapped in a part, is merged on arrival as just
      that entry. */
  lemma BroadcastArrives(key: bytes, frame: bytes, e: MeshEntry, states: States)
    requires Parse(frame) == Stream([e], Clean) && key in states && frame != []
    requires |PartBytes(Part(key, Some(frame), []))| < TWO_63
    ensures MergeMessage(states, PartBytes(Part(key, Some(frame), []))) == states[key := MergeOne(states[key], e)]
  {
    hide Parse, DecodePart, PartBytes;
    PartArrives(Part(key, Some(frame), []));
    assert [e][1..] == [];
    assert MergeAll(states[key], [e]) == MergeOne(states[key], e);
  }

  /** A deletion is an entry without a target group. A collector can be called with all that a store takes from it,
      as it must, exactly when the store holds a strictly newer entry of that job; and then nothing changes. */
  lemma DeletionArrives(key: bytes, frame: bytes, e: MeshEntry, states: States, runners: set<bytes>)
    requires Parse(frame) == Stream([e], Clean) && key in states && key in runners && frame != []
    requires |PartBytes(Part(key, Some(frame), []))| < TWO_63 && e.targetgroup.None?
    ensures var b := PartBytes(Part(key, Some(frame), []));
            var older := e.name in states[key] && After(states[key][e.name].updated, e.updated);
            && (CanTakeMessage(states, runners, b) <==> older)
            && (older ==> MergeMessage(states, b) == states)
  {
    hide Parse, DecodePart, PartBytes, MergeMessage;
    var p, es := Part(key, Some(frame), []), states[key];
    PartArrives(p);
    BroadcastArrives(key, frame, e, states);
    assert [e][1..] == [];
    assert Taken(MergeOne(es, e), []) == [];
    assert Taken(es, [e]) == if Accepts(es, e) then [e] else [];
    assert Accepts(es, e) ==> e in Taken(es, [e]);
    assert states[key := es] == states;
  }

  lemma PartArrives(p: Part)
    requires p.unrecognized == [] && p.data != Some([]) && |PartBytes(p)| < TWO_63
    ensures DecodePart(NO_PART, PartBytes(p)) == Decoded(p, None)
  {
    hide DecodePart, PartBytes;
    assert AllForeign([], 2) && RawAll([]) == [];
    PartRoundTrip(p);
    assert Canonical(p) == p;
  }
}
