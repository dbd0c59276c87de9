/** The gossip delegate: local state out, remote state and broadcasts in, dispatched by key to the stores. */
module Delegate {
  import opened Base
  import opened Varint
  import opened Message
  import opened ClusterPb
  import opened Lww
  import opened Framing
  import opened Store

  type States = map<bytes, Entries>

  // ---- what arriving bytes do to the stores ----

  /** A merge that ends so ends the loop over the parts as well. */
  predicate Stops(e: Ending) {
    e.BadMessage? || e.Crashed?
  }

  /** The loop over the parts of a remote state: unknown keys are passed over, and a part that fails to merge
      ends it, with what stood before the failure merged. */
  function MergeParts(states: States, parts: seq<Part>): States
    decreases |parts|
  {
    if parts == [] then states
    else
      var s := Parse(Content(parts[0].data));
      var states' := Received(states, parts[0]);
      if parts[0].key in states && Stops(s.ending) then states' else MergeParts(states', parts[1..])
  }

  /** What one part does. */
  function Received(states: States, p: Part): States {
    if p.key !in states then states
    else states[p.key := MergeAll(states[p.key], Parse(Content(p.data)).entries)]
  }

  /** Whether the loop ends in a panic. */
  predicate PartsCrash(keys: set<bytes>, parts: seq<Part>)
    decreases |parts|
  {
    parts != []
    && var e := Parse(Content(parts[0].data)).ending;
       if parts[0].key in keys && Stops(e) then e.Crashed? else PartsCrash(keys, parts[1..])
  }

  /** A collector, where there is one, can be called with what its store takes from the part. */
  ghost predicate CanTake(states: States, runners: set<bytes>, p: Part) {
    p.key in states && p.key in runners ==> AllRunnable(Taken(states[p.key], Parse(Content(p.data)).entries))
  }

  /** And so part after part. */
  ghost predicate CanTakeAll(states: States, runners: set<bytes>, parts: seq<Part>)
    decreases |parts|
  {
    parts == []
    || (CanTake(states, runners, parts[0])
        && ((parts[0].key in states && Stops(Parse(Content(parts[0].data)).ending))
            || CanTakeAll(Received(states, parts[0]), runners, parts[1..])))
  }

  lemma {:induction false} NoParts(states: States, runners: set<bytes>, parts: seq<Part>)
    requires parts == []
    ensures AllReceived(states, parts) == states
    ensures MergeParts(states, parts) == states && !PartsCrash(states.Keys, parts) && CanTakeAll(states, runners, parts)
  {
  }

  /** The parts from `i` on: the one at `i`, then the rest. */
  lemma {:induction false} MergePart(states: States, runners: set<bytes>, parts: seq<Part>, i: nat)
    requires i < |parts|
    ensures parts[i] in parts
    ensures var p := parts[i];
            var e := Parse(Content(p.data)).ending;
            var states' := Received(states, p);
            var stop := p.key in states && Stops(e);
            && states'.Keys == states.Keys
            && (WellFramed(parts) ==> !e.BadFraming?)
            && MergeParts(states, parts[i..]) == (if stop then states' else MergeParts(states', parts[i + 1..]))
            && PartsCrash(states.Keys, parts[i..])
            == (if stop then e.Crashed? else PartsCrash(states.Keys, parts[i + 1..]))
            && (CanTakeAll(states, runners, parts[i..]) ==>
                  CanTake(states, runners, p) && (stop || CanTakeAll(states', runners, parts[i + 1..])))
  {
    hide Parse, MergeAll, Stops, CanTake;
    assert parts[i..][1..] == parts[i + 1..];
  }

  /** What parts do, one after the other, when none of them ends the loop. */
  function AllReceived(states: States, parts: seq<Part>): States
    decreases |parts|
  {
    if parts == [] then states else Received(AllReceived(states, parts[..|parts| - 1]), parts[|parts| - 1])
  }

  /** How the merge of a part ends; a part under an unknown key is passed over. */
  function EndingOf(keys: set<bytes>, p: Part): Ending {
    if p.key in keys then Parse(Content(p.data)).ending else Clean
  }

  /** The loop got through the first `i` parts, and ended there because there are no more or because the last of them
      did not end cleanly. None of the parts before that was refused or panicked. */
  ghost predicate GotTo(states0: States, states: States, parts: seq<Part>, i: nat) {
    && i <= |parts| && states == AllReceived(states0, parts[..i])
    && (i < |parts| ==> i > 0 && !EndingOf(states0.Keys, parts[i - 1]).Clean?)
    && (forall j :: 0 <= j < i - 1 ==>
          EndingOf(states0.Keys, parts[j]).Clean? || EndingOf(states0.Keys, parts[j]).BadFraming?)
  }

  lemma PassedOver(states: States, p: Part)
    ensures p.key !in states ==> Received(states, p) == states
  {
  }

  lemma EndingIs(keys: set<bytes>, p: Part)
    ensures p.key in keys ==> EndingOf(keys, p) == Parse(Content(p.data)).ending
    ensures p.key !in keys ==> EndingOf(keys, p) == Clean
  {
  }

  lemma {:induction false} ReceivedNext(states: States, parts: seq<Part>, i: nat)
    requires i < |parts|
    ensures AllReceived(states, parts[..i + 1]) == Received(AllReceived(states, parts[..i]), parts[i])
  {
    assert parts[..i + 1][..i] == parts[..i];
  }

  /** A broadcast is one part. */
  function MergeMessage(states: States, b: bytes): States {
    var d := DecodePart(NO_PART, b);
    if d.err.Some? then states else Received(states, d.m)
  }

  function MergeState(states: States, buf: bytes): States {
    var d := DecodeFullState(NO_STATE, buf);
    if d.err.Some? then states else MergeParts(states, d.m.parts)
  }

  /** How the merge of a broadcast ends; nothing to merge is a clean end. */
  function MessageEnding(keys: set<bytes>, b: bytes): Ending {
    var d := DecodePart(NO_PART, b);
    if d.err.Some? || d.m.key !in keys then Clean else Parse(Content(d.m.data)).ending
  }

  predicate StateCrashes(keys: set<bytes>, buf: bytes) {
    var d := DecodeFullState(NO_STATE, buf);
    d.err.None? && PartsCrash(keys, d.m.parts)
  }

  /** What the caller of NotifyMsg must see to; only entries that are taken matter. */
  ghost predicate CanTakeMessage(states: States, runners: set<bytes>, b: bytes) {
    var d := DecodePart(NO_PART, b);
    d.err.None? ==> CanTake(states, runners, d.m)
  }

  ghost predicate CanTakeState(states: States, runners: set<bytes>, buf: bytes) {
    var d := DecodeFullState(NO_STATE, buf);
    d.err.None? ==> CanTakeAll(states, runners, d.m.parts)
  }

  /** No stream is cut short; how the framing library reports that is not modelled. */
  ghost predicate WellFramed(parts: seq<Part>) {
    forall p :: p in parts ==> !Parse(Content(p.data)).ending.BadFraming?
  }

  // ---- what a local state says ----

  /** The part carries the entries of the store, in some order of its map. */
  ghost predicate Lists(p: Part, es: Entries) {
    exists order :: (forall n :: n in order <==> n in es) && Parse(Content(p.data)) == Stream(Listing(es, order), Clean)
  }

  lemma ListsIntro(p: Part, es: Entries, order: seq<bytes>)
    requires (forall n :: n in order <==> n in es) && Parse(Content(p.data)) == Stream(Listing(es, order), Clean)
    ensures Lists(p, es)
  {
  }

  /** One part for each of the keys. */
  ghost predicate Describes(parts: seq<Part>, view: States, keys: set<bytes>) {
    && (forall p :: p in parts ==> p.key in keys && p.key in view && p.unrecognized == [] && Lists(p, view[p.key]))
    && (forall i, j :: 0 <= i < j < |parts| ==> parts[i].key != parts[j].key)
    && (forall k :: k in keys ==> exists p :: p in parts && p.key == k)
  }

  lemma NothingDescribed(view: States)
    ensures Describes([], view, {})
  {
  }

  lemma DescribesMore(parts: seq<Part>, view: States, keys: set<bytes>, p: Part)
    requires Describes(parts, view, keys)
    requires p.key !in keys && p.key in view && p.unrecognized == [] && Lists(p, view[p.key])
    ensures Describes(parts + [p], view, keys + {p.key})
  {
    hide Lists;
    var ps := parts + [p];
    assert forall q :: q in ps <==> q in parts || q == p;
    assert forall i :: 0 <= i < |parts| ==> parts[i] in parts;
    assert ps[|parts|] == p && p in ps;
  }

  // ---- the delegate ----

  class Delegate {
    var states: map<bytes, Store>
    var received: nat
    var sent: nat

    /** The stores and all they reach. */
    ghost var repr: set<object>

    ghost predicate Owns(s: Store)
      reads `repr, repr
    {
      && s in repr
      && (s.collector != null ==> s.collector in repr && s.collector.started <= repr)
      && s.Valid()
    }

    /** Every store is in order, and no two share anything. */
    ghost predicate Valid()
      reads `states, `repr, repr
    {
      && this !in repr
      && (forall k :: k in states ==> Owns(states[k]))
      && (forall j, k :: j in states && k in states && j != k ==> states[j].Footprint() !! states[k].Footprint())
    }

    function View(): States
      reads `states, set k | k in states :: states[k]
    {
      map k | k in states :: states[k].entries
    }

    /** The keys of the stores that have a collector. */
    ghost function Runners(): set<bytes>
      reads `states
    {
      set k | k in states && states[k].collector != null
    }

    constructor ()
      ensures Valid() && states == map[] && repr == {} && received == 0 && sent == 0
    {
      states, received, sent, repr := map[], 0, 0, {};
    }

    /** `AddState`: a store of its own for the key. */
    method AddState(key: bytes, s: Store)
      requires Valid() && s.Valid() && s.Footprint() !! repr && this !in s.Footprint()
      modifies this`states, this`repr
      ensures Valid() && states == old(states)[key := s] && repr == old(repr) + s.Footprint()
    {
      hide Store.Valid;
      states := states[key := s];
      repr := repr + s.Footprint();
      forall k | k in states && k != key
        ensures Owns(states[k]) && states[k].Footprint() !! s.Footprint()
      {
        assert old(Owns(states[k]));
        assert states[k].Footprint() <= old(repr);
      }
      assert Owns(s);
    }

    /** One `s.Merge(data)` under a known key. */
    method MergeInto(key: bytes, data: bytes) returns (out: Outcome)
      requires Valid() && key in states
      requires states[key].collector != null ==> AllRunnable(Taken(states[key].entries, Parse(data).entries))
      modifies repr, this`repr
      ensures Valid() && fresh(repr - old(repr))
      ensures states[key].entries == MergeAll(old(states[key].entries), Parse(data).entries)
      ensures forall k :: k in states && k != key ==> states[k].entries == old(states[k].entries)
      ensures Parse(data).ending.Clean? ==> out == Returned(None)
      ensures Parse(data).ending.BadMessage? ==> out == Returned(Some(Parse(data).ending.err))
      ensures Parse(data).ending.Crashed? ==> out == Panicked
    {
      hide Parse, MergeAll, Taken, Store.Valid, AllRunnable, AllStored, JobsKept, NamesOf;
      var s := states[key];
      label before:
      out := s.Merge(data);
      repr := repr + s.Footprint();
      forall k | k in states && k != key
        ensures states[k].Footprint() == old@before(states[k].Footprint()) && states[k].Footprint() !! s.Footprint()
        ensures Owns(states[k])
      {
        assert old@before(Owns(states[k]));
        assert states[k].Footprint() !! old@before(s.Footprint());
        assert states[k].Footprint() <= old@before(repr);
      }
      assert Owns(s);
      hide Owns, Store.Footprint;
    }

    lemma Outside()
      requires Valid()
      ensures this !in repr && forall k :: k in states ==> states[k] in repr
    {
    }

    /** What NotifyMsg, and each turn of MergeRemoteState, does with a part. */
    method MergeReceived(p: Part) returns (out: Outcome)
      requires Valid() && CanTake(View(), Runners(), p)
      modifies this`repr, repr
      ensures Valid() && fresh(repr - old(repr)) && View() == Received(old(View()), p)
      ensures p.key !in states ==> out == Returned(None)
      ensures p.key in states ==>
                var e := Parse(Content(p.data)).ending;
                && (e.Clean? ==> out == Returned(None))
                && (e.BadMessage? ==> out == Returned(Some(e.err)))
                && (e.Crashed? ==> out == Panicked)
    {
      hide Valid, Owns, Parse, MergeAll, AllRunnable, Taken;
      Outside();
      if p.key !in states { return Returned(None); }
      out := MergeInto(p.key, Content(p.data));
      assert View() == old(View())[p.key := View()[p.key]];
    }

    /** `NotifyMsg`. */
    method NotifyMsg(b: bytes) returns (panicked: bool)
      requires Valid() && CanTakeMessage(View(), Runners(), b)
      modifies this`received, this`repr, repr
      ensures Valid() && fresh(repr - old(repr)) && received == old(received) + 1
      ensures View() == MergeMessage(old(View()), b)
      ensures DecodePart(NO_PART, b).err.Some? || DecodePart(NO_PART, b).m.key !in states ==>
                View() == old(View()) && !panicked
      ensures MessageEnding(View().Keys, b).Crashed? ==> panicked
      ensures panicked ==> MessageEnding(View().Keys, b).Crashed? || MessageEnding(View().Keys, b).BadFraming?
    {
      hide Valid, Owns, Parse, DecodePart, Received, CanTake;
      Outside();
      received := received + 1;
      var p := new PartMessage();
      var err := p.Unmarshal(b);
      assert DecodePart(NO_PART, b) == Decoded(p.Value(), err);
      if err.Some? { return false; }
      PassedOver(View(), p.Value());
      var out := MergeReceived(p.Value());
      panicked := out.Panicked?;
    }

    /** `MergeRemoteState`. */
    method MergeRemoteState(buf: bytes) returns (panicked: bool, ghost got: nat)
      requires Valid() && CanTakeState(View(), Runners(), buf)
      modifies this`received, this`repr, repr
      ensures Valid() && fresh(repr - old(repr)) && received == old(received) + 1
      ensures View().Keys == old(View()).Keys
      ensures DecodeFullState(NO_STATE, buf).err.Some? ==> View() == old(View()) && !panicked
      ensures DecodeFullState(NO_STATE, buf).err.None? ==>
                GotTo(old(View()), View(), DecodeFullState(NO_STATE, buf).m.parts, got)
      ensures WellFramed(DecodeFullState(NO_STATE, buf).m.parts) ==>
                View() == MergeState(old(View()), buf) && panicked == StateCrashes(View().Keys, buf)
    {
      hide Valid, Owns, Parse, MergeParts, PartsCrash, CanTakeAll, CanTake, Received, DecodeFullState, WellFramed;
      hide EndingOf, AllReceived;
      Outside();
      received := received + 1;
      panicked, got := false, 0;
      var fs := new FullStateMessage();
      var err := fs.Unmarshal(buf);
      assert DecodeFullState(NO_STATE, buf) == Decoded(fs.Value(), err);
      if err.Some? { return; }
      var parts := fs.parts;
      ghost var first, keys, goal := View(), View().Keys, MergeState(old(View()), buf);
      assert parts[0..] == parts && parts[..|parts|] == parts;
      NoParts(first, Runners(), parts[..0]);
      for i := 0 to |parts|
        invariant Valid() && fresh(repr - old(repr)) && received == old(received) + 1 && !panicked
        invariant View().Keys == keys && CanTakeAll(View(), Runners(), parts[i..])
        invariant View() == AllReceived(first, parts[..i])
        invariant forall j :: 0 <= j < i ==> EndingOf(keys, parts[j]).Clean? || EndingOf(keys, parts[j]).BadFraming?
        invariant WellFramed(parts) ==>
                    MergeParts(View(), parts[i..]) == goal && PartsCrash(keys, parts[i..]) == PartsCrash(keys, parts)
      {
        ghost var before := View();
        MergePart(before, Runners(), parts, i);
        ReceivedNext(first, parts, i);
        EndingIs(keys, parts[i]);
        Outside();
        var out := MergeReceived(parts[i]);
        panicked, got := out.Panicked?, i + 1;
        if out != Returned(None) { return; }
      }
      got := |parts|;
      NoParts(View(), Runners(), parts[|parts|..]);
    }

    /** `LocalState`: one part per store, the stores in some order. A state too long for a slice cannot be written. */
    method LocalState() returns (b: Option<bytes>, ghost parts: seq<Part>)
      requires Valid() && forall k, n :: k in states && n in states[k].entries ==> Writable(states[k].entries[n])
      modifies this`sent
      ensures Valid() && Describes(parts, View(), View().Keys)
      ensures var state := FullStateBytes(FullState(parts, [])); b == if |state| < TWO_63 then Some(state) else None
      ensures sent == old(sent) + (if b.Some? then 1 else 0)
    {
      hide Valid, Owns, Parse, Lists, Describes, Writable, FullStateBytes;
      Outside();
      ghost var view, done: set<bytes> := View(), {};
      NothingDescribed(view);
      var all: seq<Part> := [];
      var remaining: set<bytes> := states.Keys;
      while remaining != {}
        invariant remaining <= states.Keys && done == states.Keys - remaining && sent == old(sent)
        invariant Describes(all, view, done)
        decreases |remaining|
      {
        var key :| key in remaining;
        var part := PartOf(key);
        DescribesMore(all, view, done, part);
        all, done, remaining := all + [part], done + {key}, remaining - {key};
      }
      parts := all;
      assert done == view.Keys;
      var m := FullState(all, []);
      if |FullStateBytes(m)| >= TWO_63 { return None, parts; }
      var dAtA := MarshalFullState(m);
      sent := sent + 1;
      b := Some(dAtA[..]);
    }

    method PartOf(key: bytes) returns (p: Part)
      requires Valid() && key in states && forall n :: n in states[key].entries ==> Writable(states[key].entries[n])
      ensures p.key == key && p.unrecognized == [] && Lists(p, states[key].entries)
    {
      hide Owns, Parse, Lists, Writable;
      StoreValid(key);
      var data;
      ghost var order;
      data, order := states[key].MarshalBinary();
      p := Part(key, if data == [] then None else Some(data), []);
      ListsIntro(p, states[key].entries, order);
    }

    lemma StoreValid(k: bytes)
      requires Valid() && k in states
      ensures states[k].Valid()
    {
    }
  }
}
