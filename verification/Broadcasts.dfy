/** What the channel queues, drops and sends, told from the events of a run alone. */
module Broadcasts {
  import opened Base
  import opened Varint
  import opened Skip
  import opened Message
  import opened ClusterPb
  import opened ClusterRoundTrip
  import opened Channel

  /** The bytes that a field takes, with its tag and its length, or none if it is empty. */
  function Room(field: bytes): nat {
    if field == [] || |field| >= TWO_63 then 0 else 1 + Sov(|field|) + |field|
  }

  /** Whether a message can be encoded at all. */
  predicate Fits(key: bytes, b: bytes) {
    |key| < TWO_63 && |b| < TWO_63 && Room(key) + Room(b) < TWO_63
  }

  /** The payloads that find room: `waiting` messages are queued at first, and there are 200 places. */
  function Taken(key: bytes, evs: seq<Event>, waiting: nat): seq<bytes>
    decreases |evs|
  {
    if evs == [] then []
    else
      match evs[0]
      case Broadcast(b) =>
        if Fits(key, b) && waiting < 200 then [b] + Taken(key, evs[1..], waiting + 1)
        else Taken(key, evs[1..], waiting)
      case Receive(_) => Taken(key, evs[1..], if waiting > 0 then waiting - 1 else 0)
      case _ => Taken(key, evs[1..], waiting)
  }

  /** How many find none. */
  function Refused(key: bytes, evs: seq<Event>, waiting: nat): nat
    decreases |evs|
  {
    if evs == [] then 0
    else
      match evs[0]
      case Broadcast(b) =>
        if !Fits(key, b) then Refused(key, evs[1..], waiting)
        else if waiting < 200 then Refused(key, evs[1..], waiting + 1)
        else 1 + Refused(key, evs[1..], waiting)
      case Receive(_) => Refused(key, evs[1..], if waiting > 0 then waiting - 1 else 0)
      case _ => Refused(key, evs[1..], waiting)
  }

  lemma {:induction false} FitsExactly(key: bytes, b: bytes)
    ensures Fits(key, b) <==> |PartBytes(Part(key, Some(b), []))| < TWO_63
  {
    hide LenBytes, Sov;
    LenBytesLonger(0x0a, key);
    LenBytesLonger(0x12, b);
    if |key| < TWO_63 { LenBytesSize(0x0a, key); }
    if |b| < TWO_63 { LenBytesSize(0x12, b); }
  }

  lemma LenBytesLonger(tag: byte, payload: bytes)
    ensures |LenBytes(tag, payload)| > |payload|
  {
  }

  /** A queued message decodes to a part under the channel's key that carries the payload, and nothing else. */
  predicate Carries(msg: bytes, key: bytes, b: bytes) {
    DecodePart(NO_PART, msg) == Decoded(Part(key, if b == [] then None else Some(b), []), None)
  }

  lemma {:induction false} EncodedCarries(key: bytes, b: bytes)
    requires Fits(key, b)
    ensures Carries(Encoded(key, b), key, b)
  {
    hide DecodePart, PartBytes;
    FitsExactly(key, b);
    var p := Part(key, Some(b), []);
    assert PartSound(p) by {
      assert AllForeign([], 2) && p.unrecognized == RawAll([]);
    }
    PartRoundTrip(p);
  }

  /** Message for message the payloads are carried. */
  ghost predicate AllCarry(msgs: seq<bytes>, key: bytes, payloads: seq<bytes>) {
    |msgs| == |payloads| && forall k :: 0 <= k < |msgs| ==> Carries(msgs[k], key, payloads[k])
  }

  lemma {:induction false} OneMore(msg: bytes, msgs: seq<bytes>, key: bytes, b: bytes, payloads: seq<bytes>)
    requires Carries(msg, key, b) && AllCarry(msgs, key, payloads)
    ensures AllCarry([msg] + msgs, key, [b] + payloads)
  {
    hide Carries;
  }

  /** From any state on: what enters the queue are the payloads that find room, in turn. */
  lemma {:induction false} RunTakes(key: bytes, s: State, evs: seq<Event>, t: State)
    requires Run(key, s, evs, t)
    ensures |t.entered| >= |s.entered| && t.entered[..|s.entered|] == s.entered
    ensures AllCarry(t.entered[|s.entered|..], key, Taken(key, evs, |s.queue|))
    ensures t.dropped == s.dropped + Refused(key, evs, |s.queue|)
    decreases |evs|
  {
    hide Encoded, Carries, Fits;
    if evs != [] {
      var ev, u := evs[0], Next(key, s, evs[0]);
      RunTakes(key, u, evs[1..], t);
      if ev.Broadcast? {
        FitsIsShort(key, ev.b);
        if Fits(key, ev.b) && |s.queue| < 200 {
          EncodedCarries(key, ev.b);
          var more := t.entered[|u.entered|..];
          assert t.entered[..|u.entered|] == s.entered + [Encoded(key, ev.b)];
          assert t.entered[|s.entered|] == t.entered[..|u.entered|][|s.entered|];
          assert t.entered[|s.entered|..] == [Encoded(key, ev.b)] + more;
          assert t.entered[..|s.entered|] == t.entered[..|u.entered|][..|s.entered|];
          OneMore(Encoded(key, ev.b), more, key, ev.b, Taken(key, evs[1..], |u.queue|));
        }
      }
    }
  }

  lemma {:induction false} FitsIsShort(key: bytes, b: bytes)
    ensures Fits(key, b) <==> |Encoded(key, b)| < TWO_63
  {
    FitsExactly(key, b);
  }

  /** In every run the k-th message that entered the queue carries the k-th payload that was broadcast, could be
      encoded and found fewer than 200 waiting; and dropped are exactly those that found 200. */
  lemma {:induction false} QueueCarries(key: bytes, evs: seq<Event>, t: State)
    requires Run(key, NEW_CHANNEL, evs, t)
    ensures |t.entered| == |Taken(key, evs, 0)| && t.dropped == Refused(key, evs, 0)
    ensures forall k :: 0 <= k < |t.entered| ==>
              DecodePart(NO_PART, t.entered[k]) ==
              Decoded(Part(key, if Taken(key, evs, 0)[k] == [] then None else Some(Taken(key, evs, 0)[k]), []), None)
  {
    hide Run, DecodePart, Taken, Refused;
    RunTakes(key, NEW_CHANNEL, evs, t);
    assert t.entered[0..] == t.entered;
    assert forall k :: 0 <= k < |t.entered| ==> Carries(t.entered[k], key, Taken(key, evs, 0)[k]);
  }

  /** Under the key "k" the payload "x" is queued as 0a 01 6b 12 01 78. */
  lemma {:induction false} SomeMessage()
    ensures Next([0x6b], NEW_CHANNEL, Broadcast([0x78])).queue == [[0x0a, 0x01, 0x6b, 0x12, 0x01, 0x78]]
  {
    assert VarintBytes(1) == [1];
    assert Encoded([0x6b], [0x78]) == [0x0a, 0x01, 0x6b, 0x12, 0x01, 0x78];
  }

  // ---- sends ----

  function Count(evs: seq<Event>, kind: Event -> bool): nat
    decreases |evs|
  {
    if evs == [] then 0 else (if kind(evs[0]) then 1 else 0) + Count(evs[1..], kind)
  }

  /** To how many peers each message that is taken is to go. */
  function Peers(evs: seq<Event>): seq<nat>
    decreases |evs|
  {
    if evs == [] then [] else (if evs[0].Receive? then [evs[0].peers] else []) + Peers(evs[1..])
  }

  /** The peers of the messages handled, and those of the one in hand, at whatever stage its goroutines are. */
  function Pledged(s: State): seq<nat> {
    s.fanout
    + if s.worker.Sending? then [s.worker.todo + s.worker.ready + s.worker.running + s.worker.done] else []
  }

  lemma {:induction false} RunSends(key: bytes, s: State, evs: seq<Event>, t: State)
    requires Run(key, s, evs, t)
    ensures t.sent == s.sent + Count(evs, (e: Event) => e.Begin?)
    ensures t.failed == s.failed + Count(evs, (e: Event) => e.End? && !e.ok)
    ensures t.handled == s.handled + Count(evs, (e: Event) => e.Wait?)
    ensures Pledged(t) == Pledged(s) + Peers(evs)
    decreases |evs|
  {
    hide Encoded;
    if evs != [] {
      RunSends(key, Next(key, s, evs[0]), evs[1..], t);
      StepPledges(key, s, evs[0]);
      hide Pledged, Next;
      var first: seq<nat> := if evs[0].Receive? then [evs[0].peers] else [];
      assert Pledged(s) + first + Peers(evs[1..]) == Pledged(s) + (first + Peers(evs[1..]));
    }
  }

  lemma {:induction false} StepPledges(key: bytes, s: State, ev: Event)
    requires Enabled(s, ev)
    ensures Pledged(Next(key, s, ev)) == Pledged(s) + (if ev.Receive? then [ev.peers] else [])
  {
    hide Encoded;
  }

  /** In every run the counters are those of the events: sends begun, sends that ended in failure, messages waited
      for; and the k-th message handled went to as many peers as there were when it was taken. */
  lemma {:induction false} SendsTold(key: bytes, evs: seq<Event>, t: State)
    requires Run(key, NEW_CHANNEL, evs, t)
    ensures t.sent == Count(evs, (e: Event) => e.Begin?)
    ensures t.failed == Count(evs, (e: Event) => e.End? && !e.ok)
    ensures t.handled == Count(evs, (e: Event) => e.Wait?)
    ensures |t.fanout| <= |Peers(evs)| && t.fanout == Peers(evs)[..|t.fanout|]
  {
    hide Run, Peers, Count;
    RunSends(key, NEW_CHANNEL, evs, t);
    assert [] + Peers(evs) == Peers(evs);
    assert Pledged(t)[..|t.fanout|] == t.fanout;
  }
}
