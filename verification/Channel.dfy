/** The broadcast channel: a bounded queue that drops, and a worker that sends one message at a time to every
    peer at once. */
module Channel {
  import opened Base
  import opened ClusterPb

  const CAPACITY := 200

  /** What the worker is at: waiting for a message, sending one, or stopped. While it sends, `todo` peers have no
      goroutine yet, `ready` goroutines have not begun, `running` have begun to send, `done` are finished. */
  datatype Worker = Idle | Sending(msg: bytes, todo: nat, ready: nat, running: nat, done: nat) | Stopped

  /** A goroutine's send of the message that was taken as number `index` begins or ends. */
  datatype Mark = Began(index: nat) | Ended(index: nat, ok: bool)

  /** The queue, the worker and the counters; and the history: every message that entered the queue, in order, how
      many were handled, to how many peers each of these went, and the marks of all sends. */
  datatype State = State(queue: seq<bytes>, worker: Worker, dropped: nat, sent: nat, failed: nat,
                         encoded: nat, entered: seq<bytes>, handled: nat, fanout: seq<nat>, marks: seq<Mark>)

  const NEW_CHANNEL := State([], Idle, 0, 0, 0, 0, [], 0, [], [])

  /** Anything may come between two of these: broadcasts are made by other goroutines, and the goroutines of one
      message run at once. */
  datatype Event =
    | Broadcast(b: bytes)
    | Receive(peers: nat)
    | Spawn
    | Begin
    | End(ok: bool)
    | Wait
    | Stop

  predicate Enabled(s: State, ev: Event) {
    match ev
    case Broadcast(_) => true
    case Receive(_) => s.worker.Idle? && s.queue != []
    case Spawn => s.worker.Sending? && s.worker.todo > 0
    case Begin => s.worker.Sending? && s.worker.ready > 0
    case End(_) => s.worker.Sending? && s.worker.running > 0
    case Wait => s.worker.Sending? && s.worker.todo == 0 && s.worker.ready == 0 && s.worker.running == 0
    case Stop => s.worker.Idle?
  }

  /** The message as it goes into the queue: a part under the channel's key. */
  function Encoded(key: bytes, b: bytes): bytes {
    PartBytes(Part(key, Some(b), []))
  }

  function Next(key: bytes, s: State, ev: Event): State
    requires Enabled(s, ev)
  {
    match ev
    case Broadcast(b) =>
      if |Encoded(key, b)| >= TWO_63 then s
      else if |s.queue| < CAPACITY then
        s.(queue := s.queue + [Encoded(key, b)], entered := s.entered + [Encoded(key, b)], encoded := s.encoded + 1)
      else s.(dropped := s.dropped + 1, encoded := s.encoded + 1)
    case Receive(peers) => s.(queue := s.queue[1..], worker := Sending(s.queue[0], peers, 0, 0, 0))
    case Spawn => s.(worker := s.worker.(todo := s.worker.todo - 1, ready := s.worker.ready + 1))
    case Begin =>
      s.(worker := s.worker.(ready := s.worker.ready - 1, running := s.worker.running + 1), sent := s.sent + 1,
         marks := s.marks + [Began(s.handled)])
    case End(ok) =>
      s.(worker := s.worker.(running := s.worker.running - 1, done := s.worker.done + 1),
         failed := if ok then s.failed else s.failed + 1, marks := s.marks + [Ended(s.handled, ok)])
    case Wait => s.(worker := Idle, handled := s.handled + 1, fanout := s.fanout + [s.worker.done])
    case Stop => s.(worker := Stopped)
  }

  ghost predicate Run(key: bytes, s: State, evs: seq<Event>, t: State)
    decreases |evs|
  {
    if evs == [] then s == t else Enabled(s, evs[0]) && Run(key, Next(key, s, evs[0]), evs[1..], t)
  }

  // ---- what every step keeps ----

  function Sum(ns: seq<nat>): nat {
    if ns == [] then 0 else Sum(ns[..|ns| - 1]) + ns[|ns| - 1]
  }

  /** The message being sent, if any. */
  function InHand(w: Worker): seq<bytes> {
    if w.Sending? then [w.msg] else []
  }

  function Begun(w: Worker): nat {
    if w.Sending? then w.running + w.done else 0
  }

  function CountBegan(marks: seq<Mark>, index: nat): nat {
    if marks == [] then 0
    else CountBegan(marks[..|marks| - 1], index) + (if marks[|marks| - 1] == Began(index) then 1 else 0)
  }

  function CountEnded(marks: seq<Mark>, index: nat): nat {
    if marks == [] then 0
    else
      CountEnded(marks[..|marks| - 1], index)
      + (if marks[|marks| - 1].Ended? && marks[|marks| - 1].index == index then 1 else 0)
  }

  function CountFailed(marks: seq<Mark>): nat {
    if marks == [] then 0
    else CountFailed(marks[..|marks| - 1]) + (if marks[|marks| - 1].Ended? && !marks[|marks| - 1].ok then 1 else 0)
  }

  ghost predicate Counted(s: State) {
    && |s.queue| <= CAPACITY
    && s.handled == |s.fanout|
    && s.encoded == s.handled + |InHand(s.worker)| + |s.queue| + s.dropped
    && |s.entered| == s.handled + |InHand(s.worker)| + |s.queue|
    && s.entered[s.handled..] == InHand(s.worker) + s.queue
    && s.sent == Sum(s.fanout) + Begun(s.worker)
    && s.failed + (if s.worker.Sending? then s.worker.running else 0) <= s.sent
  }

  /** Marks never go back to an earlier message; each handled message has as many beginnings and as many ends as it
      had peers, and the one in hand has those of its goroutines. */
  ghost predicate Ordered(s: State) {
    && (forall p, q :: 0 <= p < q < |s.marks| ==> s.marks[p].index <= s.marks[q].index)
    && (forall p :: 0 <= p < |s.marks| ==> s.marks[p].index < s.handled + |InHand(s.worker)|)
    && (forall i :: 0 <= i < s.handled && i < |s.fanout| ==>
          CountBegan(s.marks, i) == s.fanout[i] && CountEnded(s.marks, i) == s.fanout[i])
    && CountBegan(s.marks, s.handled) == Begun(s.worker)
    && CountEnded(s.marks, s.handled) == (if s.worker.Sending? then s.worker.done else 0)
    && CountFailed(s.marks) == s.failed
  }

  lemma SumSnoc(ns: seq<nat>, n: nat)
    ensures Sum(ns + [n]) == Sum(ns) + n
  {
    assert (ns + [n])[..|ns|] == ns;
  }

  lemma CountsSnoc(marks: seq<Mark>, m: Mark, i: nat)
    ensures CountBegan(marks + [m], i) == CountBegan(marks, i) + (if m == Began(i) then 1 else 0)
    ensures CountEnded(marks + [m], i) == CountEnded(marks, i) + (if m.Ended? && m.index == i then 1 else 0)
    ensures CountFailed(marks + [m]) == CountFailed(marks) + (if m.Ended? && !m.ok then 1 else 0)
  {
    assert (marks + [m])[..|marks|] == marks;
  }

  lemma {:induction false} NoMarks(marks: seq<Mark>, i: nat)
    requires forall p :: 0 <= p < |marks| ==> marks[p].index < i
    ensures CountBegan(marks, i) == 0 && CountEnded(marks, i) == 0
  {
    if marks != [] {
      NoMarks(marks[..|marks| - 1], i);
    }
  }

  lemma StepCounted(key: bytes, s: State, ev: Event)
    requires Counted(s) && Enabled(s, ev)
    ensures Counted(Next(key, s, ev))
  {
    hide Encoded;
    if ev.Wait? {
      SumSnoc(s.fanout, s.worker.done);
      assert s.entered[s.handled..][1..] == s.entered[s.handled + 1..];
    }
  }

  lemma StepOrdered(key: bytes, s: State, ev: Event)
    requires Ordered(s) && Counted(s) && Enabled(s, ev)
    ensures Ordered(Next(key, s, ev))
  {
    hide Encoded, Sum, CountBegan, CountEnded, CountFailed;
    var t := Next(key, s, ev);
    if ev.Begin? || ev.End? {
      var m := t.marks[|s.marks|];
      assert t.marks == s.marks + [m];
      forall i: nat | true
        ensures CountBegan(t.marks, i) == CountBegan(s.marks, i) + (if m == Began(i) then 1 else 0)
        ensures CountEnded(t.marks, i) == CountEnded(s.marks, i) + (if m.Ended? && m.index == i then 1 else 0)
      {
        CountsSnoc(s.marks, m, i);
      }
      CountsSnoc(s.marks, m, 0);
    } else if ev.Wait? {
      NoMarks(s.marks, t.handled);
    }
  }

  lemma {:induction false} RunKeeps(key: bytes, s: State, evs: seq<Event>, t: State)
    requires Counted(s) && Ordered(s) && Run(key, s, evs, t)
    ensures Counted(t) && Ordered(t)
    decreases |evs|
  {
    hide Counted, Ordered, Next, Enabled;
    if evs != [] {
      StepCounted(key, s, evs[0]);
      StepOrdered(key, s, evs[0]);
      RunKeeps(key, Next(key, s, evs[0]), evs[1..], t);
    }
  }

  // ---- over every run ----

  lemma NewCounted()
    ensures Counted(NEW_CHANNEL)
  {
  }

  lemma {:induction false} NewOrdered(s: State)
    requires s.marks == [] && s.worker.Idle? && s.handled == 0 && s.failed == 0
    ensures Ordered(s)
  {
  }

  lemma {:induction false} Reached(key: bytes, evs: seq<Event>, t: State)
    requires Run(key, NEW_CHANNEL, evs, t)
    ensures Counted(t) && Ordered(t)
  {
    hide Run, Counted, Ordered;
    NewCounted();
    NewOrdered(NEW_CHANNEL);
    RunKeeps(key, NEW_CHANNEL, evs, t);
  }

  /** Of the broadcasts that could be encoded each is handled, in hand, queued or dropped, and at most 200 are
      queued. */
  lemma {:induction false} NothingLost(key: bytes, evs: seq<Event>, t: State)
    requires Run(key, NEW_CHANNEL, evs, t)
    ensures t.encoded == t.handled + |InHand(t.worker)| + |t.queue| + t.dropped && |t.queue| <= CAPACITY
  {
    hide Run, InHand, Ordered;
    Reached(key, evs, t);
  }

  /** Messages are handled in the order in which they entered the queue. */
  lemma {:induction false} FirstInFirstOut(key: bytes, evs: seq<Event>, t: State)
    requires Run(key, NEW_CHANNEL, evs, t)
    ensures t.handled <= |t.entered| && t.entered == t.entered[..t.handled] + InHand(t.worker) + t.queue
  {
    hide Run, InHand, Ordered;
    Reached(key, evs, t);
    assert t.entered == t.entered[..t.handled] + t.entered[t.handled..];
  }

  /** No send of a message begins or ends before every send of an earlier one has ended. */
  lemma {:induction false} OneAtATime(key: bytes, evs: seq<Event>, t: State, p: nat, i: nat)
    requires Run(key, NEW_CHANNEL, evs, t) && p < |t.marks| && i < t.marks[p].index
    ensures |t.fanout| > i && CountEnded(t.marks[..p], i) == t.fanout[i] && CountBegan(t.marks[..p], i) == t.fanout[i]
  {
    hide Run, CountBegan, CountEnded, CountFailed;
    Reached(key, evs, t);
    LaterMarks(t.marks, p, i);
  }

  /** Marks of later messages do not count for an earlier one. */
  lemma {:induction false} LaterMarks(marks: seq<Mark>, p: nat, i: nat)
    requires p <= |marks| && forall q :: p <= q < |marks| ==> marks[q].index > i
    ensures CountBegan(marks, i) == CountBegan(marks[..p], i) && CountEnded(marks, i) == CountEnded(marks[..p], i)
    decreases |marks|
  {
    if p == |marks| {
      assert marks[..p] == marks;
    } else {
      LaterMarks(marks[..|marks| - 1], p, i);
      assert marks[..|marks| - 1][..p] == marks[..p];
    }
  }

  /** The counter of sends is the number of peers of the messages handled, and of the goroutines that have begun on
      the one in hand; failures are the sends that ended so, and never more than the sends. */
  lemma {:induction false} SendsCounted(key: bytes, evs: seq<Event>, t: State)
    requires Run(key, NEW_CHANNEL, evs, t)
    ensures t.sent == Sum(t.fanout) + Begun(t.worker)
    ensures t.failed == CountFailed(t.marks) && t.failed <= t.sent
  {
    hide Run, CountBegan, CountEnded, CountFailed, Sum;
    Reached(key, evs, t);
  }

  /** Every element is the encoding of a part under the key. */
  ghost predicate AllParts(key: bytes, msgs: seq<bytes>) {
    forall k :: 0 <= k < |msgs| ==> IsPart(key, msgs[k])
  }

  ghost predicate IsPart(key: bytes, msg: bytes) {
    exists b :: msg == Encoded(key, b)
  }

  /** Every message that enters the queue is the encoding of a part under the channel's key. */
  lemma {:induction false} QueuedAreParts(key: bytes, s: State, evs: seq<Event>, t: State)
    requires Run(key, s, evs, t) && AllParts(key, s.entered)
    ensures AllParts(key, t.entered)
    decreases |evs|
  {
    hide Encoded, AllParts, Next, Enabled;
    if evs != [] {
      EnteredIsPart(key, s, evs[0]);
      QueuedAreParts(key, Next(key, s, evs[0]), evs[1..], t);
    }
  }

  lemma {:induction false} EnteredIsPart(key: bytes, s: State, ev: Event)
    requires Enabled(s, ev) && AllParts(key, s.entered)
    ensures AllParts(key, Next(key, s, ev).entered)
  {
    hide Encoded;
    if ev.Broadcast? {
      assert IsPart(key, Encoded(key, ev.b));
    }
  }

  // ---- the channel in memory ----

  class Channel {
    const key: bytes
    var msgc: seq<bytes>
    var worker: Worker
    var dropped: nat
    var sent: nat
    var failed: nat
    ghost var encoded: nat
    ghost var entered: seq<bytes>
    ghost var handled: nat
    ghost var fanout: seq<nat>
    ghost var marks: seq<Mark>

    ghost function Current(): State
      reads this
    {
      State(msgc, worker, dropped, sent, failed, encoded, entered, handled, fanout, marks)
    }

    /** `NewChannel`. */
    constructor (key: bytes)
      ensures this.key == key && Current() == NEW_CHANNEL
    {
      this.key, msgc, worker, dropped, sent, failed := key, [], Idle, 0, 0, 0;
      encoded, entered, handled, fanout, marks := 0, [], 0, [], [];
    }

    /** `Broadcast`: a message that cannot be encoded is forgotten, one for which there is no room is dropped. */
    method Broadcast(b: bytes)
      modifies this
      ensures Current() == Next(key, old(Current()), Event.Broadcast(b))
    {
      var part := Part(key, Some(b), []);
      if |PartBytes(part)| >= TWO_63 { return; }
      var dAtA := MarshalPart(part);
      encoded := encoded + 1;
      if |msgc| < CAPACITY {
        msgc, entered := msgc + [dAtA[..]], entered + [dAtA[..]];
      } else {
        dropped := dropped + 1;
      }
    }

    /** The worker takes a message and asks who the peers are. */
    method Receive(peers: nat)
      requires Enabled(Current(), Event.Receive(peers))
      modifies this
      ensures Current() == Next(key, old(Current()), Event.Receive(peers))
    {
      worker := Sending(msgc[0], peers, 0, 0, 0);
      msgc := msgc[1..];
    }

    /** `wg.Add(1)` and `go`: a goroutine for the next peer. */
    method Spawn()
      requires Enabled(Current(), Event.Spawn)
      modifies this
      ensures Current() == Next(key, old(Current()), Event.Spawn)
    {
      worker := worker.(todo := worker.todo - 1, ready := worker.ready + 1);
    }

    /** A goroutine counts its send before making it. */
    method Begin()
      requires Enabled(Current(), Event.Begin)
      modifies this
      ensures Current() == Next(key, old(Current()), Event.Begin)
    {
      sent := sent + 1;
      worker := worker.(ready := worker.ready - 1, running := worker.running + 1);
      marks := marks + [Began(handled)];
    }

    /** A goroutine's send returns, with an error or without; `wg.Done`. */
    method End(ok: bool)
      requires Enabled(Current(), Event.End(ok))
      modifies this
      ensures Current() == Next(key, old(Current()), Event.End(ok))
    {
      if !ok { failed := failed + 1; }
      worker := worker.(running := worker.running - 1, done := worker.done + 1);
      marks := marks + [Ended(handled, ok)];
    }

    /** `wg.Wait` returns. */
    method Wait()
      requires Enabled(Current(), Event.Wait)
      modifies this
      ensures Current() == Next(key, old(Current()), Event.Wait)
    {
      fanout, handled := fanout + [worker.done], handled + 1;
      worker := Idle;
    }

    /** `<-stopc`. */
    method Stop()
      requires Enabled(Current(), Event.Stop)
      modifies this
      ensures Current() == Next(key, old(Current()), Event.Stop)
    {
      worker := Stopped;
    }
  }
}
