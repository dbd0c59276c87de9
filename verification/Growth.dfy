/** How much longer an entry can get when it is decoded and written again, and that what was decoded can be written
    and is then decoded to the same. */
module Growth {
  import opened Base
  import opened Varint
  import opened Skip
  import opened Message
  import opened ClusterPb
  import opened ClusterRoundTrip
  import opened TargetPb
  import opened TargetRoundTrip
  import opened Lww
  import opened Framing
  import opened NoGrowth
  import opened Delegate

  const GIBIBYTE := 0x4000_0000

  /** So long a message is written again within a frame, whatever it holds. */
  const LONGEST := 0x1_0000

  // ---- what a decoder can have taken from c bytes of a buffer of N ----

  /** Targets take no more to write than to read. Each map entry was read from at least one byte; but its key and
      value may reach to the end of the buffer, beyond the entry, and so may those of the next. */
  ghost predicate Held(tg: Targetgroup, c: nat, N: nat) {
    && |TargetsBytes(tg.targets)| <= c && |tg.labels| <= c
    && forall k :: k in tg.labels ==> |k| <= N && |tg.labels[k]| <= N
  }

  ghost predicate MeshHeld(e: MeshEntry, c: nat, N: nat) {
    |e.name| <= N && (e.targetgroup.Some? ==> Held(e.targetgroup.value, c, N))
  }

  lemma {:induction false} EntryHeld(s: bytes, left: int, pos: nat, key: bytes, val: bytes, N: nat)
    requires ReadEntry(s, left, pos, key, val).Entry? && |s| <= N && |key| <= N && |val| <= N
    ensures |ReadEntry(s, left, pos, key, val).key| <= N && |ReadEntry(s, left, pos, key, val).val| <= N
    decreases |s|
  {
    hide EntryField;
    if left > 0 {
      var turn := EntryField(s, left, pos);
      FieldHeld(s, left, pos);
      EntryHeld(s[turn.n..], left - turn.n, pos + turn.n, if turn.KeyRead? then turn.data else key,
                if turn.ValueRead? then turn.data else val, N);
    }
  }

  lemma {:induction false} FieldHeld(s: bytes, left: int, pos: nat)
    ensures EntryField(s, left, pos).KeyRead? || EntryField(s, left, pos).ValueRead? ==>
              |EntryField(s, left, pos).data| <= |s|
  {
    hide Uvarint, LenDelimited, SkipField;
  }

  lemma LabelHeld(m: Targetgroup, k: bytes, v: bytes, c: nat, n: nat, N: nat)
    requires Held(m, c, N) && |k| <= N && |v| <= N && n >= 1
    ensures Held(m.(labels := m.labels[k := v]), c + n, N)
  {
    hide TargetsBytes;
    assert m.labels[k := v].Keys == m.labels.Keys + {k};
    assert |m.labels.Keys + {k}| <= |m.labels.Keys| + 1;
  }

  lemma TargetHeld(m: Targetgroup, d: bytes, c: nat, n: nat, N: nat)
    requires Held(m, c, N) && |LenBytes(0x0a, d)| <= n
    ensures Held(m.(targets := m.targets + [d]), c + n, N)
  {
    hide LenBytes;
    TargetsSnoc(m.targets, d);
  }

  lemma {:induction false} GroupStepHeld(m: Targetgroup, s: bytes, pos: nat, c: nat, N: nat)
    requires TargetgroupStep(m, s, pos).Advance? && Held(m, c, N) && |s| <= N
    ensures Held(TargetgroupStep(m, s, pos).m, c + TargetgroupStep(m, s, pos).n, N)
  {
    hide ReadTag, LenDelimited, UnknownField, ReadEntry, Held, LenBytes;
    var tag, step := ReadTag(s), TargetgroupStep(m, s, pos);
    if tag.field > 2 {
      MoreHeld(m, c, step.n, N);
    } else {
      var d := LenDelimited(s[tag.n..], pos + tag.n);
      if tag.field == 1 {
        LenMinimal(s, pos + tag.n, 0x0a);
        TargetHeld(m, d.data, c, step.n, N);
      } else {
        var h := step.n - |d.data|;
        EntryHeld(s[h..], |d.data|, pos + h, [], [], N);
        var e := ReadEntry(s[h..], |d.data|, pos + h, [], []);
        LabelHeld(m, e.key, e.val, c, step.n, N);
      }
    }
  }

  lemma MoreHeld(m: Targetgroup, c: nat, n: nat, N: nat)
    requires Held(m, c, N)
    ensures Held(m, c + n, N)
  {
    hide TargetsBytes;
  }

  lemma {:induction false} GroupHeld(m: Targetgroup, s: bytes, pos: nat, c: nat, N: nat)
    requires DecodeAll(TargetgroupStep, m, s, pos).err.None? && Held(m, c, N) && |s| <= N
    ensures Held(DecodeAll(TargetgroupStep, m, s, pos).m, c + |s|, N)
    decreases |s|
  {
    hide TargetgroupStep, Held;
    if s != [] {
      GroupStepHeld(m, s, pos, c, N);
      var Advance(m', n) := TargetgroupStep(m, s, pos);
      GroupHeld(m', s[n..], pos + n, c + n, N);
    }
  }

  lemma NoneHeld(c: nat, N: nat)
    ensures Held(NO_GROUP, c, N)
  {
  }

  lemma {:induction false} MeshStepHeld(m: MeshEntry, s: bytes, pos: nat, c: nat, N: nat)
    requires MeshStep(m, s, pos).Advance? && MeshHeld(m, c, N) && |s| <= N
    ensures MeshHeld(MeshStep(m, s, pos).m, c + MeshStep(m, s, pos).n, N)
  {
    hide ReadTag, LenDelimited, UnknownField, Uvarint, DecodeTime, DecodeAll, TargetgroupStep, TargetsBytes;
    var tag := ReadTag(s);
    if tag.field == 4 {
      var d := LenDelimited(s[tag.n..], pos + tag.n);
      NoneHeld(c, N);
      GroupHeld(if m.targetgroup.Some? then m.targetgroup.value else NO_GROUP, d.data, 0, c, N);
    }
  }

  lemma {:induction false} DecodeHeld(m: MeshEntry, s: bytes, pos: nat, c: nat, N: nat)
    requires DecodeAll(MeshStep, m, s, pos).err.None? && MeshHeld(m, c, N) && |s| <= N
    ensures MeshHeld(DecodeAll(MeshStep, m, s, pos).m, c + |s|, N)
    decreases |s|
  {
    hide MeshStep, MeshHeld;
    if s != [] {
      MeshStepHeld(m, s, pos, c, N);
      var Advance(m', n) := MeshStep(m, s, pos);
      DecodeHeld(m', s[n..], pos + n, c + n, N);
    }
  }

  // ---- how long that is, written ----

  lemma {:induction false} LenAtMost(tag: byte, payload: bytes)
    requires |payload| < TWO_63
    ensures |LenBytes(tag, payload)| <= |payload| + 11
  {
    VarintRoundTrip(|payload|, []);
  }

  lemma {:induction false} EntryAtMost(k: bytes, v: bytes, N: nat)
    requires |k| <= N && |v| <= N < TWO_31
    ensures |EntryBytes(k, v)| <= 2 * N + 33
  {
    hide LenBytes;
    LenAtMost(0x0a, k);
    LenAtMost(0x12, v);
    LenAtMost(0x12, LenBytes(0x0a, k) + LenBytes(0x12, v));
  }

  lemma {:induction false} LabelsAtMost(labels: map<bytes, bytes>, order: seq<bytes>, m: nat)
    requires forall k :: k in order ==> |EntryBytes(k, ValueOf(labels, k))| <= m
    ensures |LabelsBytes(labels, order)| <= |order| * m
    decreases |order|
  {
    hide EntryBytes, ValueOf, LabelsBytes;
    FirstLabel(labels, order);
    if order != [] {
      assert order[0] in order && forall j :: j in order[1..] ==> j in order;
      LabelsAtMost(labels, order[1..], m);
      MulStep(|order|, m);
    }
  }

  lemma {:induction false} FirstLabel(labels: map<bytes, bytes>, order: seq<bytes>)
    ensures order == [] ==> LabelsBytes(labels, order) == []
    ensures order != [] ==>
              var first := EntryBytes(order[0], ValueOf(labels, order[0]));
              |LabelsBytes(labels, order)| == |first| + |LabelsBytes(labels, order[1..])|
  {
    hide EntryBytes, ValueOf;
  }

  lemma MulStep(n: nat, m: nat)
    requires n >= 1
    ensures n * m == m + (n - 1) * m
  {
  }

  lemma {:induction false} OrderAtMost(order: seq<bytes>, labels: map<bytes, bytes>)
    requires Distinct(order) && forall k :: k in order ==> k in labels
    ensures |order| <= |labels|
    decreases |order|
  {
    if order != [] {
      var k, rest := order[0], order[1..];
      assert k in order && forall j :: j in rest ==> j in order && j != k;
      OrderAtMost(rest, labels - {k});
      assert labels.Keys == (labels - {k}).Keys + {k};
      assert |labels.Keys| == |(labels - {k}).Keys| + 1;
    }
  }

  lemma {:induction false} EntriesAtMost(tg: Targetgroup, order: seq<bytes>, N: nat)
    requires N < TWO_31 && Held(tg, N, N) && IsOrder(order, tg.labels)
    ensures forall k :: k in order ==> |EntryBytes(k, ValueOf(tg.labels, k))| <= 2 * N + 33
    ensures |TargetsBytes(tg.targets)| <= N && |tg.labels| <= N
  {
    hide EntryBytes, TargetsBytes;
    forall k | k in order
      ensures |EntryBytes(k, ValueOf(tg.labels, k))| <= 2 * N + 33
    {
      EntryAtMost(k, ValueOf(tg.labels, k), N);
    }
  }

  lemma {:induction false} GroupAtMost(tg: Targetgroup, order: seq<bytes>, N: nat)
    requires N < TWO_31 && Held(tg, N, N) && IsOrder(order, tg.labels)
    ensures |TargetgroupBytes(tg, order)| <= N + N * (2 * N + 33)
  {
    hide TargetsBytes, LabelsBytes, EntryBytes;
    OrderAtMost(order, tg.labels);
    EntriesAtMost(tg, order, N);
    hide Held, ValueOf;
    var m := 2 * N + 33;
    LabelsAtMost(tg.labels, order, m);
    MulAtMost(|order|, N, m);
  }

  lemma MulAtMost(a: nat, b: nat, m: nat)
    requires a <= b
    ensures a * m <= b * m
  {
  }

  /** What was decoded from N bytes is written in no more than this, which is quadratic in N. */
  lemma {:induction false} GrowthBound(s: bytes, o: seq<bytes>)
    requires |s| <= GIBIBYTE && DecodeMesh(NO_ENTRY, s).err.None? && IsMeshOrder(o, DecodeMesh(NO_ENTRY, s).m)
    ensures |MeshBytes(DecodeMesh(NO_ENTRY, s).m, o)| <= |s| * (2 * |s| + 33) + 2 * |s| + 66 < TWO_63
    ensures |s| <= LONGEST ==> |MeshBytes(DecodeMesh(NO_ENTRY, s).m, o)| < FRAME_LIMIT
  {
    hide MeshStep, DecodeAll, LenBytes, TargetgroupBytes, Held, IsOrder, VarintBytes, ValidTime, TimeBytes, ToUint64;
    var e, N := DecodeMesh(NO_ENTRY, s).m, |s|;
    FreshInRange();
    DecodeInRange(NO_ENTRY, s, 0);
    DecodeHeld(NO_ENTRY, s, 0, 0, N);
    MulAtMost(N, GIBIBYTE, 2 * N + 33);
    if N <= LONGEST { MulAtMost(N, LONGEST, 2 * N + 33); }
    LenAtMost(0x0a, e.name);
    VarintRoundTrip(ToUint64(e.status), []);
    TimeRoundTrip(e.updated);
    LenAtMost(0x1a, TimeBytes(e.updated));
    if e.targetgroup.Some? {
      GroupAtMost(e.targetgroup.value, o, N);
      LenAtMost(0x22, TargetgroupBytes(e.targetgroup.value, o));
    }
  }

  /** Any bytes up to a gibibyte that a fresh entry accepts, and longer ones that are full in all their fields, decode
      to an entry that, written again in any order of its labels, decodes to the very same entry. */
  lemma {:induction false} MeshReencode(s: bytes, o: seq<bytes>)
    requires |s| <= GIBIBYTE || (MeshFull(s) && |s| < TWO_63)
    requires DecodeMesh(NO_ENTRY, s).err.None? && IsMeshOrder(o, DecodeMesh(NO_ENTRY, s).m)
    ensures DecodeMesh(NO_ENTRY, MeshBytes(DecodeMesh(NO_ENTRY, s).m, o)) == DecodeMesh(NO_ENTRY, s)
  {
    hide MeshStep, DecodeAll, MeshBytes, IsMeshOrder, ValidTime, MeshFull;
    FreshInRange();
    DecodeInRange(NO_ENTRY, s, 0);
    if |s| <= GIBIBYTE {
      GrowthBound(s, o);
    } else {
      MeshNoGrowth(s, o);
    }
    MeshRoundTrip(DecodeMesh(NO_ENTRY, s).m, o);
  }

  // ---- so what was merged can be written ----

  ghost predicate AllWritable(es: Entries) {
    forall n :: n in es ==> Writable(es[n])
  }

  /** A message that is not too long, or is full in all its fields. */
  ghost predicate Rewritable(message: bytes) {
    |message| <= LONGEST || MeshFull(message)
  }

  /** Each message in the frames of a stream is such. */
  ghost predicate StreamRewritable(s: bytes)
    decreases |s|
  {
    ReadFrame(s).Framed? ==>
      var Got(length, n) := Uvarint(s);
      Rewritable(s[n..n + length]) && StreamRewritable(s[ReadFrame(s).n..])
  }

  lemma {:induction false} DecodedWritable(s: bytes)
    requires Rewritable(s) && |s| < FRAME_LIMIT && DecodeMesh(NO_ENTRY, s).err.None?
    ensures Writable(DecodeMesh(NO_ENTRY, s).m)
  {
    hide MeshStep, DecodeAll, MeshBytes, IsMeshOrder, ValidTime, MeshFull;
    FreshInRange();
    DecodeInRange(NO_ENTRY, s, 0);
    forall o | IsMeshOrder(o, DecodeMesh(NO_ENTRY, s).m)
      ensures |MeshBytes(DecodeMesh(NO_ENTRY, s).m, o)| < FRAME_LIMIT
    {
      if |s| <= LONGEST {
        GrowthBound(s, o);
      } else {
        MeshNoGrowth(s, o);
      }
    }
  }

  /** A length that was read from five bytes is less than 2 to the 35. */
  lemma {:induction false} RawBelow(s: bytes, k: nat)
    requires RawVarint(s, k).Got?
    ensures RawVarint(s, k).value < Pow128(RawVarint(s, k).n)
  {
    if s[0] >= 128 {
      RawBelow(s[1..], k + 1);
    }
  }

  lemma {:induction false} FrameBelow(s: bytes)
    requires ReadFrame(s).Framed?
    ensures Uvarint(s).value < FRAME_LIMIT
  {
    hide DecodeMesh, RawVarint;
    RawBelow(s, 0);
    PowAtMost(Uvarint(s).n, 5);
    assert Pow128(1) == 128 && Pow128(2) == 128 * 128 && Pow128(3) == 0x20_0000 && Pow128(4) == 0x1000_0000;
    assert Pow128(5) == FRAME_LIMIT;
  }

  lemma {:induction false} ParsedWritable(s: bytes)
    requires StreamRewritable(s)
    ensures forall e :: e in Parse(s).entries ==> Writable(e)
    decreases |s|
  {
    hide DecodeMesh, Writable, Uvarint, Rewritable;
    if ReadFrame(s).Framed? {
      var Got(length, n) := Uvarint(s);
      FrameBelow(s);
      DecodedWritable(s[n..n + length]);
      ParsedWritable(s[ReadFrame(s).n..]);
    }
  }

  lemma {:induction false} ShortRewritable(s: bytes)
    requires |s| <= LONGEST
    ensures StreamRewritable(s)
    decreases |s|
  {
    hide DecodeMesh, Uvarint, MeshFull;
    if ReadFrame(s).Framed? {
      ShortRewritable(s[ReadFrame(s).n..]);
    }
  }

  lemma {:induction false} MergedWritable(es: Entries, s: seq<MeshEntry>)
    requires AllWritable(es) && forall e :: e in s ==> Writable(e)
    ensures AllWritable(MergeAll(es, s))
    decreases |s|
  {
    hide Writable;
    if s != [] {
      assert s[0] in s && forall e :: e in s[1..] ==> e in s;
      MergedWritable(MergeOne(es, s[0]), s[1..]);
    }
  }

  /** A store that can be written still can be after merging any bytes in which each message is at most 64 KiB long or
      full in its fields. */
  lemma {:induction false} MergeKeepsWritable(es: Entries, b: bytes)
    requires AllWritable(es) && StreamRewritable(b)
    ensures AllWritable(MergeAll(es, Parse(b).entries))
  {
    hide AllWritable, Writable, Parse, MergeAll, StreamRewritable;
    ParsedWritable(b);
    MergedWritable(es, Parse(b).entries);
  }

  ghost predicate StatesWritable(states: States) {
    forall k :: k in states ==> AllWritable(states[k])
  }

  /** And so can all the stores of a node, whatever part arrives. */
  lemma {:induction false} ReceivedWritable(states: States, p: Part)
    requires StatesWritable(states) && StreamRewritable(Content(p.data))
    ensures StatesWritable(Received(states, p))
  {
    hide AllWritable, Parse, MergeAll, StreamRewritable;
    if p.key in states {
      MergeKeepsWritable(states[p.key], Content(p.data));
    }
  }

  lemma {:induction false} MessageKeepsWritable(states: States, b: bytes)
    requires StatesWritable(states)
    requires |b| <= LONGEST || StreamRewritable(Content(DecodePart(NO_PART, b).m.data))
    ensures StatesWritable(MergeMessage(states, b))
  {
    hide StatesWritable, DecodePart, Received, StreamRewritable, PartBytes;
    var d := DecodePart(NO_PART, b);
    if d.err.None? {
      if |b| <= LONGEST {
        PartReencode(b);
        ContentAtMost(d.m);
        ShortRewritable(Content(d.m.data));
      }
      ReceivedWritable(states, d.m);
    }
  }

  lemma {:induction false} ContentAtMost(p: Part)
    ensures |Content(p.data)| <= |PartBytes(p)|
  {
  }

  lemma {:induction false} PartsKeepWritable(states: States, parts: seq<Part>)
    requires StatesWritable(states) && forall p :: p in parts ==> StreamRewritable(Content(p.data))
    ensures StatesWritable(MergeParts(states, parts))
    decreases |parts|
  {
    hide StatesWritable, Parse, Received, Stops, StreamRewritable;
    if parts != [] {
      assert parts[0] in parts && forall q :: q in parts[1..] ==> q in parts;
      ReceivedWritable(states, parts[0]);
      PartsKeepWritable(Received(states, parts[0]), parts[1..]);
    }
  }

  lemma {:induction false} StateKeepsWritable(states: States, buf: bytes)
    requires StatesWritable(states)
    requires |buf| <= LONGEST
             || forall p :: p in DecodeFullState(NO_STATE, buf).m.parts ==> StreamRewritable(Content(p.data))
    ensures StatesWritable(MergeState(states, buf))
  {
    hide StatesWritable, MergeParts, DecodeFullState, PartsBytes, PartBytes, LenBytes, StreamRewritable;
    if DecodeFullState(NO_STATE, buf).err.None? {
      var parts := DecodeFullState(NO_STATE, buf).m.parts;
      if |buf| <= LONGEST {
        FullStateReencode(buf);
        forall p | p in parts
          ensures StreamRewritable(Content(p.data))
        {
          var i :| 0 <= i < |parts| && parts[i] == p;
          PartsBytesFrom(parts, i);
          ContentAtMost(p);
          ShortRewritable(Content(p.data));
        }
      }
      PartsKeepWritable(states, parts);
    }
  }
}
