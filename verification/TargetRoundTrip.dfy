/** A MeshEntry survives a trip through bytes, in whatever order its label map was iterated. */
module TargetRoundTrip {
  import opened Base
  import opened Varint
  import opened Skip
  import opened Message
  import opened TargetPb

  // ---- scalars ----

  lemma SignedRoundTrip(i: int)
    ensures -TWO_63 <= i < TWO_63 ==> ToInt64(ToUint64(i)) == i
    ensures IsInt32(i) ==> ToInt32(ToUint64(i)) == i
  {
  }

  /** A negative number is sign-extended, and so takes all ten bytes. */
  lemma NegativeTakesTen(i: int)
    requires -TWO_63 <= i < 0
    ensures |VarintBytes(ToUint64(i))| == 10
  {
    assert ToUint64(i) == i + TWO_64;
    Pow128Ten();
    VarintAtLeast(i + TWO_64, 9);
    VarintRoundTrip(ToUint64(i), []);
  }

  lemma {:induction false} VarintAtLeast(v: nat, n: nat)
    requires v >= Pow128(n)
    ensures |VarintBytes(v)| > n
  {
    if n > 0 {
      VarintAtLeast(v / 128, n - 1);
    }
  }

  lemma ScalarReads(tag: byte, i: int, t: bytes)
    requires 8 <= tag < 128 && tag % 8 == 0 && i != 0
    ensures ReadTag(Scalar(tag, i) + t) == Tag(tag / 8, 0, 1)
    ensures Uvarint((Scalar(tag, i) + t)[1..]) == Got(ToUint64(i), |Scalar(tag, i)| - 1)
  {
    var rest := VarintBytes(ToUint64(i)) + t;
    assert Scalar(tag, i) + t == [tag] + rest;
    TagReads(tag, rest);
    VarintRoundTrip(ToUint64(i), t);
  }

  // ---- time ----

  lemma TimeStepReads(m: Time, tag: byte, i: int, t: bytes, pos: nat)
    requires (tag == 0x08 || tag == 0x10) && i != 0
    ensures Scalar(tag, i) != []
    ensures TimeStep(m, Scalar(tag, i) + t, pos)
         == Advance(if tag == 0x08 then m.(seconds := ToInt64(ToUint64(i))) else m.(nanos := ToInt32(ToUint64(i))),
                    |Scalar(tag, i)|)
  {
    hide ReadTag, Uvarint, UnknownField, ToInt32, ToInt64;
    ScalarReads(tag, i, t);
  }

  lemma TimeFieldReads(m: Time, tag: byte, i: int, t: bytes, pos: nat)
    requires (tag == 0x08 && -TWO_63 <= i < TWO_63 && m.seconds == 0) || (tag == 0x10 && IsInt32(i) && m.nanos == 0)
    ensures DecodeAll(TimeStep, m, Scalar(tag, i) + t, pos)
         == DecodeAll(TimeStep, if tag == 0x08 then m.(seconds := i) else m.(nanos := i), t, pos + |Scalar(tag, i)|)
  {
    hide TimeStep, ToInt32, ToInt64, ToUint64;
    SignedRoundTrip(i);
    if i == 0 {
      assert Scalar(tag, i) + t == t;
    } else {
      TimeStepReads(m, tag, i, t, pos);
      DecodeFirst(TimeStep, m, Scalar(tag, i), t, pos);
    }
  }

  lemma {:induction false} TimeRoundTrip(t: Time)
    requires ValidTime(t)
    ensures DecodeTime(TimeBytes(t)) == GotTime(t)
    ensures |TimeBytes(t)| <= 22
  {
    hide TimeStep, VarintBytes, Uvarint, ToUint64;
    var b := Scalar(0x10, t.nanos);
    TimeFieldReads(Time(0, 0), 0x08, t.seconds, b, 0);
    assert b + [] == b;
    TimeFieldReads(Time(t.seconds, 0), 0x10, t.nanos, [], |Scalar(0x08, t.seconds)|);
    VarintRoundTrip(ToUint64(t.seconds), []);
    VarintRoundTrip(ToUint64(t.nanos), []);
  }

  // ---- labels ----

  lemma {:induction false} EntryReads(k: bytes, v: bytes, t: bytes, pos: nat)
    requires !Wraps(pos + |LenBytes(0x0a, k) + LenBytes(0x12, v)|)
    ensures ReadEntry(LenBytes(0x0a, k) + LenBytes(0x12, v) + t, |LenBytes(0x0a, k) + LenBytes(0x12, v)|, pos, [], [])
         == Entry(k, v)
  {
    hide LenBytes, ReadEntry;
    var a, b := LenBytes(0x0a, k), LenBytes(0x12, v);
    assert a + b + t == a + (b + t);
    EntryDone(t, pos + |a| + |b|, k, v);
    EntryFieldReads(0x0a, k, b + t, |a + b|, pos, [], []);
    EntryFieldReads(0x12, v, t, |b|, pos + |a|, k, []);
  }

  lemma EntryDone(t: bytes, pos: nat, k: bytes, v: bytes)
    ensures ReadEntry(t, 0, pos, k, v) == Entry(k, v)
  {
  }

  lemma {:induction false} EntryFieldReads(tag: byte, d: bytes, t: bytes, left: int, pos: nat, key: bytes, val: bytes)
    requires (tag == 0x0a || tag == 0x12) && left >= |LenBytes(tag, d)| && !Wraps(pos + |LenBytes(tag, d)|)
    ensures ReadEntry(LenBytes(tag, d) + t, left, pos, key, val)
         == ReadEntry(t, left - |LenBytes(tag, d)|, pos + |LenBytes(tag, d)|,
                      if tag == 0x0a then d else key, if tag == 0x12 then d else val)
  {
    hide LenBytes, EntryField;
    EntryTurnReads(tag, d, t, left, pos);
    assert (LenBytes(tag, d) + t)[|LenBytes(tag, d)|..] == t;
  }

  lemma EntryTurnReads(tag: byte, d: bytes, t: bytes, left: int, pos: nat)
    requires (tag == 0x0a || tag == 0x12) && !Wraps(pos + |LenBytes(tag, d)|)
    ensures EntryField(LenBytes(tag, d) + t, left, pos)
         == if tag == 0x0a then KeyRead(d, |LenBytes(tag, d)|) else ValueRead(d, |LenBytes(tag, d)|)
  {
    hide LenBytes, LenDelimited, SkipField, Uvarint;
    LenReads(tag, d, t, pos);
    UvarintOfTag(LenBytes(tag, d) + t);
  }

  lemma UvarintOfTag(s: bytes)
    requires ReadTag(s).Tag?
    ensures Uvarint(s).Got? && Uvarint(s).n == ReadTag(s).n && ToInt32(Uvarint(s).value / 8) == ReadTag(s).field
  {
  }

  lemma PayloadEnds(tag: byte, payload: bytes, t: bytes)
    ensures (LenBytes(tag, payload) + t)[|LenBytes(tag, payload)| - |payload|..] == payload + t
  {
    var h := [tag] + VarintBytes(|payload|);
    assert LenBytes(tag, payload) + t == h + (payload + t);
  }

  lemma LabelStepReads(m: Targetgroup, k: bytes, v: bytes, t: bytes, pos: nat)
    requires !Wraps(pos + |EntryBytes(k, v)|)
    ensures TargetgroupStep(m, EntryBytes(k, v) + t, pos)
         == Advance(m.(labels := m.labels[k := v]), |EntryBytes(k, v)|)
  {
    hide LenBytes, ReadTag, LenDelimited, UnknownField, ReadEntry;
    var e := LenBytes(0x0a, k) + LenBytes(0x12, v);
    PayloadEnds(0x12, e, t);
    LenReads(0x12, e, t, pos);
    EntryReads(k, v, t, pos + |EntryBytes(k, v)| - |e|);
  }

  /** The map that results from assigning the entries in turn. */
  function Assign(m: map<bytes, bytes>, labels: map<bytes, bytes>, order: seq<bytes>): map<bytes, bytes>
    decreases |order|
  {
    if order == [] then m else Assign(m[order[0] := ValueOf(labels, order[0])], labels, order[1..])
  }

  lemma {:induction false} AssignIs(m: map<bytes, bytes>, labels: map<bytes, bytes>, order: seq<bytes>)
    ensures forall k :: k in Assign(m, labels, order) <==> k in m || k in order
    ensures forall k :: k in order ==> Assign(m, labels, order)[k] == ValueOf(labels, k)
    ensures forall k :: k in m && k !in order ==> Assign(m, labels, order)[k] == m[k]
    decreases |order|
  {
    if order != [] {
      assert forall k :: k in order <==> k == order[0] || k in order[1..];
      AssignIs(m[order[0] := ValueOf(labels, order[0])], labels, order[1..]);
    }
  }

  /** Every iteration order rebuilds the same map. */
  lemma AssignAll(labels: map<bytes, bytes>, order: seq<bytes>)
    requires IsOrder(order, labels)
    ensures Assign(map[], labels, order) == labels
  {
    AssignIs(map[], labels, order);
  }

  lemma {:induction false} LabelsRead(m: Targetgroup, labels: map<bytes, bytes>, order: seq<bytes>, pos: nat)
    requires !Wraps(pos + |LabelsBytes(labels, order)|)
    ensures DecodeAll(TargetgroupStep, m, LabelsBytes(labels, order), pos)
         == Decoded(m.(labels := Assign(m.labels, labels, order)), None)
    decreases |order|
  {
    hide TargetgroupStep, EntryBytes;
    if order != [] {
      var k := order[0];
      var v := ValueOf(labels, k);
      var b, rest := EntryBytes(k, v), LabelsBytes(labels, order[1..]);
      EntryNonempty(k, v);
      LabelStepReads(m, k, v, rest, pos);
      DecodeFirst(TargetgroupStep, m, b, rest, pos);
      LabelsRead(m.(labels := m.labels[k := v]), labels, order[1..], pos + |b|);
    }
  }

  lemma EntryNonempty(k: bytes, v: bytes)
    ensures EntryBytes(k, v) != []
  {
  }

  // ---- Targetgroup ----

  lemma TargetStepReads(m: Targetgroup, d: bytes, t: bytes, pos: nat)
    requires !Wraps(pos + |LenBytes(0x0a, d)|)
    ensures TargetgroupStep(m, LenBytes(0x0a, d) + t, pos)
         == Advance(m.(targets := m.targets + [d]), |LenBytes(0x0a, d)|)
  {
    hide LenBytes, ReadTag, LenDelimited, UnknownField, ReadEntry;
    LenReads(0x0a, d, t, pos);
  }

  lemma {:induction false} TargetsSnoc(ts: seq<bytes>, d: bytes)
    ensures TargetsBytes(ts + [d]) == TargetsBytes(ts) + LenBytes(0x0a, d)
  {
    hide LenBytes;
    if ts == [] {
      assert [d][1..] == [];
    } else {
      assert (ts + [d])[1..] == ts[1..] + [d];
      TargetsSnoc(ts[1..], d);
    }
  }

  lemma {:induction false} TargetsRead(m: Targetgroup, ts: seq<bytes>, t: bytes, pos: nat)
    requires !Wraps(pos + |TargetsBytes(ts)|)
    ensures DecodeAll(TargetgroupStep, m, TargetsBytes(ts) + t, pos)
         == DecodeAll(TargetgroupStep, m.(targets := m.targets + ts), t, pos + |TargetsBytes(ts)|)
    decreases |ts|
  {
    hide TargetgroupStep, LenBytes;
    if ts == [] {
      assert TargetsBytes(ts) + t == t && m.targets + ts == m.targets;
    } else {
      var b, rest := LenBytes(0x0a, ts[0]), TargetsBytes(ts[1..]);
      assert TargetsBytes(ts) + t == b + (rest + t);
      TargetStepReads(m, ts[0], rest + t, pos);
      DecodeFirst(TargetgroupStep, m, b, rest + t, pos);
      TargetsRead(m.(targets := m.targets + [ts[0]]), ts[1..], t, pos + |b|);
      assert m.targets + [ts[0]] + ts[1..] == m.targets + ts;
    }
  }

  /** Targets are appended, labels overridden. */
  function GroupOver(m: Targetgroup, tg: Targetgroup): Targetgroup {
    Targetgroup(m.targets + tg.targets, m.labels + tg.labels)
  }

  /** Decoding a written group on top of any other. */
  lemma {:induction false} GroupReadsOver(m: Targetgroup, tg: Targetgroup, order: seq<bytes>)
    requires IsOrder(order, tg.labels) && |TargetgroupBytes(tg, order)| < TWO_63
    ensures DecodeTargetgroup(m, TargetgroupBytes(tg, order)) == Decoded(GroupOver(m, tg), None)
  {
    hide TargetgroupStep, DecodeAll, LabelsBytes, TargetsBytes;
    TargetsRead(m, tg.targets, LabelsBytes(tg.labels, order), 0);
    LabelsRead(Targetgroup(m.targets + tg.targets, m.labels), tg.labels, order, |TargetsBytes(tg.targets)|);
    AssignIs(m.labels, tg.labels, order);
    assert Assign(m.labels, tg.labels, order) == m.labels + tg.labels;
  }

  /** Targets come back in order and labels as a map, whatever the iteration order was. */
  lemma TargetgroupRoundTrip(tg: Targetgroup, order: seq<bytes>)
    requires IsOrder(order, tg.labels) && |TargetgroupBytes(tg, order)| < TWO_63
    ensures DecodeTargetgroup(NO_GROUP, TargetgroupBytes(tg, order)) == Decoded(tg, None)
  {
    hide DecodeTargetgroup, TargetgroupBytes, IsOrder;
    GroupReadsOver(NO_GROUP, tg, order);
    assert [] + tg.targets == tg.targets && map[] + tg.labels == tg.labels;
  }

  // ---- MeshEntry ----

  function WithChunk(m: MeshEntry, tag: byte, d: bytes): Step<MeshEntry> {
    if tag == 0x0a then Advance(m.(name := d), |LenBytes(tag, d)|)
    else if tag == 0x1a then
      match DecodeTime(d)
      case BadTime(e) => Fail(m, e)
      case GotTime(u) => Advance(m.(updated := u), |LenBytes(tag, d)|)
    else
      var r := DecodeTargetgroup(if m.targetgroup.Some? then m.targetgroup.value else NO_GROUP, d);
      var m' := m.(targetgroup := Some(r.m));
      if r.err.Some? then Fail(m', r.err.value) else Advance(m', |LenBytes(tag, d)|)
  }

  lemma MeshChunkReads(m: MeshEntry, tag: byte, d: bytes, t: bytes, pos: nat)
    requires (tag == 0x0a || tag == 0x1a || tag == 0x22) && !Wraps(pos + |LenBytes(tag, d)|)
    ensures MeshStep(m, LenBytes(tag, d) + t, pos) == WithChunk(m, tag, d)
  {
    hide LenBytes, ReadTag, LenDelimited, UnknownField, DecodeTime, DecodeTargetgroup, Uvarint;
    LenReads(tag, d, t, pos);
  }

  lemma MeshStatusReads(m: MeshEntry, status: int, t: bytes, pos: nat)
    requires IsInt32(status) && status != 0
    ensures Scalar(0x10, status) != []
    ensures MeshStep(m, Scalar(0x10, status) + t, pos) == Advance(m.(status := status), |Scalar(0x10, status)|)
  {
    hide ReadTag, LenDelimited, UnknownField, DecodeTime, DecodeTargetgroup, Uvarint, ToInt32, ToUint64, Bits;
    SignedRoundTrip(status);
    ScalarReads(0x10, status, t);
    WordOfVarint((Scalar(0x10, status) + t)[1..]);
  }

  lemma NameReads(m: MeshEntry, name: bytes, t: bytes, pos: nat)
    requires !Wraps(pos + |Optional(0x0a, name)|)
    ensures DecodeAll(MeshStep, m, Optional(0x0a, name) + t, pos)
         == DecodeAll(MeshStep, if name == [] then m else m.(name := name), t, pos + |Optional(0x0a, name)|)
  {
    hide MeshStep, LenBytes;
    if name == [] {
      assert Optional(0x0a, name) + t == t;
    } else {
      MeshChunkReads(m, 0x0a, name, t, pos);
      DecodeFirst(MeshStep, m, LenBytes(0x0a, name), t, pos);
    }
  }

  lemma StatusReads(m: MeshEntry, status: int, t: bytes, pos: nat)
    requires IsInt32(status)
    ensures DecodeAll(MeshStep, m, Scalar(0x10, status) + t, pos)
         == DecodeAll(MeshStep, if status == 0 then m else m.(status := status), t, pos + |Scalar(0x10, status)|)
  {
    hide MeshStep;
    if status == 0 {
      assert Scalar(0x10, status) + t == t;
    } else {
      MeshStatusReads(m, status, t, pos);
      hide Scalar;
      DecodeFirst(MeshStep, m, Scalar(0x10, status), t, pos);
    }
  }

  lemma {:induction false} UpdatedReads(m: MeshEntry, u: Time, t: bytes, pos: nat)
    requires ValidTime(u) && !Wraps(pos + |LenBytes(0x1a, TimeBytes(u))|)
    ensures DecodeAll(MeshStep, m, LenBytes(0x1a, TimeBytes(u)) + t, pos)
         == DecodeAll(MeshStep, m.(updated := u), t, pos + |LenBytes(0x1a, TimeBytes(u))|)
  {
    hide MeshStep, LenBytes, TimeBytes;
    MeshChunkReads(m, 0x1a, TimeBytes(u), t, pos);
    TimeRoundTrip(u);
    DecodeFirst(MeshStep, m, LenBytes(0x1a, TimeBytes(u)), t, pos);
  }

  /** A name and a status count only if they were written; a group is merged into the one that is there. */
  function MeshOver(m: MeshEntry, e: MeshEntry): MeshEntry {
    MeshEntry(if e.name == [] then m.name else e.name, if e.status == 0 then m.status else e.status, e.updated,
              if e.targetgroup.None? then m.targetgroup
              else Some(GroupOver(if m.targetgroup.Some? then m.targetgroup.value else NO_GROUP, e.targetgroup.value)))
  }

  lemma {:induction false} FieldReadsOver(m: MeshEntry, tg: Option<Targetgroup>, order: seq<bytes>, pos: nat)
    requires (tg.Some? ==> IsOrder(order, tg.value.labels)) && !Wraps(pos + |GroupField(tg, order)|)
    ensures DecodeAll(MeshStep, m, GroupField(tg, order), pos)
         == Decoded(MeshOver(m, MeshEntry([], 0, m.updated, tg)), None)
  {
    hide MeshStep, LenBytes, TargetgroupBytes, IsOrder, GroupOver;
    if tg.Some? {
      var b := TargetgroupBytes(tg.value, order);
      assert LenBytes(0x22, b) + [] == GroupField(tg, order);
      MeshChunkReads(m, 0x22, b, [], pos);
      GroupReadsOver(if m.targetgroup.Some? then m.targetgroup.value else NO_GROUP, tg.value, order);
      DecodeFirst(MeshStep, m, LenBytes(0x22, b), [], pos);
    }
  }

  /** Decoding a written entry on top of any other. */
  lemma {:induction false} MeshReadsOver(m: MeshEntry, e: MeshEntry, order: seq<bytes>)
    requires IsInt32(e.status) && ValidTime(e.updated) && IsMeshOrder(order, e) && |MeshBytes(e, order)| < TWO_63
    ensures DecodeMesh(m, MeshBytes(e, order)) == Decoded(MeshOver(m, e), None)
  {
    hide Optional, Scalar, LenBytes, TimeBytes, GroupField, DecodeAll, MeshStep, ValidTime, IsInt32, GroupOver;
    var a, b, c, d := Optional(0x0a, e.name), Scalar(0x10, e.status), LenBytes(0x1a, TimeBytes(e.updated)),
        GroupField(e.targetgroup, order);
    var m1 := if e.name == [] then m else m.(name := e.name);
    var m2 := if e.status == 0 then m1 else m1.(status := e.status);
    var m3 := m2.(updated := e.updated);
    NameReads(m, e.name, b + (c + d), 0);
    StatusReads(m1, e.status, c + d, |a|);
    UpdatedReads(m2, e.updated, d, |a| + |b|);
    FieldReadsOver(m3, e.targetgroup, order, |a| + |b| + |c|);
  }

  /** The round trip: every int32 status, every valid instant, the labels whatever order they were written in,
      and an absent group distinct from an empty one. */
  lemma MeshRoundTrip(e: MeshEntry, order: seq<bytes>)
    requires IsInt32(e.status) && ValidTime(e.updated) && IsMeshOrder(order, e) && |MeshBytes(e, order)| < TWO_63
    ensures DecodeMesh(NO_ENTRY, MeshBytes(e, order)) == Decoded(e, None)
  {
    hide DecodeMesh, MeshBytes, IsMeshOrder, ValidTime;
    MeshReadsOver(NO_ENTRY, e, order);
    assert forall tg: Targetgroup :: [] + tg.targets == tg.targets && map[] + tg.labels == tg.labels;
  }

  // ---- the size does not depend on the order ----

  lemma {:induction false} LabelsWithout(labels: map<bytes, bytes>, order: seq<bytes>, j: nat)
    requires j < |order|
    ensures |LabelsBytes(labels, order)|
         == |EntryBytes(order[j], ValueOf(labels, order[j]))| + |LabelsBytes(labels, order[..j] + order[j + 1..])|
    decreases j
  {
    hide EntryBytes;
    var rest := order[..j] + order[j + 1..];
    if j == 0 {
      assert rest == order[1..];
    } else {
      LabelsWithout(labels, order[1..], j - 1);
      assert rest[1..] == order[1..][..j - 1] + order[1..][j..];
    }
  }

  lemma {:induction false} SubOrderSize(labels: map<bytes, bytes>, p: seq<bytes>, q: seq<bytes>)
    requires Distinct(p) && Distinct(q) && forall k :: k in p ==> k in q
    ensures |LabelsBytes(labels, p)| <= |LabelsBytes(labels, q)|
    decreases |p|
  {
    hide EntryBytes;
    if p != [] {
      assert p[0] in p && p[0] in q;
      var j :| 0 <= j < |q| && q[j] == p[0];
      var r := q[..j] + q[j + 1..];
      LabelsWithout(labels, q, j);
      forall k | k in p[1..]
        ensures k in r
      {
        assert k in p && k in q && k != p[0];
        var i :| 0 <= i < |q| && q[i] == k;
        assert r[if i < j then i else i - 1] == k;
      }
      SubOrderSize(labels, p[1..], r);
    }
  }

  /** So what `Size` adds up in one iteration order is what the writer needs in another. */
  lemma SizeAnyOrder(tg: Targetgroup, p: seq<bytes>, q: seq<bytes>)
    requires IsOrder(p, tg.labels) && IsOrder(q, tg.labels)
    ensures |TargetgroupBytes(tg, p)| == |TargetgroupBytes(tg, q)|
  {
    SubOrderSize(tg.labels, p, q);
    SubOrderSize(tg.labels, q, p);
  }
}
