/** The methods of MeshEntry, and the decoders of both target messages. */
module MeshCodec {
  import opened Base
  import opened Varint
  import opened Skip
  import opened Message
  import opened TargetPb
  import opened TargetRoundTrip
  import opened TargetCodec

  /** The part of a MeshEntry that is written before its name and status are. */
  function MeshTail(e: MeshEntry, order: seq<bytes>): bytes {
    LenBytes(0x1a, TimeBytes(e.updated)) + GroupField(e.targetgroup, order)
  }

  lemma MeshBytesParts(e: MeshEntry, order: seq<bytes>)
    ensures MeshBytes(e, order) == Optional(0x0a, e.name) + (Scalar(0x10, e.status) + MeshTail(e, order))
  {
  }

  lemma MeshSizeAnyOrder(e: MeshEntry, p: seq<bytes>, q: seq<bytes>)
    requires IsMeshOrder(p, e) && IsMeshOrder(q, e)
    ensures |SizedBytes(e, p)| == |SizedBytes(e, q)| && |GroupField(e.targetgroup, p)| == |GroupField(e.targetgroup, q)|
  {
    if e.targetgroup.Some? {
      SizeAnyOrder(e.targetgroup.value, p, q);
    }
  }

  /** `SizeOfStdTime`: an instant out of range, which cannot be written, counts for nothing. */
  function SizedTime(t: Time): bytes {
    if ValidTime(t) then TimeBytes(t) else []
  }

  /** What `Size` makes room for. */
  function SizedBytes(e: MeshEntry, order: seq<bytes>): (b: bytes)
    ensures ValidTime(e.updated) ==> b == MeshBytes(e, order)
  {
    Optional(0x0a, e.name)
    + (Scalar(0x10, e.status) + (LenBytes(0x1a, SizedTime(e.updated)) + GroupField(e.targetgroup, order)))
  }

  lemma SizedAtMost(e: MeshEntry, order: seq<bytes>)
    ensures |SizedBytes(e, order)| <= |MeshBytes(e, order)|
  {
    assert |LenBytes(0x1a, [])| == 2;
  }

  /** `MeshEntry.Size`. */
  method SizeMesh(e: MeshEntry, ghost all: seq<bytes>) returns (n: nat)
    requires IsMeshOrder(all, e) && |SizedBytes(e, all)| < TWO_63
    ensures n == |SizedBytes(e, all)|
  {
    hide IsOrder, TargetgroupBytes, SizedTime;
    n := 0;
    if |e.name| > 0 {
      LenBytesSize(0x0a, e.name);
      n := n + LenSize(|e.name|);
    }
    if e.status != 0 {
      SovIsLength(ToUint64(e.status));
      n := n + 1 + Sov(ToUint64(e.status));
    }
    LenBytesSize(0x1a, SizedTime(e.updated));
    n := n + LenSize(|SizedTime(e.updated)|);
    if e.targetgroup.Some? {
      var l := SizeTargetgroup(e.targetgroup.value, all);
      LenBytesSize(0x22, TargetgroupBytes(e.targetgroup.value, all));
      n := n + LenSize(l);
    }
  }

  /** The nested group with its size and tag, when there is one. */
  method MarshalGroupField(tg: Option<Targetgroup>, dAtA: array<byte>, end: nat, ghost all: seq<bytes>)
      returns (i: nat, ghost order: seq<bytes>)
    requires (tg.Some? ==> IsOrder(all, tg.value.labels)) && |GroupField(tg, all)| <= end <= dAtA.Length < TWO_63
    modifies dAtA
    ensures (tg.Some? ==> IsOrder(order, tg.value.labels)) && i == end - |GroupField(tg, order)|
    ensures Wrote(old(dAtA[..]), dAtA[..], i, end, GroupField(tg, order))
  {
    i, order := end, all;
    if tg.Some? {
      ghost var d0 := dAtA[..];
      var size;
      size, order := MarshalTargetgroupTo(tg.value, dAtA, end, all);
      SizeAnyOrder(tg.value, all, order);
      hide IsOrder, TargetgroupBytes;
      i := PutSize(dAtA, end - size, 0x22, end, d0, TargetgroupBytes(tg.value, order));
    }
  }

  method PutScalar(dAtA: array<byte>, i: nat, tag: byte, v: int, end: nat, ghost d0: bytes, ghost tail: bytes)
      returns (j: nat)
    requires |Scalar(tag, v)| <= i <= dAtA.Length && Wrote(d0, dAtA[..], i, end, tail)
    modifies dAtA
    ensures j == i - |Scalar(tag, v)| && Wrote(d0, dAtA[..], j, end, Scalar(tag, v) + tail)
  {
    j := i;
    if v != 0 {
      ghost var d1 := dAtA[..];
      j := PutTagged(dAtA, i, tag, ToUint64(v));
      WroteInFront(d0, d1, dAtA[..], j, i, end, Scalar(tag, v), tail);
    } else {
      assert [] + tail == tail;
    }
  }

  method PutName(dAtA: array<byte>, i: nat, name: bytes, end: nat, ghost d0: bytes, ghost tail: bytes)
      returns (j: nat)
    requires |Optional(0x0a, name)| <= i <= dAtA.Length < TWO_63 && Wrote(d0, dAtA[..], i, end, tail)
    modifies dAtA
    ensures j == i - |Optional(0x0a, name)| && Wrote(d0, dAtA[..], j, end, Optional(0x0a, name) + tail)
  {
    ghost var d1 := dAtA[..];
    j := PutOptional(dAtA, i, 0x0a, name);
    WroteInFront(d0, d1, dAtA[..], j, i, end, Optional(0x0a, name), tail);
  }

  /** `MeshEntry.MarshalToSizedBuffer(dAtA[:end])`: an instant out of range is an error. */
  method MarshalMeshTo(e: MeshEntry, dAtA: array<byte>, end: nat, ghost all: seq<bytes>)
      returns (size: nat, err: Option<Error>, ghost order: seq<bytes>)
    requires IsMeshOrder(all, e) && |SizedBytes(e, all)| <= end <= dAtA.Length < TWO_63
    modifies dAtA
    ensures err == (if ValidTime(e.updated) then None else Some(InvalidTime))
    ensures IsMeshOrder(order, e)
    ensures err.None? ==> size == |MeshBytes(e, order)| <= end
    ensures err.None? ==> Wrote(old(dAtA[..]), dAtA[..], end - size, end, MeshBytes(e, order))
  {
    hide IsOrder, Wrote, LenBytes, GroupField, Optional, Scalar;
    size := 0;
    var i: nat;
    MeshBytesParts(e, all);
    i, order := MarshalGroupField(e.targetgroup, dAtA, end, all);
    MeshSizeAnyOrder(e, all, order);
    if !ValidTime(e.updated) { return 0, Some(InvalidTime), order; }
    hide ValidTime, TimeBytes;
    MeshBytesParts(e, order);
    ghost var d0 := old(dAtA[..]);
    i := PutInFront(dAtA, i, 0x1a, TimeBytes(e.updated), end, d0, GroupField(e.targetgroup, order));
    i := PutScalar(dAtA, i, 0x10, e.status, end, d0, MeshTail(e, order));
    i := PutName(dAtA, i, e.name, end, d0, Scalar(0x10, e.status) + MeshTail(e, order));
    size := end - i;
    err := None;
  }

  /** `MeshEntry.Marshal`. */
  method MarshalMesh(e: MeshEntry, ghost all: seq<bytes>)
      returns (dAtA: array<byte>, err: Option<Error>, ghost order: seq<bytes>)
    requires IsMeshOrder(all, e) && |SizedBytes(e, all)| < TWO_63
    ensures fresh(dAtA) && err == (if ValidTime(e.updated) then None else Some(InvalidTime))
    ensures IsMeshOrder(order, e)
    ensures err.None? ==> dAtA[..] == MeshBytes(e, order)
  {
    hide SizedBytes, MeshBytes, IsOrder;
    var size := SizeMesh(e, all);
    dAtA := new byte[size](_ => 0);
    var n;
    n, err, order := MarshalMeshTo(e, dAtA, size, all);
    MeshSizeAnyOrder(e, all, order);
    assert dAtA[0..size] == dAtA[..];
  }

  // ---- Unmarshal ----

  /** `StdTimeUnmarshal`, the loop of the library's Timestamp message. */
  method UnmarshalTime(dAtA: bytes) returns (r: TimeRead)
    ensures r == DecodeTime(dAtA)
  {
    hide ReadTag, UnknownField, Uvarint;
    var t := Time(0, 0);
    var iNdEx := 0;
    assert dAtA[0..] == dAtA;
    while iNdEx < |dAtA|
      invariant 0 <= iNdEx <= |dAtA|
      invariant DecodeAll(TimeStep, Time(0, 0), dAtA, 0) == DecodeAll(TimeStep, t, dAtA[iNdEx..], iNdEx)
      decreases |dAtA| - iNdEx
    {
      ghost var rest := dAtA[iNdEx..];
      var tag := ReadTagAt(dAtA, iNdEx);
      if tag.NoTag? { return BadTime(tag.err); }
      assert rest[tag.n..] == dAtA[iNdEx + tag.n..];
      var n: nat;
      if tag.field > 2 {
        var c := ReadUnknown(dAtA, iNdEx);
        if c.NoChunk? { return BadTime(c.err); }
        n := c.n;
      } else {
        if tag.wireType != 0 { return BadTime(WrongWireType(tag.wireType, tag.field)); }
        var v := ReadVarint(dAtA, iNdEx + tag.n);
        if v.Bad? { return BadTime(v.err); }
        t := if tag.field == 1 then t.(seconds := ToInt64(v.value)) else t.(nanos := ToInt32(v.value));
        n := tag.n + v.n;
      }
      assert rest[n..] == dAtA[iNdEx + n..];
      iNdEx := iNdEx + n;
    }
    r := if ValidTime(t) then GotTime(t) else BadTime(InvalidTime);
  }

  /** One turn of the inner loop over a map entry, which ends at `postIndex` of the whole buffer. */
  method UnmarshalEntryField(dAtA: bytes, iNdEx: nat, postIndex: nat) returns (r: EntryTurn)
    requires iNdEx <= postIndex <= |dAtA|
    ensures r == EntryField(dAtA[iNdEx..], postIndex - iNdEx, iNdEx)
  {
    hide Uvarint, LenDelimited, SkipField;
    var wire := ReadVarint(dAtA, iNdEx);
    if wire.Bad? { return Stuck(wire.err); }
    assert dAtA[iNdEx..][wire.n..] == dAtA[iNdEx + wire.n..];
    var fieldNum := ToInt32(wire.value / 8);
    if fieldNum == 1 || fieldNum == 2 {
      var c := ReadLen(dAtA, iNdEx + wire.n);
      if c.NoChunk? { return Stuck(c.err); }
      return if fieldNum == 1 then KeyRead(c.data, wire.n + c.n) else ValueRead(c.data, wire.n + c.n);
    }
    var skippy := SkipMethod(dAtA[iNdEx..]);
    if skippy.NoCount? { return Stuck(skippy.err); }
    if Wraps(iNdEx + skippy.n) { return Escaped; }
    if iNdEx + skippy.n > postIndex { return Stuck(UnexpectedEOF); }
    r := Passed(skippy.n);
  }

  method UnmarshalEntry(dAtA: bytes, start: nat, postIndex: nat) returns (r: EntryRead)
    requires start <= postIndex <= |dAtA|
    ensures r == ReadEntry(dAtA[start..], postIndex - start, start, [], [])
  {
    hide EntryField;
    var iNdEx := start;
    var mapkey: bytes, mapvalue: bytes := [], [];
    while iNdEx < postIndex
      invariant start <= iNdEx <= |dAtA|
      invariant ReadEntry(dAtA[start..], postIndex - start, start, [], [])
             == ReadEntry(dAtA[iNdEx..], postIndex - iNdEx, iNdEx, mapkey, mapvalue)
      decreases |dAtA| - iNdEx
    {
      ghost var rest := dAtA[iNdEx..];
      var turn := UnmarshalEntryField(dAtA, iNdEx, postIndex);
      match turn {
        case Stuck(e) => return BadEntry(e);
        case Escaped => return EntryPanics;
        case KeyRead(data, _) => mapkey := data;
        case ValueRead(data, _) => mapvalue := data;
        case Passed(_) =>
      }
      assert rest[turn.n..] == dAtA[iNdEx + turn.n..];
      iNdEx := iNdEx + turn.n;
    }
    r := Entry(mapkey, mapvalue);
  }

  class TargetgroupMessage {
    var targets: seq<bytes>
    var labels: map<bytes, bytes>

    function Value(): Targetgroup
      reads this
    {
      Targetgroup(targets, labels)
    }

    constructor ()
      ensures Value() == NO_GROUP
    {
      targets, labels := [], map[];
    }

    /** `Targetgroup.Unmarshal`. */
    method Unmarshal(dAtA: bytes) returns (out: Outcome)
      modifies this
      ensures Value() == DecodeTargetgroup(old(Value()), dAtA).m
      ensures out == OutcomeOf(DecodeTargetgroup(old(Value()), dAtA).err)
    {
      hide TargetgroupStep;
      var iNdEx := 0;
      assert dAtA[0..] == dAtA;
      while iNdEx < |dAtA|
        invariant 0 <= iNdEx <= |dAtA|
        invariant DecodeTargetgroup(old(Value()), dAtA) == DecodeAll(TargetgroupStep, Value(), dAtA[iNdEx..], iNdEx)
        decreases |dAtA| - iNdEx
      {
        var n;
        n, out := UnmarshalField(dAtA, iNdEx);
        if out != Returned(None) { return; }
        assert dAtA[iNdEx..][n..] == dAtA[iNdEx + n..];
        iNdEx := iNdEx + n;
      }
      out := Returned(None);
    }

    /** One turn of the loop: the switch on the field number. */
    method UnmarshalField(dAtA: bytes, iNdEx: nat) returns (n: nat, out: Outcome)
      requires iNdEx < |dAtA|
      modifies this
      ensures match TargetgroupStep(old(Value()), dAtA[iNdEx..], iNdEx)
              case Fail(m, e) => out == OutcomeOf(Some(e)) && m == Value()
              case Advance(m, k) => out == Returned(None) && m == Value() && k == n && 1 <= n <= |dAtA| - iNdEx
    {
      hide ReadTag, UnknownField, LenDelimited, ReadEntry;
      n := 0;
      ghost var rest := dAtA[iNdEx..];
      var tag := ReadTagAt(dAtA, iNdEx);
      if tag.NoTag? { return 0, Returned(Some(tag.err)); }
      assert rest[tag.n..] == dAtA[iNdEx + tag.n..];
      if tag.field > 2 {
        var c := ReadUnknown(dAtA, iNdEx);
        if c.NoChunk? { return 0, Returned(Some(c.err)); }
        return c.n, Returned(None);
      }
      if tag.wireType != 2 { return 0, Returned(Some(WrongWireType(tag.wireType, tag.field))); }
      var c := ReadLen(dAtA, iNdEx + tag.n);
      if c.NoChunk? { return 0, Returned(Some(c.err)); }
      n, out := tag.n + c.n, Returned(None);
      if tag.field == 1 {
        targets := targets + [c.data];
      } else {
        var h := n - |c.data|;
        assert rest[h..] == dAtA[iNdEx + h..];
        var entry := UnmarshalEntry(dAtA, iNdEx + h, iNdEx + n);
        if entry.EntryPanics? { return 0, Panicked; }
        if entry.BadEntry? { return 0, Returned(Some(entry.err)); }
        labels := labels[entry.key := entry.val];
      }
    }
  }

  class MeshEntryMessage {
    var name: bytes
    var status: int
    var updated: Time
    var targetgroup: TargetgroupMessage?

    function Value(): MeshEntry
      reads this, targetgroup
    {
      MeshEntry(name, status, updated, if targetgroup == null then None else Some(targetgroup.Value()))
    }

    constructor ()
      ensures Value() == NO_ENTRY && targetgroup == null
    {
      name, status, updated, targetgroup := [], 0, ZERO_TIME, null;
    }

    /** `MeshEntry.Unmarshal`, also when it fails half way. */
    method Unmarshal(dAtA: bytes) returns (out: Outcome)
      modifies this, targetgroup
      ensures out == OutcomeOf(DecodeMesh(old(Value()), dAtA).err)
      ensures Value() == DecodeMesh(old(Value()), dAtA).m
      ensures targetgroup == old(targetgroup) || fresh(targetgroup)
    {
      hide ReadTag, UnknownField, LenDelimited, Uvarint, DecodeTime, DecodeTargetgroup, Bits;
      var iNdEx := 0;
      assert dAtA[0..] == dAtA;
      while iNdEx < |dAtA|
        invariant 0 <= iNdEx <= |dAtA|
        invariant targetgroup == old(targetgroup) || fresh(targetgroup)
        invariant DecodeMesh(old(Value()), dAtA) == DecodeAll(MeshStep, Value(), dAtA[iNdEx..], iNdEx)
        decreases |dAtA| - iNdEx
      {
        var n;
        n, out := UnmarshalField(dAtA, iNdEx);
        if out != Returned(None) { return; }
        assert dAtA[iNdEx..][n..] == dAtA[iNdEx + n..];
        iNdEx := iNdEx + n;
      }
      out := Returned(None);
    }

    /** One turn of the loop: the switch on the field number. */
    method UnmarshalField(dAtA: bytes, iNdEx: nat) returns (n: nat, out: Outcome)
      requires iNdEx < |dAtA|
      modifies this, targetgroup
      ensures targetgroup == old(targetgroup) || fresh(targetgroup)
      ensures match MeshStep(old(Value()), dAtA[iNdEx..], iNdEx)
              case Fail(m, e) => out == OutcomeOf(Some(e)) && m == Value()
              case Advance(m, k) => out == Returned(None) && m == Value() && k == n && 1 <= n <= |dAtA| - iNdEx
    {
      hide ReadTag, UnknownField, LenDelimited, Uvarint, DecodeTime, DecodeTargetgroup, Bits;
      n := 0;
      ghost var rest := dAtA[iNdEx..];
      var tag := ReadTagAt(dAtA, iNdEx);
      if tag.NoTag? { return 0, Returned(Some(tag.err)); }
      assert rest[tag.n..] == dAtA[iNdEx + tag.n..];
      if tag.field > 4 {
        var c := ReadUnknown(dAtA, iNdEx);
        if c.NoChunk? { return 0, Returned(Some(c.err)); }
        return c.n, Returned(None);
      }
      if tag.wireType != (if tag.field == 2 then 0 else 2) {
        return 0, Returned(Some(WrongWireType(tag.wireType, tag.field)));
      }
      if tag.field == 2 {
        var word, v := ReadWord(dAtA, iNdEx + tag.n);
        status := ToInt32(word);
        if v.Bad? { return 0, Returned(Some(v.err)); }
        return tag.n + v.n, Returned(None);
      }
      var c := ReadLen(dAtA, iNdEx + tag.n);
      if c.NoChunk? { return 0, Returned(Some(c.err)); }
      n, out := tag.n + c.n, Returned(None);
      match tag.field {
        case 1 => name := c.data;
        case 3 =>
          var u := UnmarshalTime(c.data);
          if u.BadTime? { return 0, Returned(Some(u.err)); }
          updated := u.t;
        case _ =>
          if targetgroup == null {
            targetgroup := new TargetgroupMessage();
          }
          out := targetgroup.Unmarshal(c.data);
      }
    }
  }
}
