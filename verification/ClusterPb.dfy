/** The messages Part and FullState: their wire form, their writers and their decoders. */
module ClusterPb {
  import opened Base
  import opened Varint
  import opened Message

  /** Data is None for a nil slice; an absent field leaves it nil, a present empty one does not. */
  datatype Part = Part(key: bytes, data: Option<bytes>, unrecognized: bytes)

  datatype FullState = FullState(parts: seq<Part>, unrecognized: bytes)

  const NO_PART := Part([], None, [])
  const NO_STATE := FullState([], [])

  function Content(data: Option<bytes>): bytes {
    if data.Some? then data.value else []
  }

  // ---- the wire form ----

  function PartBytes(p: Part): bytes {
    Optional(0x0a, p.key) + (Optional(0x12, Content(p.data)) + p.unrecognized)
  }

  function PartsBytes(ps: seq<Part>): bytes {
    if ps == [] then [] else LenBytes(0x0a, PartBytes(ps[0])) + PartsBytes(ps[1..])
  }

  function FullStateBytes(m: FullState): bytes {
    PartsBytes(m.parts) + m.unrecognized
  }

  // ---- decoding, one field at a time ----

  function PartStep(m: Part, s: bytes, pos: nat): Step<Part> {
    match ReadTag(s)
    case NoTag(e) => Fail(m, e)
    case Tag(field, wireType, t) =>
      if field > 2 then
        match UnknownField(s, pos)
        case NoChunk(e) => Fail(m, e)
        case Chunk(data, n) => Advance(m.(unrecognized := m.unrecognized + data), n)
      else if wireType != 2 then Fail(m, WrongWireType(wireType, field))
      else
        match LenDelimited(s[t..], pos + t)
        case NoChunk(e) => Fail(m, e)
        case Chunk(data, n) => Advance(if field == 1 then m.(key := data) else m.(data := Some(data)), t + n)
  }

  /** `Part.Unmarshal` on a message that already holds `m`. */
  function DecodePart(m: Part, s: bytes): Decoded<Part> {
    DecodeAll(PartStep, m, s, 0)
  }

  function FullStateStep(m: FullState, s: bytes, pos: nat): Step<FullState> {
    match ReadTag(s)
    case NoTag(e) => Fail(m, e)
    case Tag(field, wireType, t) =>
      if field > 1 then
        match UnknownField(s, pos)
        case NoChunk(e) => Fail(m, e)
        case Chunk(data, n) => Advance(m.(unrecognized := m.unrecognized + data), n)
      else if wireType != 2 then Fail(m, WrongWireType(wireType, field))
      else
        match LenDelimited(s[t..], pos + t)
        case NoChunk(e) => Fail(m, e)
        case Chunk(data, n) =>
          var d := DecodePart(NO_PART, data);
          var m' := m.(parts := m.parts + [d.m]);
          if d.err.Some? then Fail(m', d.err.value) else Advance(m', t + n)
  }

  /** `FullState.Unmarshal` on a message that already holds `m`. */
  function DecodeFullState(m: FullState, s: bytes): Decoded<FullState> {
    DecodeAll(FullStateStep, m, s, 0)
  }

  // ---- the writers ----

  /** `Part.Size`. */
  method SizePart(p: Part) returns (n: nat)
    requires |PartBytes(p)| < TWO_63
    ensures n == |PartBytes(p)|
  {
    n := 0;
    if |p.key| > 0 {
      LenBytesSize(0x0a, p.key);
      n := n + LenSize(|p.key|);
    }
    if |Content(p.data)| > 0 {
      LenBytesSize(0x12, Content(p.data));
      n := n + LenSize(|Content(p.data)|);
    }
    n := n + |p.unrecognized|;
  }

  /** `Part.MarshalToSizedBuffer(dAtA[:end])`: the bytes are written backwards and end at `end`. */
  method MarshalPartTo(p: Part, dAtA: array<byte>, end: nat) returns (size: nat)
    requires |PartBytes(p)| <= end <= dAtA.Length < TWO_63
    modifies dAtA
    ensures size == |PartBytes(p)|
    ensures Wrote(old(dAtA[..]), dAtA[..], end - size, end, PartBytes(p))
  {
    ghost var d0 := dAtA[..];
    var i := end - |p.unrecognized|;
    CopyBytes(dAtA, i, p.unrecognized);
    ghost var d1 := dAtA[..];
    var j := PutOptional(dAtA, i, 0x12, Content(p.data));
    ghost var d2 := dAtA[..];
    WroteInFront(d0, d1, d2, j, i, end, Optional(0x12, Content(p.data)), p.unrecognized);
    var k := PutOptional(dAtA, j, 0x0a, p.key);
    WroteInFront(d0, d2, dAtA[..], k, j, end, Optional(0x0a, p.key), d2[j..end]);
    size := end - k;
  }

  /** `Part.Marshal`: a buffer of the computed size is filled exactly. */
  method MarshalPart(p: Part) returns (dAtA: array<byte>)
    requires |PartBytes(p)| < TWO_63
    ensures fresh(dAtA) && dAtA[..] == PartBytes(p)
  {
    var size := SizePart(p);
    dAtA := new byte[size](_ => 0);
    var n := MarshalPartTo(p, dAtA, size);
    assert dAtA[0..size] == dAtA[..];
  }

  lemma {:induction false} PartsBytesFrom(ps: seq<Part>, k: nat)
    requires k <= |ps|
    ensures |PartsBytes(ps[k..])| <= |PartsBytes(ps)|
    ensures k < |ps| ==> PartsBytes(ps[k..]) == LenBytes(0x0a, PartBytes(ps[k])) + PartsBytes(ps[k + 1..])
  {
    if k < |ps| {
      assert ps[k..][1..] == ps[k + 1..];
    }
    if k > 0 {
      assert ps[1..][k - 1..] == ps[k..];
      PartsBytesFrom(ps[1..], k - 1);
    }
  }

  /** `FullState.Size`. */
  method SizeFullState(m: FullState) returns (n: nat)
    requires |FullStateBytes(m)| < TWO_63
    ensures n == |FullStateBytes(m)|
  {
    n := 0;
    for k := 0 to |m.parts|
      invariant n + |PartsBytes(m.parts[k..])| == |PartsBytes(m.parts)|
    {
      PartsBytesFrom(m.parts, k);
      var l := SizePart(m.parts[k]);
      LenBytesSize(0x0a, PartBytes(m.parts[k]));
      n := n + LenSize(l);
    }
    n := n + |m.unrecognized|;
  }

  /** One turn of the loop over Parts, in front of what was written since `d0`: the part is written, then its
      size in front of it, then the tag. */
  method MarshalNestedPart(p: Part, dAtA: array<byte>, i: nat, end: nat, ghost d0: bytes, ghost tail: bytes)
      returns (j: nat)
    requires |LenBytes(0x0a, PartBytes(p))| <= i <= dAtA.Length < TWO_63
    requires Wrote(d0, dAtA[..], i, end, tail)
    modifies dAtA
    ensures j == i - |LenBytes(0x0a, PartBytes(p))|
    ensures Wrote(d0, dAtA[..], j, end, LenBytes(0x0a, PartBytes(p)) + tail)
  {
    ghost var d1 := dAtA[..];
    var size := MarshalPartTo(p, dAtA, i);
    j := PutSize(dAtA, i - size, 0x0a, i, d1, PartBytes(p));
    WroteInFront(d0, d1, dAtA[..], j, i, end, LenBytes(0x0a, PartBytes(p)), tail);
  }

  /** What stands in the buffer once the parts from `k` on are written. */
  function StateTail(m: FullState, k: nat): bytes
    requires k <= |m.parts|
  {
    PartsBytes(m.parts[k..]) + m.unrecognized
  }

  lemma {:induction false} StateTailFrom(m: FullState, k: nat)
    requires k < |m.parts|
    ensures StateTail(m, k) == LenBytes(0x0a, PartBytes(m.parts[k])) + StateTail(m, k + 1)
    ensures |StateTail(m, k)| <= |FullStateBytes(m)|
  {
    hide LenBytes, PartBytes, PartsBytes;
    PartsBytesFrom(m.parts, k);
  }

  lemma StateTailEnds(m: FullState)
    ensures StateTail(m, 0) == FullStateBytes(m) && StateTail(m, |m.parts|) == m.unrecognized
    ensures |m.unrecognized| <= |FullStateBytes(m)|
  {
    assert m.parts[0..] == m.parts;
  }

  /** `FullState.MarshalToSizedBuffer(dAtA[:end])`. */
  method MarshalFullStateTo(m: FullState, dAtA: array<byte>, end: nat) returns (size: nat)
    requires |FullStateBytes(m)| <= end <= dAtA.Length < TWO_63
    modifies dAtA
    ensures size == |FullStateBytes(m)|
    ensures Wrote(old(dAtA[..]), dAtA[..], end - size, end, FullStateBytes(m))
  {
    hide PartBytes, LenBytes, Wrote, StateTail, FullStateBytes;
    StateTailEnds(m);
    var i: nat := end - |m.unrecognized|;
    CopyBytes(dAtA, i, m.unrecognized);
    var iNdEx := |m.parts|;
    while iNdEx > 0
      invariant 0 <= iNdEx <= |m.parts| && i + |StateTail(m, iNdEx)| == end
      invariant Wrote(old(dAtA[..]), dAtA[..], i, end, StateTail(m, iNdEx))
    {
      iNdEx := iNdEx - 1;
      StateTailFrom(m, iNdEx);
      i := MarshalNestedPart(m.parts[iNdEx], dAtA, i, end, old(dAtA[..]), StateTail(m, iNdEx + 1));
    }
    size := end - i;
  }

  /** `FullState.Marshal`. */
  method MarshalFullState(m: FullState) returns (dAtA: array<byte>)
    requires |FullStateBytes(m)| < TWO_63
    ensures fresh(dAtA) && dAtA[..] == FullStateBytes(m)
  {
    var size := SizeFullState(m);
    dAtA := new byte[size](_ => 0);
    var n := MarshalFullStateTo(m, dAtA, size);
    assert dAtA[0..size] == dAtA[..];
  }

  // ---- the decoders ----

  class PartMessage {
    var key: bytes
    var data: Option<bytes>
    var unrecognized: bytes

    function Value(): Part
      reads this
    {
      Part(key, data, unrecognized)
    }

    constructor ()
      ensures Value() == NO_PART
    {
      key, data, unrecognized := [], None, [];
    }

    /** `Part.Unmarshal`, also when it fails half way. */
    method Unmarshal(dAtA: bytes) returns (err: Option<Error>)
      modifies this
      ensures DecodePart(old(Value()), dAtA) == Decoded(Value(), err)
    {
      hide ReadTag, LenDelimited, UnknownField;
      var iNdEx := 0;
      assert dAtA[0..] == dAtA;
      while iNdEx < |dAtA|
        invariant 0 <= iNdEx <= |dAtA|
        invariant DecodePart(old(Value()), dAtA) == DecodeAll(PartStep, Value(), dAtA[iNdEx..], iNdEx)
        decreases |dAtA| - iNdEx
      {
        ghost var rest := dAtA[iNdEx..];
        var tag := ReadTagAt(dAtA, iNdEx);
        if tag.NoTag? { return Some(tag.err); }
        assert rest[tag.n..] == dAtA[iNdEx + tag.n..];
        var n: nat;
        match tag.field {
          case 1 =>
            if tag.wireType != 2 { return Some(WrongWireType(tag.wireType, 1)); }
            var c := ReadLen(dAtA, iNdEx + tag.n);
            if c.NoChunk? { return Some(c.err); }
            key := c.data;
            n := tag.n + c.n;
          case 2 =>
            if tag.wireType != 2 { return Some(WrongWireType(tag.wireType, 2)); }
            var c := ReadLen(dAtA, iNdEx + tag.n);
            if c.NoChunk? { return Some(c.err); }
            data := Some(c.data);
            n := tag.n + c.n;
          case _ =>
            var c := ReadUnknown(dAtA, iNdEx);
            if c.NoChunk? { return Some(c.err); }
            unrecognized := unrecognized + c.data;
            n := c.n;
        }
        assert rest[n..] == dAtA[iNdEx + n..];
        iNdEx := iNdEx + n;
      }
      err := None;
    }
  }

  class FullStateMessage {
    var parts: seq<Part>
    var unrecognized: bytes

    function Value(): FullState
      reads this
    {
      FullState(parts, unrecognized)
    }

    constructor ()
      ensures Value() == NO_STATE
    {
      parts, unrecognized := [], [];
    }

    /** `FullState.Unmarshal`: a part that fails to decode stays appended as far as it got. */
    method Unmarshal(dAtA: bytes) returns (err: Option<Error>)
      modifies this
      ensures DecodeFullState(old(Value()), dAtA) == Decoded(Value(), err)
    {
      hide ReadTag, LenDelimited, UnknownField;
      var iNdEx := 0;
      assert dAtA[0..] == dAtA;
      while iNdEx < |dAtA|
        invariant 0 <= iNdEx <= |dAtA|
        invariant DecodeFullState(old(Value()), dAtA) == DecodeAll(FullStateStep, Value(), dAtA[iNdEx..], iNdEx)
        decreases |dAtA| - iNdEx
      {
        ghost var rest := dAtA[iNdEx..];
        var tag := ReadTagAt(dAtA, iNdEx);
        if tag.NoTag? { return Some(tag.err); }
        assert rest[tag.n..] == dAtA[iNdEx + tag.n..];
        var n: nat;
        match tag.field {
          case 1 =>
            if tag.wireType != 2 { return Some(WrongWireType(tag.wireType, 1)); }
            var c := ReadLen(dAtA, iNdEx + tag.n);
            if c.NoChunk? { return Some(c.err); }
            var part := new PartMessage();
            var e := part.Unmarshal(c.data);
            parts := parts + [part.Value()];
            if e.Some? { return e; }
            n := tag.n + c.n;
          case _ =>
            var c := ReadUnknown(dAtA, iNdEx);
            if c.NoChunk? { return Some(c.err); }
            unrecognized := unrecognized + c.data;
            n := c.n;
        }
        assert rest[n..] == dAtA[iNdEx + n..];
        iNdEx := iNdEx + n;
      }
      err := None;
    }
  }
}
