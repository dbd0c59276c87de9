/** Messages written out byte for byte, with the field numbers of cluster.proto and target.proto and the wire types of
    the Protocol Buffers encoding. */
module WireExamples {
  import opened Base
  import opened Varint
  import opened Skip
  import opened Message
  import opened ClusterPb
  import opened TargetPb
  import opened Panics

  /** 300 is ac 02. */
  lemma {:induction false} SomeVarint()
    ensures VarintBytes(300) == [0xac, 0x02]
  {
    NextByte(300);
    NextByte(2);
  }

  /** `key = 1`, `data = 2`. */
  lemma {:induction false} SomePart()
    ensures PartBytes(Part([0x6b], Some([0x78]), [])) == [0x0a, 0x01, 0x6b, 0x12, 0x01, 0x78]
  {
    hide VarintBytes;
    NextByte(1);
  }

  /** `parts = 1`. */
  lemma {:induction false} SomeState()
    ensures FullStateBytes(FullState([Part([0x6b], Some([0x78]), [])], []))
         == [0x0a, 0x06, 0x0a, 0x01, 0x6b, 0x12, 0x01, 0x78]
  {
    hide VarintBytes, PartBytes;
    SomePart();
    NextByte(6);
    var parts := [Part([0x6b], Some([0x78]), [])];
    assert parts[1..] == [] && PartsBytes([]) == [];
  }

  /** `targets = 1`, `labels = 2`, and of a map entry the key 1 and the value 2. */
  lemma {:induction false} SomeGroup()
    ensures TargetgroupBytes(Targetgroup([[0x61]], map[[0x6b] := [0x76]]), [[0x6b]])
         == [0x0a, 0x01, 0x61, 0x12, 0x06, 0x0a, 0x01, 0x6b, 0x12, 0x01, 0x76]
  {
    hide VarintBytes;
    NextByte(1);
    NextByte(6);
    var targets, order, none: seq<bytes> := [[0x61]], [[0x6b]], [];
    assert targets[1..] == none && order[1..] == none;
    assert TargetsBytes(none) == [] && LabelsBytes(map[[0x6b] := [0x76]], none) == [];
    assert LenBytes(0x0a, [0x61]) == [0x0a, 0x01, 0x61];
    assert EntryBytes([0x6b], [0x76]) == [0x12, 0x06, 0x0a, 0x01, 0x6b, 0x12, 0x01, 0x76];
  }

  /** `seconds = 1`, `nanos = 2`. */
  lemma {:induction false} SomeTime()
    ensures TimeBytes(Time(1, 2)) == [0x08, 0x01, 0x10, 0x02]
  {
    hide VarintBytes;
    NextByte(1);
    NextByte(2);
  }

  /** `name = 1`, `status = 2`, `updated = 3`, `targetgroup = 4`. */
  lemma {:induction false} SomeEntry()
    ensures MeshBytes(MeshEntry([0x6e], 1, Time(1, 2), Some(NO_GROUP)), [])
         == [0x0a, 0x01, 0x6e, 0x10, 0x01, 0x1a, 0x04, 0x08, 0x01, 0x10, 0x02, 0x22, 0x00]
  {
    hide VarintBytes, TimeBytes;
    SomeTime();
    NextByte(0);
    NextByte(1);
    NextByte(4);
    assert TargetgroupBytes(NO_GROUP, []) == [];
    assert LenBytes(0x1a, [0x08, 0x01, 0x10, 0x02]) == [0x1a, 0x04, 0x08, 0x01, 0x10, 0x02];
    assert LenBytes(0x22, []) == [0x22, 0x00];
  }

  /** What stands for a negative status: ten bytes of sign. */
  lemma {:induction false} SomeNegative()
    ensures Scalar(0x10, -1) == [0x10, 0xff, 0xff, 0xff, 0xff, 0xff, 0xff, 0xff, 0xff, 0xff, 0x01]
  {
    hide VarintBytes;
    NextByte(0xffff_ffff_ffff_ffff);
    NextByte(0x1ff_ffff_ffff_ffff);
    NextByte(0x3_ffff_ffff_ffff);
    NextByte(0x7ff_ffff_ffff);
    NextByte(0xf_ffff_ffff);
    NextByte(0x1fff_ffff);
    NextByte(0x3f_ffff);
    NextByte(0x7fff);
    NextByte(0xff);
    NextByte(1);
  }

  /** A tag of one byte. */
  lemma {:induction false} TagOf(tag: byte, t: bytes)
    requires tag < 128
    ensures Uvarint([tag] + t) == Got(tag, 1) && ([tag] + t)[1..] == t
  {
    hide Uvarint, VarintBytes;
    NextByte(tag);
    VarintRoundTrip(tag, t);
  }

  /** What each wire type is followed by: a varint, eight bytes, a length and that many, the fields of a group and its
      end, four bytes. */
  lemma {:induction false} WireTypes(v: bytes)
    requires |v| == 8
    ensures SkipField([0x08, 0x96, 0x01]) == Count(3)
    ensures SkipField([0x09] + v) == Count(9)
    ensures SkipField([0x12, 0x02, 0x61, 0x62]) == Count(4)
    ensures SkipField([0x0b, 0x0c]) == Count(2)
    ensures SkipField([0x0d] + v[..4]) == Count(5)
    ensures SkipField([0x0c]) == NoCount(UnexpectedEndOfGroup)
    ensures SkipField([0x0e]) == NoCount(IllegalWireType(6))
    ensures SkipField([0x0f]) == NoCount(IllegalWireType(7))
  {
    hide SkipField;
    SkipsVarint();
    SkipsFixed(v);
    SkipsRecord();
    SkipsGroup();
    SkipsIllegal();
  }

  lemma {:induction false} SkipsFixed(v: bytes)
    requires |v| == 8
    ensures SkipField([0x09] + v) == Count(9) && SkipField([0x0d] + v[..4]) == Count(5)
  {
    hide Uvarint, RawVarint;
    TagOf(0x09, v);
    TagOf(0x0d, v[..4]);
    assert NextElement([0x09] + v) == Elem(Plain, 9) && NextElement([0x0d] + v[..4]) == Elem(Plain, 5);
    hide NextElement;
  }

  lemma {:induction false} SkipsIllegal()
    ensures SkipField([0x0c]) == NoCount(UnexpectedEndOfGroup)
    ensures SkipField([0x0e]) == NoCount(IllegalWireType(6)) && SkipField([0x0f]) == NoCount(IllegalWireType(7))
  {
    hide Uvarint, RawVarint;
    TagOf(0x0c, []);
    TagOf(0x0e, []);
    TagOf(0x0f, []);
    assert [0x0c] + [] == [0x0c] && [0x0e] + [] == [0x0e] && [0x0f] + [] == [0x0f];
    assert NextElement([0x0c]) == Elem(End, 1);
    assert NextElement([0x0e]) == BadElem(IllegalWireType(6)) && NextElement([0x0f]) == BadElem(IllegalWireType(7));
    hide NextElement;
  }

  lemma {:induction false} SkipsVarint()
    ensures SkipField([0x08, 0x96, 0x01]) == Count(3)
  {
    TagOf(0x08, [0x96, 0x01]);
    var s: bytes := [0x08, 0x96, 0x01];
    assert [0x08] + [0x96, 0x01] == s;
    assert RawVarint([0x01], 1) == Got(1, 1);
    assert [0x96, 0x01][1..] == [0x01];
    assert RawVarint([0x96, 0x01], 0) == Got(150, 2);
    hide Uvarint, RawVarint;
    assert NextElement(s) == Elem(Plain, 3);
    hide NextElement;
  }

  lemma {:induction false} SkipsRecord()
    ensures SkipField([0x12, 0x02, 0x61, 0x62]) == Count(4)
  {
    hide Uvarint, RawVarint;
    TagOf(0x12, [0x02, 0x61, 0x62]);
    TagOf(0x02, [0x61, 0x62]);
    var s: bytes := [0x12, 0x02, 0x61, 0x62];
    assert [0x12] + [0x02, 0x61, 0x62] == s && [0x02] + [0x61, 0x62] == [0x02, 0x61, 0x62];
    assert NextElement(s) == Elem(Plain, 4);
    hide NextElement;
  }

  lemma {:induction false} SkipsGroup()
    ensures SkipField([0x0b, 0x0c]) == Count(2)
  {
    hide Uvarint, RawVarint;
    TagOf(0x0b, [0x0c]);
    TagOf(0x0c, []);
    var s: bytes := [0x0b, 0x0c];
    assert [0x0b] + [0x0c] == s && [0x0c] + [] == [0x0c];
    assert NextElement(s) == Elem(Start, 1) && NextElement([0x0c]) == Elem(End, 1);
    hide NextElement;
    assert SkipFrom([0x0c], 1, 1) == Count(2);
  }

  /** Inside a map entry the wire type is not looked at: whatever it is, number 1 is read as the key and number 2 as the
      value. */
  lemma {:induction false} EntryWireTypes(tag: byte, d: bytes, t: bytes, left: int, pos: nat)
    requires 8 <= tag < 24 && !Wraps(pos + |LenBytes(tag, d)|)
    ensures EntryField(LenBytes(tag, d) + t, left, pos)
         == if tag < 16 then KeyRead(d, |LenBytes(tag, d)|) else ValueRead(d, |LenBytes(tag, d)|)
  {
    hide Uvarint, RawVarint, VarintBytes, SkipField;
    var rest := VarintBytes(|d|) + (d + t);
    TagOf(tag, rest);
    assert LenBytes(tag, d) + t == [tag] + rest;
    VarintRoundTrip(|d|, d + t);
    var n := |VarintBytes(|d|)|;
    assert rest[n..n + |d|] == d;
  }

  /** A cast keeps the low bits and stays in the range of its type. */
  lemma Casts(u: uint64, i: int)
    ensures -TWO_31 <= ToInt32(u) < TWO_31 && (u - ToInt32(u)) % TWO_32 == 0
    ensures -TWO_63 <= ToInt64(u) < TWO_63 && (u - ToInt64(u)) % TWO_64 == 0
    ensures 0 <= ToUint64(i) < TWO_64 && (i - ToUint64(i)) % TWO_64 == 0
  {
  }
}
