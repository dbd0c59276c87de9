/** What every generated message shares: tags, length-delimited fields, unknown fields, the decode loop
    over fields, and the writers that fill a buffer backwards. */
module Message {
  import opened Base
  import opened Varint
  import opened Skip

  // ---- reading ----

  datatype TagRead = Tag(field: int, wireType: nat, n: nat) | NoTag(err: Error)

  function ReadTag(s: bytes): (r: TagRead)
    ensures r.Tag? ==> 1 <= r.n <= |s| && r.field >= 1
    ensures r.NoTag? ==> !r.err.IndexOutOfRange?
  {
    match Uvarint(s)
    case Bad(e) => NoTag(e)
    case Got(wire, n) =>
      if wire % 8 == 4 then NoTag(EndGroupForNonGroup)
      else if ToInt32(wire / 8) <= 0 then NoTag(IllegalTag(ToInt32(wire / 8)))
      else Tag(ToInt32(wire / 8), wire % 8, n)
  }

  datatype Chunk = Chunk(data: bytes, n: nat) | NoChunk(err: Error)

  /** A length and that many bytes, at the start of `s`, which begins at index `pos` of the buffer. */
  function LenDelimited(s: bytes, pos: nat): (r: Chunk)
    ensures r.Chunk? ==> 1 <= r.n <= |s| && |r.data| < r.n
    ensures r.NoChunk? ==> !r.err.IndexOutOfRange?
  {
    match Uvarint(s)
    case Bad(e) => NoChunk(e)
    case Got(length, n) =>
      if ToInt64(length) < 0 then NoChunk(InvalidLength)
      else if Wraps(pos + n + length) then NoChunk(InvalidLength)
      else if n + length > |s| then NoChunk(UnexpectedEOF)
      else Chunk(s[n..n + length], n + length)
  }

  /** A whole field that the message does not know, tag included. */
  function UnknownField(s: bytes, pos: nat): (r: Chunk)
    ensures r.Chunk? ==> 1 <= r.n <= |s|
    ensures r.NoChunk? ==> !r.err.IndexOutOfRange?
  {
    match SkipField(s)
    case NoCount(e) => NoChunk(e)
    case Count(n) =>
      if Wraps(pos + n) then NoChunk(InvalidLength)
      else if n > |s| then NoChunk(UnexpectedEOF)
      else Chunk(s[..n], n)
  }

  method ReadTagAt(dAtA: bytes, start: nat) returns (r: TagRead)
    requires start <= |dAtA|
    ensures r == ReadTag(dAtA[start..])
  {
    var wire := ReadVarint(dAtA, start);
    if wire.Bad? { return NoTag(wire.err); }
    var fieldNum := ToInt32(wire.value / 8);
    var wireType := wire.value % 8;
    if wireType == 4 { return NoTag(EndGroupForNonGroup); }
    if fieldNum <= 0 { return NoTag(IllegalTag(fieldNum)); }
    r := Tag(fieldNum, wireType, wire.n);
  }

  method ReadLen(dAtA: bytes, start: nat) returns (r: Chunk)
    requires start <= |dAtA|
    ensures r == LenDelimited(dAtA[start..], start)
  {
    var length := ReadVarint(dAtA, start);
    if length.Bad? { return NoChunk(length.err); }
    if ToInt64(length.value) < 0 { return NoChunk(InvalidLength); }
    var iNdEx := start + length.n;
    var postIndex := iNdEx + length.value;
    if Wraps(postIndex) { return NoChunk(InvalidLength); }
    if postIndex > |dAtA| { return NoChunk(UnexpectedEOF); }
    assert dAtA[start..][length.n..length.n + length.value] == dAtA[iNdEx..postIndex];
    r := Chunk(dAtA[iNdEx..postIndex], postIndex - start);
  }

  method ReadUnknown(dAtA: bytes, preIndex: nat) returns (r: Chunk)
    requires preIndex <= |dAtA|
    ensures r == UnknownField(dAtA[preIndex..], preIndex)
  {
    var skippy := SkipMethod(dAtA[preIndex..]);
    if skippy.NoCount? { return NoChunk(skippy.err); }
    if Wraps(preIndex + skippy.n) { return NoChunk(InvalidLength); }
    if preIndex + skippy.n > |dAtA| { return NoChunk(UnexpectedEOF); }
    assert dAtA[preIndex..][..skippy.n] == dAtA[preIndex..preIndex + skippy.n];
    r := Chunk(dAtA[preIndex..preIndex + skippy.n], skippy.n);
  }

  lemma {:induction false} TagLocal(s: bytes, t: bytes)
    requires ReadTag(s).Tag?
    ensures ReadTag(s + t) == ReadTag(s)
    ensures (s + t)[ReadTag(s).n..] == s[ReadTag(s).n..] + t
  {
    VarintLocal(s, t);
  }

  lemma LenLocal(s: bytes, t: bytes, pos: nat)
    requires LenDelimited(s, pos).Chunk?
    ensures LenDelimited(s + t, pos) == LenDelimited(s, pos)
  {
    VarintLocal(s, t);
    var n := LenDelimited(s, pos).n;
    assert (s + t)[..n] == s[..n];
    var k := Uvarint(s).n;
    assert (s + t)[k..n] == s[k..n];
  }

  lemma UnknownLocal(s: bytes, t: bytes, pos: nat)
    requires UnknownField(s, pos).Chunk?
    ensures UnknownField(s + t, pos) == UnknownField(s, pos)
  {
    SkipLocal(s, t, 0, 0);
    var n := SkipField(s).n;
    assert (s + t)[..n] == s[..n];
  }

  lemma FieldLocal(s: bytes, t: bytes, pos: nat, pos': nat)
    requires ReadTag(s).Tag? && !Wraps(pos' + |s|)
    ensures ReadTag(s + t) == ReadTag(s)
    ensures UnknownField(s, pos).Chunk? ==> UnknownField(s + t, pos') == UnknownField(s, pos)
    ensures var n := ReadTag(s).n;
            LenDelimited(s[n..], pos + n).Chunk? ==>
              LenDelimited((s + t)[n..], pos' + n) == LenDelimited(s[n..], pos + n)
  {
    TagLocal(s, t);
    if UnknownField(s, pos).Chunk? {
      UnknownLocal(s, t, pos);
    }
    var n := ReadTag(s).n;
    if LenDelimited(s[n..], pos + n).Chunk? {
      LenLocal(s[n..], t, pos + n);
    }
  }

  // ---- the decode loop ----

  /** One turn of the loop: a new message and a cursor moved `n` bytes, or an error. */
  datatype Step<+M> = Advance(m: M, n: nat) | Fail(m: M, err: Error)

  /** The message as the loop leaves it, and the error it returns. */
  datatype Decoded<+M> = Decoded(m: M, err: Option<Error>)

  type Stepper<!M> = (M, bytes, nat) -> Step<M>

  /** The loop over fields with `s` still ahead at index `pos`; a cursor past the end is an error. */
  function DecodeAll<M>(step: Stepper<M>, m: M, s: bytes, pos: nat): Decoded<M>
    decreases |s|
  {
    if s == [] then Decoded(m, None)
    else
      match step(m, s, pos)
      case Fail(m', e) => Decoded(m', Some(e))
      case Advance(m', n) =>
        if 1 <= n <= |s| then DecodeAll(step, m', s[n..], pos + n) else Decoded(m', Some(UnexpectedEOF))
  }

  /** If no turn panics, the loop does not. */
  lemma {:induction false} DecodeReturns<M(!new)>(step: Stepper<M>, m: M, s: bytes, pos: nat)
    requires forall m: M, s: bytes, pos: nat :: step(m, s, pos).Fail? ==> !step(m, s, pos).err.IndexOutOfRange?
    ensures DecodeAll(step, m, s, pos).err != Some(IndexOutOfRange)
    decreases |s|
  {
    if s != [] && step(m, s, pos).Advance? {
      var Advance(m', n) := step(m, s, pos);
      if 1 <= n <= |s| {
        DecodeReturns(step, m', s[n..], pos + n);
      }
    }
  }

  /** A turn that succeeds depends neither on what follows its field nor on where the buffer began. */
  ghost predicate Local<M(!new)>(step: Stepper<M>) {
    forall m: M, s: bytes, t: bytes, pos: nat, pos': nat {:trigger step(m, s, pos), step(m, s + t, pos')} ::
      step(m, s, pos).Advance? && !Wraps(pos' + |s|) ==> step(m, s + t, pos') == step(m, s, pos)
  }

  /** "Last One Wins": after accepted bytes `a`, decoding goes on as if `b` were decoded on top of the result. */
  lemma {:induction false} DecodeAppend<M(!new)>(step: Stepper<M>, m: M, a: bytes, b: bytes, pos: nat)
    requires Local(step) && DecodeAll(step, m, a, pos).err.None? && !Wraps(pos + |a|)
    ensures DecodeAll(step, m, a + b, pos) == DecodeAll(step, DecodeAll(step, m, a, pos).m, b, pos + |a|)
    decreases |a|
  {
    if a == [] {
      assert a + b == b;
    } else {
      var n := step(m, a, pos).n;
      assert step(m, a + b, pos) == step(m, a, pos);
      assert (a + b)[n..] == a[n..] + b;
      DecodeAppend(step, step(m, a, pos).m, a[n..], b, pos + n);
    }
  }

  /** Accepted bytes decode to the same message wherever the buffer begins. */
  lemma {:induction false} DecodeShift<M(!new)>(step: Stepper<M>, m: M, a: bytes, pos: nat, pos': nat)
    requires Local(step) && DecodeAll(step, m, a, pos).err.None? && !Wraps(pos' + |a|)
    ensures DecodeAll(step, m, a, pos') == DecodeAll(step, m, a, pos)
    decreases |a|
  {
    if a != [] {
      assert a + [] == a;
      var n := step(m, a, pos).n;
      assert step(m, a + [], pos') == step(m, a, pos);
      DecodeShift(step, step(m, a, pos).m, a[n..], pos + n, pos' + n);
    }
  }

  lemma ShiftEither<M(!new)>(step: Stepper<M>, m: M, s: bytes, p: nat, q: nat)
    requires Local(step) && !Wraps(p + |s|) && !Wraps(q + |s|)
    ensures DecodeAll(step, m, s, p).err.None? <==> DecodeAll(step, m, s, q).err.None?
    ensures DecodeAll(step, m, s, p).err.None? ==> DecodeAll(step, m, s, p) == DecodeAll(step, m, s, q)
  {
    if DecodeAll(step, m, s, p).err.None? { DecodeShift(step, m, s, p, q); }
    if DecodeAll(step, m, s, q).err.None? { DecodeShift(step, m, s, q, p); }
  }

  /** A turn over a first field, then the rest. */
  lemma DecodeFirst<M(!new)>(step: Stepper<M>, m: M, field: bytes, rest: bytes, pos: nat)
    requires field != [] && step(m, field + rest, pos).Advance? && step(m, field + rest, pos).n == |field|
    ensures DecodeAll(step, m, field + rest, pos)
         == DecodeAll(step, step(m, field + rest, pos).m, rest, pos + |field|)
  {
    assert (field + rest)[|field|..] == rest;
  }

  // ---- writing ----

  /** The record of a length-delimited field with a one-byte tag. */
  function LenBytes(tag: byte, payload: bytes): (b: bytes)
    ensures |b| >= 2 + |payload|
  {
    [tag] + VarintBytes(|payload|) + payload
  }

  /** A string or bytes field of proto3: left out when empty. */
  function Optional(tag: byte, payload: bytes): bytes {
    if payload == [] then [] else LenBytes(tag, payload)
  }

  /** Its size, as every `Size` method adds it up. */
  function LenSize(l: nat): nat
    requires l < TWO_63
  {
    1 + l + Sov(l)
  }

  lemma LenBytesSize(tag: byte, payload: bytes)
    requires |payload| < TWO_63
    ensures |LenBytes(tag, payload)| == LenSize(|payload|)
  {
    SovIsLength(|payload|);
  }

  lemma TagReads(tag: byte, t: bytes)
    requires 8 <= tag < 128 && tag % 8 != 4
    ensures ReadTag([tag] + t) == Tag(tag / 8, tag % 8, 1)
    ensures ([tag] + t)[1..] == t
  {
    var s := [tag] + t;
    assert s[0] == tag && s[1..] == t;
    assert RawVarint(s, 0) == Got(tag, 1);
    hide RawVarint;
    assert Uvarint(s) == Got(tag, 1);
  }

  /** A written record is read back, whatever follows it. */
  lemma LenReads(tag: byte, payload: bytes, t: bytes, pos: nat)
    requires 8 <= tag < 128 && tag % 8 == 2 && !Wraps(pos + |LenBytes(tag, payload)|)
    ensures ReadTag(LenBytes(tag, payload) + t) == Tag(tag / 8, 2, 1)
    ensures LenDelimited((LenBytes(tag, payload) + t)[1..], pos + 1)
         == Chunk(payload, |LenBytes(tag, payload)| - 1)
  {
    var rest := VarintBytes(|payload|) + (payload + t);
    assert LenBytes(tag, payload) + t == [tag] + rest;
    TagReads(tag, rest);
    VarintRoundTrip(|payload|, payload + t);
    var n := |VarintBytes(|payload|)|;
    assert rest[n..n + |payload|] == payload;
  }

  /** What was read as a record took no fewer bytes than writing it takes. */
  lemma LenMinimal(s: bytes, pos: nat, tag: byte)
    requires ReadTag(s).Tag? && LenDelimited(s[ReadTag(s).n..], pos).Chunk?
    ensures var c := LenDelimited(s[ReadTag(s).n..], pos);
            |LenBytes(tag, c.data)| <= ReadTag(s).n + c.n
  {
    VarintMinimal(s[ReadTag(s).n..]);
  }

  /** Between two states of a buffer, `b` was written from `j` up to `i`, and nothing else changed. */
  predicate Wrote(before: bytes, after: bytes, j: nat, i: nat, b: bytes) {
    && |after| == |before| && j <= i <= |before|
    && after[j..i] == b
    && after[..j] == before[..j]
    && after[i..] == before[i..]
  }

  /** Writing in front of what was just written. */
  lemma WroteInFront(d0: bytes, d1: bytes, d2: bytes, j: nat, i: nat, end: nat, b: bytes, tail: bytes)
    requires Wrote(d0, d1, i, end, tail) && Wrote(d1, d2, j, i, b)
    ensures Wrote(d0, d2, j, end, b + tail)
  {
    assert d2[j..end] == d2[j..i] + d2[i..][..end - i];
    assert d1[i..][..end - i] == tail;
    assert d2[end..] == d2[i..][end - i..] == d1[i..][end - i..] == d1[end..];
    assert d2[..j] == d1[..i][..j] == d0[..i][..j] == d0[..j];
  }

  /** `copy(dAtA[j:], src)`. */
  method CopyBytes(dAtA: array<byte>, j: nat, src: bytes)
    requires j + |src| <= dAtA.Length
    modifies dAtA
    ensures Wrote(old(dAtA[..]), dAtA[..], j, j + |src|, src)
  {
    forall k | 0 <= k < |src| { dAtA[j + k] := src[k]; }
  }

  /** A varint in front of `i`, and a tag byte in front of it. */
  method PutTagged(dAtA: array<byte>, i: nat, tag: byte, v: uint64) returns (j: nat)
    requires 1 + |VarintBytes(v)| <= i <= dAtA.Length
    modifies dAtA
    ensures Wrote(old(dAtA[..]), dAtA[..], j, i, [tag] + VarintBytes(v))
    ensures j == i - 1 - |VarintBytes(v)|
  {
    SovIsLength(v);
    ghost var d0 := dAtA[..];
    var k := EncodeVarint(dAtA, i, v);
    ghost var d1 := dAtA[..];
    assert Wrote(d0, d1, k, i, VarintBytes(v));
    j := k - 1;
    dAtA[j] := tag;
    assert Wrote(d1, dAtA[..], j, k, [tag]);
    WroteInFront(d0, d1, dAtA[..], j, k, i, [tag], VarintBytes(v));
  }

  /** The backward writer of one length-delimited field. */
  method PutLen(dAtA: array<byte>, i: nat, tag: byte, payload: bytes) returns (j: nat)
    requires |LenBytes(tag, payload)| <= i <= dAtA.Length && |payload| < TWO_63
    modifies dAtA
    ensures j == i - |LenBytes(tag, payload)|
    ensures Wrote(old(dAtA[..]), dAtA[..], j, i, LenBytes(tag, payload))
  {
    ghost var d0 := dAtA[..];
    CopyBytes(dAtA, i - |payload|, payload);
    ghost var d1 := dAtA[..];
    j := PutTagged(dAtA, i - |payload|, tag, |payload|);
    WroteInFront(d0, d1, dAtA[..], j, i - |payload|, i, [tag] + VarintBytes(|payload|), payload);
  }

  /** The size of what was just written, from `i` to `end`, in front of it, and a tag in front of that. */
  method PutSize(dAtA: array<byte>, i: nat, tag: byte, end: nat, ghost d0: bytes, ghost payload: bytes)
      returns (j: nat)
    requires i <= end <= dAtA.Length < TWO_63 && end - i == |payload| && |LenBytes(tag, payload)| <= end
    requires Wrote(d0, dAtA[..], i, end, payload)
    modifies dAtA
    ensures j == end - |LenBytes(tag, payload)|
    ensures Wrote(d0, dAtA[..], j, end, LenBytes(tag, payload))
  {
    ghost var d1 := dAtA[..];
    j := PutTagged(dAtA, i, tag, end - i);
    WroteInFront(d0, d1, dAtA[..], j, i, end, [tag] + VarintBytes(|payload|), payload);
  }

  method PutOptional(dAtA: array<byte>, i: nat, tag: byte, payload: bytes) returns (j: nat)
    requires |Optional(tag, payload)| <= i <= dAtA.Length && |payload| < TWO_63
    modifies dAtA
    ensures j == i - |Optional(tag, payload)|
    ensures Wrote(old(dAtA[..]), dAtA[..], j, i, Optional(tag, payload))
  {
    j := i;
    if |payload| > 0 {
      j := PutLen(dAtA, i, tag, payload);
    }
  }

  // ---- fields a message does not know ----

  /** The number under which a field stands on the wire. */
  function FieldNumber(f: Field): int
    requires WellFormed(f)
  {
    ToInt32(Uvarint(f.tag).value / 8)
  }

  /** A well-formed field numbered above the last one the message declares. */
  predicate Foreign(f: Field, last: nat) {
    WellFormed(f) && FieldNumber(f) > last
  }

  predicate AllForeign(fs: seq<Field>, last: nat) {
    forall i :: 0 <= i < |fs| ==> Foreign(fs[i], last)
  }

  lemma ForeignReads(f: Field, last: nat, t: bytes, pos: nat)
    requires Foreign(f, last) && !Wraps(pos + |Raw(f)|)
    ensures Raw(f) != []
    ensures ReadTag(Raw(f) + t).Tag? && ReadTag(Raw(f) + t).field == FieldNumber(f)
    ensures UnknownField(Raw(f) + t, pos) == Chunk(Raw(f), |Raw(f)|)
  {
    SkipsRaw(f, t, 0, 0);
    FirstTag(f, t);
  }

  lemma FirstTag(f: Field, t: bytes)
    requires WellFormed(f)
    ensures Uvarint(Raw(f) + t) == Uvarint(f.tag) && Uvarint(f.tag).value % 8 != 4
  {
    var rest := Raw(f)[|f.tag|..] + t;
    assert Raw(f) == f.tag + Raw(f)[|f.tag|..];
    assert Raw(f) + t == f.tag + rest;
    ReadsTag(f.tag, rest);
  }

  lemma UnknownIsForeign(s: bytes, pos: nat, last: nat) returns (f: Field)
    requires ReadTag(s).Tag? && ReadTag(s).field > last && UnknownField(s, pos).Chunk?
    ensures Foreign(f, last) && Raw(f) == UnknownField(s, pos).data
  {
    f := SkippedIsField(s);
    var n := SkipField(s).n;
    assert s == Raw(f) + s[n..];
    FirstTag(f, s[n..]);
  }

  lemma {:induction false} RawAllSnoc(fs: seq<Field>, f: Field)
    ensures RawAll(fs + [f]) == RawAll(fs) + Raw(f)
  {
    if fs == [] {
      assert [f][1..] == [];
    } else {
      assert (fs + [f])[1..] == fs[1..] + [f];
      RawAllSnoc(fs[1..], f);
    }
  }
}
