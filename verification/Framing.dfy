/** Streams of mesh entries, each with its length in front, as the store writes and merges them. */
module Framing {
  import opened Base
  import opened Varint
  import opened Message
  import opened TargetPb
  import opened TargetRoundTrip
  import opened MeshCodec

  /** `pbutil.WriteDelimited`. */
  function FrameBytes(message: bytes): bytes {
    VarintBytes(|message|) + message
  }

  /** The framing has room for a length of five bytes, so for messages of less than 2 to the 35. */
  const LENGTH_BYTES := 5
  const FRAME_LIMIT := 0x8_0000_0000

  /** What `pbutil.ReadDelimited` meets at the head of a buffer. How it names a length that is too long, or a length
      or a message that is cut short, is the library's business. On a message that Crashes the decoder panics. */
  datatype Frame = NoMore | Framed(ent: MeshEntry, n: nat) | Refused(err: Error) | CutShort | Crashes

  function ReadFrame(s: bytes): (r: Frame)
    ensures r.Framed? ==> 1 <= r.n <= |s|
  {
    if s == [] then NoMore
    else
      match Uvarint(s)
      case Bad(_) => CutShort
      case Got(length, n) =>
        if n > LENGTH_BYTES || n + length > |s| then CutShort
        else
          var d := DecodeMesh(NO_ENTRY, s[n..n + length]);
          match OutcomeOf(d.err)
          case Panicked => Crashes
          case Returned(Some(e)) => Refused(e)
          case Returned(None) => Framed(d.m, n + length)
  }

  datatype Ending = Clean | BadMessage(err: Error) | BadFraming | Crashed

  /** The entries a merge gets to see, and why it stops. */
  datatype Stream = Stream(entries: seq<MeshEntry>, ending: Ending)

  function Parse(s: bytes): Stream
    decreases |s|
  {
    match ReadFrame(s)
    case NoMore => Stream([], Clean)
    case Refused(e) => Stream([], BadMessage(e))
    case CutShort => Stream([], BadFraming)
    case Crashes => Stream([], Crashed)
    case Framed(ent, n) => var rest := Parse(s[n..]); Stream([ent] + rest.entries, rest.ending)
  }

  lemma LengthFits(length: nat)
    requires length < FRAME_LIMIT
    ensures |VarintBytes(length)| <= LENGTH_BYTES
  {
    assert Pow128(1) == 128 && Pow128(2) == 128 * 128 && Pow128(3) == 0x20_0000 && Pow128(4) == 0x1000_0000;
    VarintBytesBound(length, 5, FRAME_LIMIT);
  }

  lemma {:induction false} FrameReads(message: bytes, t: bytes, e: MeshEntry)
    requires |message| < FRAME_LIMIT && DecodeMesh(NO_ENTRY, message) == Decoded(e, None)
    ensures ReadFrame(FrameBytes(message) + t) == Framed(e, |FrameBytes(message)|)
    ensures (FrameBytes(message) + t)[|FrameBytes(message)|..] == t
  {
    hide DecodeMesh, Uvarint;
    var s := FrameBytes(message) + t;
    assert s == VarintBytes(|message|) + (message + t);
    VarintRoundTrip(|message|, message + t);
    LengthFits(|message|);
    var n := |VarintBytes(|message|)|;
    assert s[n..n + |message|] == message;
  }

  /** A frame is read as its entry, and the stream goes on behind it. */
  lemma ParseFrame(message: bytes, t: bytes, e: MeshEntry)
    requires |message| < FRAME_LIMIT && DecodeMesh(NO_ENTRY, message) == Decoded(e, None)
    ensures Parse(FrameBytes(message) + t) == Stream([e] + Parse(t).entries, Parse(t).ending)
  {
    hide ReadFrame, FrameBytes, DecodeMesh;
    FrameReads(message, t, e);
  }

  lemma FrameLocal(s: bytes, t: bytes)
    requires ReadFrame(s).Framed?
    ensures ReadFrame(s + t) == ReadFrame(s) && (s + t)[ReadFrame(s).n..] == s[ReadFrame(s).n..] + t
  {
    hide DecodeMesh;
    VarintLocal(s, t);
    var n, m := Uvarint(s).n, ReadFrame(s).n;
    assert (s + t)[n..m] == s[n..m];
  }

  /** Streams may be concatenated: what follows a stream that ends cleanly is read next. */
  lemma {:induction false} ParseAppend(s: bytes, t: bytes)
    requires Parse(s).ending.Clean?
    ensures Parse(s + t) == Stream(Parse(s).entries + Parse(t).entries, Parse(t).ending)
    decreases |s|
  {
    hide ReadFrame;
    if ReadFrame(s).Framed? {
      FrameLocal(s, t);
      ParseAppend(s[ReadFrame(s).n..], t);
    } else {
      EmptyStream(s);
      assert s + t == t;
      assert [] + Parse(t).entries == Parse(t).entries;
    }
  }

  /** A message that is refused ends the stream: what stood before it is read, and nothing behind it is. */
  lemma {:induction false} ParseRefuses(good: bytes, message: bytes, t: bytes, err: Error)
    requires Parse(good).ending.Clean? && |message| < FRAME_LIMIT
    requires DecodeMesh(NO_ENTRY, message).err == Some(err) && !err.IndexOutOfRange?
    ensures Parse(good + (FrameBytes(message) + t)) == Stream(Parse(good).entries, BadMessage(err))
  {
    hide DecodeMesh, Uvarint, VarintBytes;
    var s := FrameBytes(message) + t;
    assert s == VarintBytes(|message|) + (message + t);
    VarintRoundTrip(|message|, message + t);
    LengthFits(|message|);
    var n := |VarintBytes(|message|)|;
    assert s[n..n + |message|] == message;
    assert ReadFrame(s) == Refused(err);
    hide ReadFrame;
    assert Parse(s) == Stream([], BadMessage(err));
    ParseAppend(good, s);
    assert Parse(good).entries + [] == Parse(good).entries;
  }

  lemma EmptyStream(s: bytes)
    ensures ReadFrame(s).NoMore? <==> s == []
  {
  }

  // ---- entries that can be written ----

  /** Its status is an int32, and its encoding is no longer than a frame may be. */
  ghost predicate Writable(e: MeshEntry) {
    IsInt32(e.status) && forall o :: IsMeshOrder(o, e) ==> |MeshBytes(e, o)| < FRAME_LIMIT
  }

  lemma AnOrder(e: MeshEntry) returns (o: seq<bytes>)
    ensures IsMeshOrder(o, e)
  {
    o := [];
    if e.targetgroup.Some? {
      var rest: set<bytes> := e.targetgroup.value.labels.Keys;
      while rest != {}
        invariant rest <= e.targetgroup.value.labels.Keys && Distinct(o)
        invariant forall k :: k in o <==> k in e.targetgroup.value.labels && k !in rest
        decreases |rest|
      {
        var k :| k in rest;
        o, rest := o + [k], rest - {k};
      }
    }
  }

  /** The frame of an entry: read back, it is that entry, in whatever order its labels were written. Only a time
      out of range is an error. */
  method WriteDelimited(e: MeshEntry) returns (f: bytes, err: Option<Error>, ghost message: bytes)
    requires Writable(e)
    ensures err == (if ValidTime(e.updated) then None else Some(InvalidTime))
    ensures err.Some? ==> f == []
    ensures err.None? ==>
              && f == FrameBytes(message) && |message| < FRAME_LIMIT
              && DecodeMesh(NO_ENTRY, message) == Decoded(e, None)
              && exists o :: IsMeshOrder(o, e) && message == MeshBytes(e, o)
    ensures err.None? ==> forall t :: Parse(f + t) == Stream([e] + Parse(t).entries, Parse(t).ending)
  {
    hide MeshBytes, SizedBytes, DecodeMesh, IsMeshOrder, Parse, FrameBytes, ValidTime;
    ghost var all := AnOrder(e);
    SizedAtMost(e, all);
    var m;
    ghost var order;
    m, err, order := MarshalMesh(e, all);
    message := m[..];
    if err.Some? { return [], err, message; }
    MeshRoundTrip(e, order);
    f := FrameBytes(m[..]);
    forall t
      ensures Parse(f + t) == Stream([e] + Parse(t).entries, Parse(t).ending)
    {
      ParseFrame(message, t, e);
    }
  }

  /** `pbutil.ReadDelimited` into a fresh entry. */
  method ReadDelimited(buf: bytes) returns (r: Frame)
    ensures r == ReadFrame(buf)
  {
    hide Uvarint, DecodeMesh;
    if |buf| == 0 { return NoMore; }
    assert buf[0..] == buf;
    var length := ReadVarint(buf, 0);
    if length.Bad? || length.n > LENGTH_BYTES { return CutShort; }
    var n := length.n + length.value;
    if n > |buf| { return CutShort; }
    var ent := new MeshEntryMessage();
    var out := ent.Unmarshal(buf[length.n..n]);
    match out {
      case Panicked => r := Crashes;
      case Returned(Some(e)) => r := Refused(e);
      case Returned(None) => r := Framed(ent.Value(), n);
    }
  }

  // ---- what is decoded can be written again ----

  ghost predicate InRange(e: MeshEntry) {
    IsInt32(e.status) && ValidTime(e.updated)
  }

  lemma MeshStepInRange(m: MeshEntry, s: bytes, pos: nat)
    requires InRange(m) && MeshStep(m, s, pos).Advance?
    ensures InRange(MeshStep(m, s, pos).m)
  {
    hide ReadTag, UnknownField, LenDelimited, Uvarint, DecodeTime, DecodeTargetgroup;
  }

  lemma {:induction false} DecodeInRange(m: MeshEntry, s: bytes, pos: nat)
    requires InRange(m) && DecodeAll(MeshStep, m, s, pos).err.None?
    ensures InRange(DecodeAll(MeshStep, m, s, pos).m)
    decreases |s|
  {
    hide MeshStep, InRange;
    if s != [] {
      MeshStepInRange(m, s, pos);
      DecodeInRange(MeshStep(m, s, pos).m, s[MeshStep(m, s, pos).n..], pos + MeshStep(m, s, pos).n);
    }
  }

  /** Every entry read from a stream has a status and a time in range. */
  lemma {:induction false} ParseInRange(s: bytes)
    ensures forall e :: e in Parse(s).entries ==> InRange(e)
    decreases |s|
  {
    hide MeshStep, DecodeAll, InRange;
    if ReadFrame(s).Framed? {
      var Got(length, n) := Uvarint(s);
      FreshInRange();
      DecodeInRange(NO_ENTRY, s[n..n + length], 0);
      ParseInRange(s[ReadFrame(s).n..]);
    }
  }

  lemma FreshInRange()
    ensures InRange(NO_ENTRY)
  {
  }
}
