/** The messages Targetgroup and MeshEntry: their wire form, and their decoders as functions. */
module TargetPb {
  import opened Base
  import opened Varint
  import opened Skip
  import opened Message

  datatype Targetgroup = Targetgroup(targets: seq<bytes>, labels: map<bytes, bytes>)

  /** An instant, in the layout of google.protobuf.Timestamp. */
  datatype Time = Time(seconds: int, nanos: int)

  datatype MeshEntry = MeshEntry(name: bytes, status: int, updated: Time, targetgroup: Option<Targetgroup>)

  const MIN_SECONDS := -62135596800
  const END_SECONDS := 253402300800
  const NO_GROUP := Targetgroup([], map[])
  const ZERO_TIME := Time(MIN_SECONDS, 0)
  const NO_ENTRY := MeshEntry([], 0, ZERO_TIME, None)

  /** Years 1 to 9999, and a fraction of a second. */
  predicate ValidTime(t: Time) {
    MIN_SECONDS <= t.seconds < END_SECONDS && 0 <= t.nanos < 1_000_000_000
  }

  /** `time.Time.After`. */
  predicate After(t: Time, u: Time) {
    t.seconds > u.seconds || (t.seconds == u.seconds && t.nanos > u.nanos)
  }

  predicate IsInt32(i: int) {
    -TWO_31 <= i < TWO_31
  }

  // ---- the wire form ----

  /** A scalar field of proto3: left out when zero. */
  function Scalar(tag: byte, i: int): bytes {
    if i == 0 then [] else [tag] + VarintBytes(ToUint64(i))
  }

  function TimeBytes(t: Time): bytes {
    Scalar(0x08, t.seconds) + Scalar(0x10, t.nanos)
  }

  function TargetsBytes(ts: seq<bytes>): bytes {
    if ts == [] then [] else LenBytes(0x0a, ts[0]) + TargetsBytes(ts[1..])
  }

  function ValueOf(labels: map<bytes, bytes>, k: bytes): bytes {
    if k in labels then labels[k] else []
  }

  /** One entry of the map field. Key and value are written even when empty. */
  function EntryBytes(k: bytes, v: bytes): bytes {
    LenBytes(0x12, LenBytes(0x0a, k) + LenBytes(0x12, v))
  }

  /** The map field with its entries in the given order. */
  function LabelsBytes(labels: map<bytes, bytes>, order: seq<bytes>): bytes {
    if order == [] then []
    else EntryBytes(order[0], ValueOf(labels, order[0])) + LabelsBytes(labels, order[1..])
  }

  function TargetgroupBytes(tg: Targetgroup, order: seq<bytes>): bytes {
    TargetsBytes(tg.targets) + LabelsBytes(tg.labels, order)
  }

  function GroupField(tg: Option<Targetgroup>, order: seq<bytes>): bytes {
    if tg.None? then [] else LenBytes(0x22, TargetgroupBytes(tg.value, order))
  }

  function MeshBytes(e: MeshEntry, order: seq<bytes>): bytes {
    Optional(0x0a, e.name)
    + (Scalar(0x10, e.status) + (LenBytes(0x1a, TimeBytes(e.updated)) + GroupField(e.targetgroup, order)))
  }

  /** One of the orders in which Go may range over the map. */
  ghost predicate IsOrder(order: seq<bytes>, labels: map<bytes, bytes>) {
    Distinct(order) && (forall k :: k in labels <==> k in order)
  }

  ghost predicate IsMeshOrder(order: seq<bytes>, e: MeshEntry) {
    e.targetgroup.Some? ==> IsOrder(order, e.targetgroup.value.labels)
  }

  // ---- decoding, one field at a time ----

  function TimeStep(m: Time, s: bytes, pos: nat): Step<Time> {
    match ReadTag(s)
    case NoTag(e) => Fail(m, e)
    case Tag(field, wireType, t) =>
      if field > 2 then
        match UnknownField(s, pos)
        case NoChunk(e) => Fail(m, e)
        case Chunk(_, n) => Advance(m, n)
      else if wireType != 0 then Fail(m, WrongWireType(wireType, field))
      else
        match Uvarint(s[t..])
        case Bad(e) => Fail(m, e)
        case Got(v, n) =>
          Advance(if field == 1 then m.(seconds := ToInt64(v)) else m.(nanos := ToInt32(v)), t + n)
  }

  datatype TimeRead = GotTime(t: Time) | BadTime(err: Error)

  /** `StdTimeUnmarshal`. */
  function DecodeTime(s: bytes): (r: TimeRead)
    ensures r.GotTime? ==> ValidTime(r.t)
    ensures r.BadTime? ==> !r.err.IndexOutOfRange?
  {
    DecodeReturns(TimeStep, Time(0, 0), s, 0);
    var d := DecodeAll(TimeStep, Time(0, 0), s, 0);
    if d.err.Some? then BadTime(d.err.value)
    else if !ValidTime(d.m) then BadTime(InvalidTime)
    else GotTime(d.m)
  }

  datatype EntryRead = Entry(key: bytes, val: bytes) | BadEntry(err: Error) | EntryPanics

  /** Escaped: the cursor has turned negative. */
  datatype EntryTurn =
    | KeyRead(data: bytes, n: nat)
    | ValueRead(data: bytes, n: nat)
    | Passed(n: nat)
    | Stuck(err: Error)
    | Escaped

  /** One field of a map entry of which `left` bytes are still ahead. Lengths are checked against the end of the
      whole buffer, not of the entry, and a sum that wraps is not noticed. */
  function EntryField(s: bytes, left: int, pos: nat): (r: EntryTurn)
    ensures !r.Stuck? && !r.Escaped? ==> 1 <= r.n <= |s|
    ensures r.Stuck? ==> !r.err.IndexOutOfRange?
  {
    match Uvarint(s)
    case Bad(e) => Stuck(e)
    case Got(wire, t) =>
      var field := ToInt32(wire / 8);
      if field == 1 || field == 2 then
        match LenDelimited(s[t..], pos + t)
        case NoChunk(e) => Stuck(e)
        case Chunk(data, n) => if field == 1 then KeyRead(data, t + n) else ValueRead(data, t + n)
      else
        match SkipField(s)
        case NoCount(e) => Stuck(e)
        case Count(n) =>
          if Wraps(pos + n) then Escaped
          else if n > left || n > |s| then Stuck(UnexpectedEOF)
          else Passed(n)
  }

  /** The loop over the fields of one map entry. A negative cursor is less than the end of the entry, so the loop
      goes on and indexes the buffer with it. */
  function ReadEntry(s: bytes, left: int, pos: nat, key: bytes, val: bytes): (r: EntryRead)
    ensures r.BadEntry? ==> !r.err.IndexOutOfRange?
    decreases |s|
  {
    if left <= 0 then Entry(key, val)
    else
      match EntryField(s, left, pos)
      case Stuck(e) => BadEntry(e)
      case Escaped => EntryPanics
      case KeyRead(data, n) => ReadEntry(s[n..], left - n, pos + n, data, val)
      case ValueRead(data, n) => ReadEntry(s[n..], left - n, pos + n, key, data)
      case Passed(n) => ReadEntry(s[n..], left - n, pos + n, key, val)
  }

  function TargetgroupStep(m: Targetgroup, s: bytes, pos: nat): Step<Targetgroup> {
    match ReadTag(s)
    case NoTag(e) => Fail(m, e)
    case Tag(field, wireType, t) =>
      if field > 2 then
        match UnknownField(s, pos)
        case NoChunk(e) => Fail(m, e)
        case Chunk(_, n) => Advance(m, n)
      else if wireType != 2 then Fail(m, WrongWireType(wireType, field))
      else
        match LenDelimited(s[t..], pos + t)
        case NoChunk(e) => Fail(m, e)
        case Chunk(data, n) =>
          if field == 1 then Advance(m.(targets := m.targets + [data]), t + n)
          else
            var h := t + n - |data|;
            match ReadEntry(s[h..], |data|, pos + h, [], [])
            case BadEntry(e) => Fail(m, e)
            case EntryPanics => Fail(m, IndexOutOfRange)
            case Entry(key, val) => Advance(m.(labels := m.labels[key := val]), t + n)
  }

  /** `Targetgroup.Unmarshal` on a message that already holds `m`. */
  function DecodeTargetgroup(m: Targetgroup, s: bytes): Decoded<Targetgroup> {
    DecodeAll(TargetgroupStep, m, s, 0)
  }

  /** One field. A status that cannot be read to its end leaves the bits that were read, and a group the fields that
      were decoded. */
  function MeshStep(m: MeshEntry, s: bytes, pos: nat): Step<MeshEntry> {
    match ReadTag(s)
    case NoTag(e) => Fail(m, e)
    case Tag(field, wireType, t) =>
      if field > 4 then
        match UnknownField(s, pos)
        case NoChunk(e) => Fail(m, e)
        case Chunk(_, n) => Advance(m, n)
      else if wireType != (if field == 2 then 0 else 2) then Fail(m, WrongWireType(wireType, field))
      else if field == 2 then
        var m' := m.(status := ToInt32(Bits(s[t..], 0)));
        match Uvarint(s[t..])
        case Bad(e) => Fail(m', e)
        case Got(_, n) => Advance(m', t + n)
      else
        match LenDelimited(s[t..], pos + t)
        case NoChunk(e) => Fail(m, e)
        case Chunk(data, n) =>
          if field == 1 then Advance(m.(name := data), t + n)
          else if field == 3 then
            match DecodeTime(data)
            case BadTime(e) => Fail(m, e)
            case GotTime(u) => Advance(m.(updated := u), t + n)
          else
            var d := DecodeTargetgroup(if m.targetgroup.Some? then m.targetgroup.value else NO_GROUP, data);
            var m' := m.(targetgroup := Some(d.m));
            if d.err.Some? then Fail(m', d.err.value) else Advance(m', t + n)
  }

  /** `MeshEntry.Unmarshal` on a message that already holds `m`. */
  function DecodeMesh(m: MeshEntry, s: bytes): Decoded<MeshEntry> {
    DecodeAll(MeshStep, m, s, 0)
  }
}
