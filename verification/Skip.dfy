/** The skipper of unknown fields, and the wire grammar it recognises. */
module Skip {
  import opened Base
  import opened Varint

  // ---- the wire grammar ----

  /** One field on the wire. Tags and lengths are kept as the bytes they were written with, which need not
      be the shortest. */
  datatype Field =
    | VarintField(tag: bytes, val: bytes)
    | Fixed64(tag: bytes, val: bytes)
    | LenField(tag: bytes, len: bytes, val: bytes)
    | Group(tag: bytes, body: seq<Field>, end: bytes)
    | Fixed32(tag: bytes, val: bytes)

  /** `b` is exactly one varint, of a value with low three bits `wireType`. */
  predicate IsTag(b: bytes, wireType: nat) {
    Uvarint(b).Got? && Uvarint(b).n == |b| && Uvarint(b).value % 8 == wireType
  }

  predicate WellFormed(f: Field)
    decreases f, 0
  {
    match f
    case VarintField(tag, v) => IsTag(tag, 0) && RawVarint(v, 0).Got? && RawVarint(v, 0).n == |v|
    case Fixed64(tag, v) => IsTag(tag, 1) && |v| == 8
    case LenField(tag, len, v) => IsTag(tag, 2) && Uvarint(len) == Got(|v|, |len|) && |v| < TWO_63
    case Group(tag, body, end) => IsTag(tag, 3) && AllWellFormed(body) && IsTag(end, 4)
    case Fixed32(tag, v) => IsTag(tag, 5) && |v| == 4
  }

  predicate AllWellFormed(fs: seq<Field>)
    decreases fs, 1
  {
    fs == [] || (WellFormed(fs[0]) && AllWellFormed(fs[1..]))
  }

  function Raw(f: Field): bytes
    decreases f, 0
  {
    match f
    case LenField(tag, len, v) => tag + len + v
    case Group(tag, body, end) => tag + (RawAll(body) + end)
    case _ => f.tag + f.val
  }

  function RawAll(fs: seq<Field>): bytes
    decreases fs, 1
  {
    if fs == [] then [] else Raw(fs[0]) + RawAll(fs[1..])
  }

  // ---- the skipper ----

  datatype Kind = Plain | Start | End

  /** A tag with the value that follows it; `n` is how far the cursor moves, perhaps past the end. */
  datatype Element = Elem(kind: Kind, n: nat) | BadElem(err: Error)

  datatype Count = Count(n: nat) | NoCount(err: Error)

  function NextElement(s: bytes): (r: Element)
    ensures r.Elem? ==> r.n >= 1
    ensures r.BadElem? ==> !r.err.IndexOutOfRange?
  {
    match Uvarint(s)
    case Bad(e) => BadElem(e)
    case Got(wire, t) =>
      match wire % 8
      case 0 => (match RawVarint(s[t..], 0) case Bad(e) => BadElem(e) case Got(_, n) => Elem(Plain, t + n))
      case 1 => Elem(Plain, t + 8)
      case 2 =>
        (match Uvarint(s[t..])
         case Bad(e) => BadElem(e)
         case Got(length, n) => if length >= TWO_63 then BadElem(InvalidLength) else Elem(Plain, t + n + length))
      case 3 => Elem(Start, t)
      case 4 => Elem(End, t)
      case 5 => Elem(Plain, t + 4)
      case _ => BadElem(IllegalWireType(wire % 8))
  }

  /** The skip loop at index `pos` with `s` still ahead and `depth` groups open. */
  function SkipFrom(s: bytes, pos: nat, depth: nat): (r: Count)
    ensures r.Count? ==> r.n > pos
    ensures r.NoCount? ==> !r.err.IndexOutOfRange?
    decreases |s|
  {
    if s == [] then NoCount(UnexpectedEOF)
    else
      match NextElement(s)
      case BadElem(e) => NoCount(e)
      case Elem(kind, n) =>
        if kind == End && depth == 0 then NoCount(UnexpectedEndOfGroup)
        else
          var d := if kind == Start then depth + 1 else if kind == End then depth - 1 else depth;
          if Wraps(pos + n) then NoCount(InvalidLength)
          else if d == 0 then Count(pos + n)
          else if n > |s| then NoCount(UnexpectedEOF)
          else SkipFrom(s[n..], pos + n, d)
  }

  /** What `skip` returns on a slice. */
  function SkipField(s: bytes): (r: Count)
    ensures r.Count? ==> r.n >= 1
    ensures r.NoCount? ==> !r.err.IndexOutOfRange?
  {
    SkipFrom(s, 0, 0)
  }

  /** One turn of the switch on the wire type: the tag at `start` and the value after it. */
  method PassElement(dAtA: bytes, start: nat) returns (e: Element)
    requires start < |dAtA|
    ensures e == NextElement(dAtA[start..])
  {
    ghost var rest := dAtA[start..];
    var wire := ReadVarint(dAtA, start);
    if wire.Bad? { return BadElem(wire.err); }
    var t := wire.n;
    assert rest[t..] == dAtA[start + t..];
    match wire.value % 8 {
      case 0 =>
        var v := SkipVarint(dAtA, start + t);
        if v.Bad? { return BadElem(v.err); }
        e := Elem(Plain, t + v.n);
      case 1 => e := Elem(Plain, t + 8);
      case 2 =>
        var length := ReadVarint(dAtA, start + t);
        if length.Bad? { return BadElem(length.err); }
        if ToInt64(length.value) < 0 { return BadElem(InvalidLength); }
        e := Elem(Plain, t + length.n + length.value);
      case 3 => e := Elem(Start, t);
      case 4 => e := Elem(End, t);
      case 5 => e := Elem(Plain, t + 4);
      case _ => e := BadElem(IllegalWireType(wire.value % 8));
    }
  }

  /** `skipCluster` and `skipTarget`. */
  method SkipMethod(dAtA: bytes) returns (r: Count)
    ensures r == SkipField(dAtA)
  {
    hide NextElement;
    var iNdEx, depth := 0, 0;
    assert dAtA[0..] == dAtA;
    while iNdEx < |dAtA|
      invariant SkipField(dAtA) == if iNdEx > |dAtA| then NoCount(UnexpectedEOF)
                                   else SkipFrom(dAtA[iNdEx..], iNdEx, depth)
      decreases |dAtA| - iNdEx
    {
      var e := PassElement(dAtA, iNdEx);
      if e.BadElem? { return NoCount(e.err); }
      match e.kind {
        case Start => depth := depth + 1;
        case End =>
          if depth == 0 { return NoCount(UnexpectedEndOfGroup); }
          depth := depth - 1;
        case Plain =>
      }
      ghost var rest := dAtA[iNdEx..];
      iNdEx := iNdEx + e.n;
      if Wraps(iNdEx) { return NoCount(InvalidLength); }
      if depth == 0 { return Count(iNdEx); }
      if iNdEx <= |dAtA| { assert rest[e.n..] == dAtA[iNdEx..]; }
    }
    r := NoCount(UnexpectedEOF);
  }

  /** The loop that passes over a varint without keeping its value. */
  method SkipVarint(dAtA: bytes, start: nat) returns (r: Read)
    requires start <= |dAtA|
    ensures r.Got? == RawVarint(dAtA[start..], 0).Got?
    ensures r.Got? ==> r.n == RawVarint(dAtA[start..], 0).n
    ensures r.Bad? ==> r == RawVarint(dAtA[start..], 0)
  {
    var iNdEx, shift := start, 0;
    ghost var k := 0;
    ghost var whole := RawVarint(dAtA[start..], 0);
    while true
      invariant start <= iNdEx <= |dAtA| && shift == 7 * k
      invariant match RawVarint(dAtA[iNdEx..], k)
                case Got(_, n) => whole.Got? && whole.n == iNdEx - start + n
                case Bad(e) => whole == Bad(e)
      decreases |dAtA| - iNdEx
    {
      if shift >= 64 { return Bad(IntOverflow); }
      if iNdEx >= |dAtA| { return Bad(UnexpectedEOF); }
      assert dAtA[iNdEx..][1..] == dAtA[iNdEx + 1..];
      iNdEx := iNdEx + 1;
      if dAtA[iNdEx - 1] < 0x80 { return Got(0, iNdEx - start); }
      shift := shift + 7;
      k := k + 1;
    }
  }

  // ---- locality ----

  lemma {:induction false} ElementLocal(s: bytes, t: bytes)
    requires NextElement(s).Elem?
    ensures NextElement(s + t) == NextElement(s)
  {
    VarintLocal(s, t);
    var n := Uvarint(s).n;
    assert (s + t)[n..] == s[n..] + t;
    if Uvarint(s).value % 8 == 0 {
      RawLocal(s[n..], t, 0);
    } else if Uvarint(s).value % 8 == 2 {
      VarintLocal(s[n..], t);
    }
  }

  /** A result is never changed by what follows the buffer. */
  lemma {:induction false} SkipLocal(s: bytes, t: bytes, pos: nat, depth: nat)
    requires SkipFrom(s, pos, depth).Count?
    ensures SkipFrom(s + t, pos, depth) == SkipFrom(s, pos, depth)
    decreases |s|
  {
    hide NextElement;
    ElementLocal(s, t);
    var Elem(kind, n) := NextElement(s);
    var d := if kind == Start then depth + 1 else if kind == End then depth - 1 else depth;
    if d > 0 {
      assert (s + t)[n..] == s[n..] + t;
      SkipLocal(s[n..], t, pos + n, d);
    }
  }

  // ---- what is skipped is a field ----

  /** A well-formed field is passed over exactly, at any depth. */
  lemma {:induction false} SkipsRaw(f: Field, t: bytes, pos: nat, depth: nat)
    requires WellFormed(f) && !Wraps(pos + |Raw(f)|)
    ensures |Raw(f)| >= 1
    ensures SkipFrom(Raw(f) + t, pos, depth) ==
            if depth == 0 then Count(pos + |Raw(f)|) else SkipFrom(t, pos + |Raw(f)|, depth)
    decreases f, 0
  {
    hide NextElement, SkipFrom, IsTag;
    if f.Group? {
      var rest := RawAll(f.body) + f.end + t;
      assert Raw(f) + t == f.tag + rest;
      assert rest == RawAll(f.body) + (f.end + t);
      TagElement(f.tag, rest, 3);
      SkipsOne(f.tag, rest, Start, pos, depth);
      SkipsRawAll(f.body, f.end + t, pos + |f.tag|, depth + 1);
      TagElement(f.end, t, 4);
      SkipsOne(f.end, t, End, pos + |f.tag| + |RawAll(f.body)|, depth + 1);
    } else {
      PlainElement(f, t);
      SkipsOne(Raw(f), t, Plain, pos, depth);
    }
  }

  /** One turn of the loop. */
  lemma {:induction false} SkipsOne(a: bytes, t: bytes, kind: Kind, pos: nat, depth: nat)
    requires NextElement(a + t) == Elem(kind, |a|) && !Wraps(pos + |a|) && (kind == End ==> depth > 0)
    ensures |a| >= 1
    ensures var d := if kind == Start then depth + 1 else if kind == End then depth - 1 else depth;
            SkipFrom(a + t, pos, depth) == if d == 0 then Count(pos + |a|) else SkipFrom(t, pos + |a|, d)
  {
    hide NextElement;
    assert (a + t)[|a|..] == t;
  }

  lemma {:induction false} SkipsRawAll(fs: seq<Field>, t: bytes, pos: nat, depth: nat)
    requires AllWellFormed(fs) && !Wraps(pos + |RawAll(fs)|) && depth > 0
    ensures SkipFrom(RawAll(fs) + t, pos, depth) == SkipFrom(t, pos + |RawAll(fs)|, depth)
    decreases fs, 1
  {
    hide Raw, WellFormed, SkipFrom;
    if fs == [] {
      assert RawAll(fs) + t == t;
    } else {
      assert RawAll(fs) + t == Raw(fs[0]) + (RawAll(fs[1..]) + t);
      SkipsRaw(fs[0], RawAll(fs[1..]) + t, pos, depth);
      SkipsRawAll(fs[1..], t, pos + |Raw(fs[0])|, depth);
    }
  }

  lemma ReadsTag(tag: bytes, t: bytes)
    requires Uvarint(tag).Got? && Uvarint(tag).n == |tag|
    ensures Uvarint(tag + t) == Uvarint(tag)
    ensures (tag + t)[|tag|..] == t
  {
    VarintLocal(tag, t);
  }

  lemma TagElement(tag: bytes, t: bytes, wireType: nat)
    requires IsTag(tag, wireType) && wireType in {3, 4}
    ensures NextElement(tag + t) == Elem(if wireType == 3 then Start else End, |tag|)
    ensures (tag + t)[|tag|..] == t
  {
    ReadsTag(tag, t);
  }

  lemma ElementTag(s: bytes)
    requires NextElement(s).Elem? && NextElement(s).kind != Plain
    ensures NextElement(s).n <= |s|
    ensures IsTag(s[..NextElement(s).n], if NextElement(s).kind == Start then 3 else 4)
  {
    VarintLocal(s, []);
  }

  lemma PlainElement(f: Field, t: bytes)
    requires WellFormed(f) && !f.Group?
    ensures NextElement(Raw(f) + t) == Elem(Plain, |Raw(f)|)
  {
    hide RawVarint, Uvarint;
    var rest := if f.LenField? then f.len + f.val + t else f.val + t;
    assert Raw(f) + t == f.tag + rest;
    ReadsTag(f.tag, rest);
    if f.VarintField? {
      RawLocal(f.val, t, 0);
    } else if f.LenField? {
      assert rest == f.len + (f.val + t);
      ReadsTag(f.len, f.val + t);
    }
  }

  /** An element that lies within the buffer and opens or closes no group is a field. */
  lemma ElementIsField(s: bytes) returns (f: Field)
    requires NextElement(s).Elem? && NextElement(s).kind == Plain && NextElement(s).n <= |s|
    ensures WellFormed(f) && Raw(f) == s[..NextElement(s).n] && !f.Group?
  {
    hide RawVarint, Uvarint;
    VarintLocal(s, []);
    var t := Uvarint(s).n;
    var n := NextElement(s).n;
    var tag, val := s[..t], s[t..n];
    assert s[..n] == tag + val;
    match Uvarint(s).value % 8 {
      case 0 =>
        RawPrefix(s[t..], 0);
        assert s[t..][..n - t] == val;
        f := VarintField(tag, val);
      case 1 => f := Fixed64(tag, val);
      case 2 =>
        VarintLocal(s[t..], []);
        var l := Uvarint(s[t..]).n;
        assert s[t..][..l] == s[t..t + l];
        assert val == s[t..t + l] + s[t + l..n];
        f := LenField(tag, s[t..t + l], s[t + l..n]);
      case _ => f := Fixed32(tag, val);
    }
  }

  /** The fields that close `|layers|` open groups, the innermost group's first. */
  ghost predicate Closes(b: bytes, layers: seq<seq<Field>>, ends: seq<bytes>)
    requires |layers| == |ends|
  {
    if layers == [] then b == []
    else
      && AllWellFormed(layers[0])
      && IsTag(ends[0], 4)
      && RawAll(layers[0]) + ends[0] <= b
      && Closes(b[|RawAll(layers[0]) + ends[0]|..], layers[1..], ends[1..])
  }

  /** What the loop passes over from inside `depth` groups is fields of each of them in turn, each closed. */
  lemma {:induction false} SkippedCloses(s: bytes, pos: nat, depth: nat)
      returns (layers: seq<seq<Field>>, ends: seq<bytes>)
    requires depth > 0 && SkipFrom(s, pos, depth).Count? && SkipFrom(s, pos, depth).n <= pos + |s|
    ensures |layers| == |ends| == depth
    ensures Closes(s[..SkipFrom(s, pos, depth).n - pos], layers, ends)
    decreases |s|
  {
    hide NextElement, Closes, Raw, WellFormed, IsTag;
    var Elem(kind, n) := NextElement(s);
    var m := SkipFrom(s, pos, depth).n - pos;
    if kind != Plain { ElementTag(s); }
    if kind == End && depth == 1 {
      NothingOpen();
      layers, ends := CloseGroup(s[..n], [], [], []);
      assert s[..n] + [] == s[..m];
    } else {
      var d := if kind == Start then depth + 1 else if kind == End then depth - 1 else depth;
      var ls, es := SkippedCloses(s[n..], pos + n, d);
      assert n <= m <= |s|;
      var c := s[n..m];
      assert c == s[n..][..m - n];
      assert s[..m] == s[..n] + c;
      match kind {
        case End =>
          layers, ends := CloseGroup(s[..n], c, ls, es);
        case Plain =>
          var f := ElementIsField(s);
          layers, ends := Prepend(f, c, ls, es);
        case Start =>
          layers, ends := OpenGroup(s[..n], c, ls, es);
      }
    }
  }

  lemma NothingOpen()
    ensures Closes([], [], [])
  {
  }

  lemma {:induction false} CloseGroup(end: bytes, c: bytes, ls: seq<seq<Field>>, es: seq<bytes>)
      returns (layers: seq<seq<Field>>, ends: seq<bytes>)
    requires IsTag(end, 4) && |ls| == |es| && Closes(c, ls, es)
    ensures |layers| == |ends| == |ls| + 1 && Closes(end + c, layers, ends)
  {
    layers, ends := [[]] + ls, [end] + es;
    assert layers[0] == [] && layers[1..] == ls && ends[1..] == es;
    assert RawAll([]) + end == end && (end + c)[|end|..] == c;
  }

  lemma {:induction false} OpenGroup(tag: bytes, c: bytes, ls: seq<seq<Field>>, es: seq<bytes>)
      returns (layers: seq<seq<Field>>, ends: seq<bytes>)
    requires IsTag(tag, 3) && |ls| == |es| >= 2 && Closes(c, ls, es)
    ensures |layers| == |ends| == |ls| - 1 && Closes(tag + c, layers, ends)
  {
    var inner := RawAll(ls[0]) + es[0];
    var f := Group(tag, ls[0], es[0]);
    var c' := c[|inner|..];
    assert c == inner + c';
    assert tag + c == Raw(f) + c';
    layers, ends := Prepend(f, c', ls[1..], es[1..]);
  }

  /** A field in front joins the innermost open group. */
  lemma {:induction false} Prepend(f: Field, c: bytes, ls: seq<seq<Field>>, es: seq<bytes>)
      returns (layers: seq<seq<Field>>, ends: seq<bytes>)
    requires WellFormed(f) && |ls| == |es| > 0 && Closes(c, ls, es)
    ensures |layers| == |ends| == |ls| && Closes(Raw(f) + c, layers, ends)
  {
    layers, ends := [[f] + ls[0]] + ls[1..], es;
    assert ([f] + ls[0])[1..] == ls[0];
    var first := RawAll(ls[0]) + es[0];
    assert RawAll([f] + ls[0]) == Raw(f) + RawAll(ls[0]);
    assert RawAll([f] + ls[0]) + es[0] == Raw(f) + first;
    assert c == first + c[|first|..];
    assert Raw(f) + c == Raw(f) + first + c[|first|..];
    assert (Raw(f) + c)[|Raw(f) + first|..] == c[|first|..];
  }

  /** What `skip` accepts within the buffer is one well-formed field. */
  lemma SkippedIsField(s: bytes) returns (f: Field)
    requires SkipField(s).Count? && SkipField(s).n <= |s|
    ensures WellFormed(f) && Raw(f) == s[..SkipField(s).n]
  {
    hide NextElement, IsTag;
    var Elem(kind, n) := NextElement(s);
    if kind == Plain {
      f := ElementIsField(s);
    } else {
      ElementTag(s);
      var m := SkipField(s).n;
      var ls, es := SkippedCloses(s[n..], n, 1);
      var c := s[n..][..m - n];
      f := Group(s[..n], ls[0], es[0]);
      OneClosed(c, ls, es);
      assert s[..m] == s[..n] + c;
    }
  }

  lemma OneClosed(c: bytes, ls: seq<seq<Field>>, es: seq<bytes>)
    requires |ls| == |es| == 1 && Closes(c, ls, es)
    ensures AllWellFormed(ls[0]) && IsTag(es[0], 4) && c == RawAll(ls[0]) + es[0]
  {
    assert c[|RawAll(ls[0]) + es[0]|..] == [];
  }

  /** `skip` stops within a buffer after n bytes exactly when those n bytes are one well-formed field,
      arbitrarily nested groups included. */
  lemma SkipExact(s: bytes, n: nat)
    requires n <= |s| < TWO_63
    ensures SkipField(s) == Count(n) <==> exists f :: WellFormed(f) && Raw(f) == s[..n]
  {
    if SkipField(s) == Count(n) {
      var f := SkippedIsField(s);
    }
    forall f | WellFormed(f) && Raw(f) == s[..n]
      ensures SkipField(s) == Count(n)
    {
      assert s == Raw(f) + s[n..];
      SkipsRaw(f, s[n..], 0, 0);
    }
  }
}
