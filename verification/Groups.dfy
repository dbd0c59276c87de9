/** The skipper that the Protocol Buffers encoding asks for, which matches the numbers of a group's two tags, and
    when the one there is does the same. */
module Groups {
  import opened Base
  import opened Varint
  import opened Skip

  /** The field number that a tag carries. */
  function NumberOf(tag: bytes): nat {
    if Uvarint(tag).Got? then Uvarint(tag).value / 8 else 0
  }

  /** Every group, at any depth, is closed under the number that opened it. */
  predicate NumbersMatch(f: Field)
    decreases f, 0
  {
    f.Group? ==> NumberOf(f.tag) == NumberOf(f.end) && AllMatch(f.body)
  }

  predicate AllMatch(fs: seq<Field>)
    decreases fs, 1
  {
    fs == [] || (NumbersMatch(fs[0]) && AllMatch(fs[1..]))
  }

  /** The skip loop with the numbers of the open groups, innermost last, instead of their count. */
  function StrictFrom(s: bytes, pos: nat, open: seq<nat>): Count
    decreases |s|
  {
    if s == [] then NoCount(UnexpectedEOF)
    else
      match NextElement(s)
      case BadElem(e) => NoCount(e)
      case Elem(kind, n) =>
        if kind == End && (open == [] || open[|open| - 1] != NumberOf(s)) then NoCount(UnexpectedEndOfGroup)
        else
          var o := Reopened(open, kind, NumberOf(s));
          if Wraps(pos + n) then NoCount(InvalidLength)
          else if o == [] then Count(pos + n)
          else if n > |s| then NoCount(UnexpectedEOF)
          else StrictFrom(s[n..], pos + n, o)
  }

  function Reopened(open: seq<nat>, kind: Kind, number: nat): seq<nat>
    requires kind == End ==> open != []
  {
    match kind
    case Start => open + [number]
    case End => open[..|open| - 1]
    case Plain => open
  }

  function StrictSkip(s: bytes): Count {
    StrictFrom(s, 0, [])
  }

  /** What the strict one passes over, the other does too. */
  lemma {:induction false} StrictIsSkip(s: bytes, pos: nat, open: seq<nat>)
    requires StrictFrom(s, pos, open).Count?
    ensures SkipFrom(s, pos, |open|) == StrictFrom(s, pos, open)
    decreases |s|
  {
    hide NextElement, NumberOf;
    var Elem(kind, n) := NextElement(s);
    var o := Reopened(open, kind, NumberOf(s));
    if o != [] {
      StrictIsSkip(s[n..], pos + n, o);
    }
  }

  lemma {:induction false} StrictOne(a: bytes, t: bytes, kind: Kind, pos: nat, open: seq<nat>)
    requires NextElement(a + t) == Elem(kind, |a|) && !Wraps(pos + |a|)
    ensures |a| >= 1
    ensures kind == End && (open == [] || open[|open| - 1] != NumberOf(a + t)) ==>
              StrictFrom(a + t, pos, open) == NoCount(UnexpectedEndOfGroup)
    ensures kind == End && open != [] && open[|open| - 1] == NumberOf(a + t) ==>
              StrictFrom(a + t, pos, open) == Going(t, pos + |a|, open[..|open| - 1])
    ensures kind != End ==>
              StrictFrom(a + t, pos, open) == Going(t, pos + |a|, Reopened(open, kind, NumberOf(a + t)))
  {
    hide NextElement, NumberOf;
    assert (a + t)[|a|..] == t;
  }

  /** How the loop goes on at `t`. */
  function Going(t: bytes, pos: nat, open: seq<nat>): Count {
    if open == [] then Count(pos) else StrictFrom(t, pos, open)
  }

  lemma NumberOfTag(tag: bytes, t: bytes, wireType: nat)
    requires IsTag(tag, wireType)
    ensures NumberOf(tag + t) == NumberOf(tag)
  {
    ReadsTag(tag, t);
  }

  /** A well-formed field is passed over if its numbers match, and refused if anywhere in it they do not. */
  lemma {:induction false} StrictRaw(f: Field, t: bytes, pos: nat, open: seq<nat>)
    requires WellFormed(f) && !Wraps(pos + |Raw(f)|)
    ensures |Raw(f)| >= 1
    ensures StrictFrom(Raw(f) + t, pos, open) ==
            if NumbersMatch(f) then Going(t, pos + |Raw(f)|, open) else NoCount(UnexpectedEndOfGroup)
    decreases f, 0
  {
    hide NextElement, StrictFrom, IsTag, NumberOf;
    if f.Group? {
      var rest := RawAll(f.body) + f.end + t;
      assert Raw(f) + t == f.tag + rest;
      assert rest == RawAll(f.body) + (f.end + t);
      var inner := open + [NumberOf(f.tag)];
      TagElement(f.tag, rest, 3);
      NumberOfTag(f.tag, rest, 3);
      StrictOne(f.tag, rest, Start, pos, open);
      StrictRawAll(f.body, f.end + t, pos + |f.tag|, inner);
      TagElement(f.end, t, 4);
      NumberOfTag(f.end, t, 4);
      StrictOne(f.end, t, End, pos + |f.tag| + |RawAll(f.body)|, inner);
      assert inner[..|inner| - 1] == open;
    } else {
      PlainElement(f, t);
      StrictOne(Raw(f), t, Plain, pos, open);
    }
  }

  lemma {:induction false} StrictRawAll(fs: seq<Field>, t: bytes, pos: nat, open: seq<nat>)
    requires AllWellFormed(fs) && !Wraps(pos + |RawAll(fs)|) && open != []
    ensures StrictFrom(RawAll(fs) + t, pos, open) ==
            if AllMatch(fs) then StrictFrom(t, pos + |RawAll(fs)|, open) else NoCount(UnexpectedEndOfGroup)
    decreases fs, 1
  {
    hide Raw, WellFormed, StrictFrom, NumbersMatch;
    if fs == [] {
      assert RawAll(fs) + t == t;
    } else {
      assert RawAll(fs) + t == Raw(fs[0]) + (RawAll(fs[1..]) + t);
      StrictRaw(fs[0], RawAll(fs[1..]) + t, pos, open);
      StrictRawAll(fs[1..], t, pos + |Raw(fs[0])|, open);
    }
  }

  /** The strict skipper stops after n bytes exactly when they are one field of the standard. */
  lemma {:induction false} StrictExact(s: bytes, n: nat)
    requires n <= |s| < TWO_63
    ensures StrictSkip(s) == Count(n) <==> exists f :: WellFormed(f) && NumbersMatch(f) && Raw(f) == s[..n]
  {
    hide WellFormed, NumbersMatch, Raw, StrictFrom;
    if StrictSkip(s) == Count(n) {
      StrictIsSkip(s, 0, []);
      var f := SkippedIsField(s);
      StrictAt(s, f);
    }
    forall f | WellFormed(f) && NumbersMatch(f) && Raw(f) == s[..n]
      ensures StrictSkip(s) == Count(n)
    {
      StrictAt(s, f);
    }
  }

  lemma {:induction false} StrictAt(s: bytes, f: Field)
    requires WellFormed(f) && |Raw(f)| <= |s| < TWO_63 && Raw(f) == s[..|Raw(f)|]
    ensures StrictSkip(s) == if NumbersMatch(f) then Count(|Raw(f)|) else NoCount(UnexpectedEndOfGroup)
  {
    hide WellFormed, NumbersMatch, Raw, StrictFrom;
    assert s == Raw(f) + s[|Raw(f)|..];
    StrictRaw(f, s[|Raw(f)|..], 0, []);
  }

  /** Where `skip` stops inside a buffer, it has passed over a field of the standard, in whatever way the bytes are
      taken for a field, exactly when the strict skipper stops there too. */
  lemma {:induction false} SkipMeetsStandard(s: bytes, n: nat, f: Field)
    requires n <= |s| < TWO_63 && SkipField(s) == Count(n) && WellFormed(f) && Raw(f) == s[..n]
    ensures NumbersMatch(f) <==> StrictSkip(s) == Count(n)
    ensures !NumbersMatch(f) <==> StrictSkip(s) == NoCount(UnexpectedEndOfGroup)
  {
    hide WellFormed, NumbersMatch, Raw, StrictFrom, SkipField;
    StrictAt(s, f);
  }

  /** It does not always: field 1 opens, field 2 closes, and `skip` does not look. */
  lemma {:induction false} EndNumberIgnored()
    ensures SkipField([0x0b, 0x14]) == Count(2) && StrictSkip([0x0b, 0x14]) == NoCount(UnexpectedEndOfGroup)
  {
    var s, end: bytes := [0x0b, 0x14], [0x14];
    assert Uvarint(s) == Got(0x0b, 1) && Uvarint(end) == Got(0x14, 1);
    assert s[1..] == end && end[1..] == [];
    hide Uvarint;
    assert NextElement(s) == Elem(Start, 1) && NextElement(end) == Elem(End, 1);
    hide NextElement;
    assert SkipFrom(end, 1, 1) == Count(2);
    assert StrictFrom(end, 1, [] + [1]) == NoCount(UnexpectedEndOfGroup);
  }
}
