/** What survives when Part and FullState go through bytes. */
module ClusterRoundTrip {
  import opened Base
  import opened Varint
  import opened Skip
  import opened Message
  import opened ClusterPb

  // ---- a turn of either loop depends on its own field only ----

  lemma PartLocal()
    ensures Local(PartStep)
  {
    forall m: Part, s: bytes, t: bytes, pos: nat, pos': nat |
        PartStep(m, s, pos).Advance? && !Wraps(pos' + |s|)
      ensures PartStep(m, s + t, pos') == PartStep(m, s, pos)
    {
      PartLocalAt(m, s, t, pos, pos');
    }
  }

  lemma PartLocalAt(m: Part, s: bytes, t: bytes, pos: nat, pos': nat)
    requires PartStep(m, s, pos).Advance? && !Wraps(pos' + |s|)
    ensures PartStep(m, s + t, pos') == PartStep(m, s, pos)
  {
    FieldLocal(s, t, pos, pos');
    hide ReadTag, LenDelimited, UnknownField;
  }

  lemma FullStateLocal()
    ensures Local(FullStateStep)
  {
    forall m: FullState, s: bytes, t: bytes, pos: nat, pos': nat |
        FullStateStep(m, s, pos).Advance? && !Wraps(pos' + |s|)
      ensures FullStateStep(m, s + t, pos') == FullStateStep(m, s, pos)
    {
      FullStateLocalAt(m, s, t, pos, pos');
    }
  }

  lemma FullStateLocalAt(m: FullState, s: bytes, t: bytes, pos: nat, pos': nat)
    requires FullStateStep(m, s, pos).Advance? && !Wraps(pos' + |s|)
    ensures FullStateStep(m, s + t, pos') == FullStateStep(m, s, pos)
  {
    FieldLocal(s, t, pos, pos');
    hide ReadTag, LenDelimited, UnknownField;
  }

  // ---- Last One Wins ----

  /** If `a` is accepted, decoding `a + b` is decoding `b` on top of its result: the same message, and
      accepted or not alike. */
  lemma PartLastOneWins(m: Part, a: bytes, b: bytes)
    requires |a + b| < TWO_63 && DecodePart(m, a).err.None?
    ensures var d := DecodePart(m, a + b);
            var e := DecodePart(DecodePart(m, a).m, b);
            (d.err.None? <==> e.err.None?) && (d.err.None? ==> d == e)
  {
    PartLocal();
    DecodeAppend(PartStep, m, a, b, 0);
    ShiftEither(PartStep, DecodePart(m, a).m, b, 0, |a|);
  }

  lemma FullStateLastOneWins(m: FullState, a: bytes, b: bytes)
    requires |a + b| < TWO_63 && DecodeFullState(m, a).err.None?
    ensures var d := DecodeFullState(m, a + b);
            var e := DecodeFullState(DecodeFullState(m, a).m, b);
            (d.err.None? <==> e.err.None?) && (d.err.None? ==> d == e)
  {
    FullStateLocal();
    DecodeAppend(FullStateStep, m, a, b, 0);
    ShiftEither(FullStateStep, DecodeFullState(m, a).m, b, 0, |a|);
  }

  // ---- unknown fields are kept as they were written ----

  /** The unrecognized bytes are whole fields that the message does not declare. */
  ghost predicate PartSound(p: Part) {
    exists fs :: AllForeign(fs, 2) && p.unrecognized == RawAll(fs)
  }

  ghost predicate FullStateSound(m: FullState) {
    && (forall i :: 0 <= i < |m.parts| ==> PartSound(m.parts[i]))
    && exists fs :: AllForeign(fs, 1) && m.unrecognized == RawAll(fs)
  }

  lemma PartStepForeign(m: Part, f: Field, t: bytes, pos: nat)
    requires Foreign(f, 2) && !Wraps(pos + |Raw(f)|)
    ensures Raw(f) != []
    ensures PartStep(m, Raw(f) + t, pos) == Advance(m.(unrecognized := m.unrecognized + Raw(f)), |Raw(f)|)
  {
    hide ReadTag, LenDelimited, UnknownField, Raw;
    ForeignReads(f, 2, t, pos);
  }

  lemma {:induction false} PartKeepsForeign(m: Part, fs: seq<Field>, pos: nat)
    requires AllForeign(fs, 2) && !Wraps(pos + |RawAll(fs)|)
    ensures DecodeAll(PartStep, m, RawAll(fs), pos)
         == Decoded(m.(unrecognized := m.unrecognized + RawAll(fs)), None)
    decreases |fs|
  {
    hide PartStep, Raw, Foreign;
    if fs == [] {
      assert m.unrecognized + [] == m.unrecognized;
    } else {
      var first, rest := Raw(fs[0]), RawAll(fs[1..]);
      PartStepForeign(m, fs[0], rest, pos);
      DecodeFirst(PartStep, m, first, rest, pos);
      PartKeepsForeign(m.(unrecognized := m.unrecognized + first), fs[1..], pos + |first|);
      assert m.unrecognized + first + rest == m.unrecognized + (first + rest);
    }
  }

  lemma FullStateStepForeign(m: FullState, f: Field, t: bytes, pos: nat)
    requires Foreign(f, 1) && !Wraps(pos + |Raw(f)|)
    ensures Raw(f) != []
    ensures FullStateStep(m, Raw(f) + t, pos) == Advance(m.(unrecognized := m.unrecognized + Raw(f)), |Raw(f)|)
  {
    hide ReadTag, LenDelimited, UnknownField, Raw;
    ForeignReads(f, 1, t, pos);
  }

  lemma {:induction false} FullStateKeepsForeign(m: FullState, fs: seq<Field>, pos: nat)
    requires AllForeign(fs, 1) && !Wraps(pos + |RawAll(fs)|)
    ensures DecodeAll(FullStateStep, m, RawAll(fs), pos)
         == Decoded(m.(unrecognized := m.unrecognized + RawAll(fs)), None)
    decreases |fs|
  {
    hide FullStateStep, Raw, Foreign;
    if fs == [] {
      assert m.unrecognized + [] == m.unrecognized;
    } else {
      var first, rest := Raw(fs[0]), RawAll(fs[1..]);
      FullStateStepForeign(m, fs[0], rest, pos);
      DecodeFirst(FullStateStep, m, first, rest, pos);
      FullStateKeepsForeign(m.(unrecognized := m.unrecognized + first), fs[1..], pos + |first|);
      assert m.unrecognized + first + rest == m.unrecognized + (first + rest);
    }
  }

  lemma ForeignSnoc(s: bytes, pos: nat, last: nat, fs: seq<Field>) returns (fs': seq<Field>)
    requires ReadTag(s).Tag? && ReadTag(s).field > last && UnknownField(s, pos).Chunk? && AllForeign(fs, last)
    ensures AllForeign(fs', last) && RawAll(fs') == RawAll(fs) + UnknownField(s, pos).data
  {
    var f := UnknownIsForeign(s, pos, last);
    fs' := fs + [f];
    RawAllSnoc(fs, f);
  }

  // ---- Part ----

  /** A nil and a present empty Data are written alike. */
  function Canonical(p: Part): Part {
    p.(data := if Content(p.data) == [] then None else p.data)
  }

  function WithField(m: Part, tag: byte, payload: bytes): Part {
    if payload == [] then m else if tag == 0x0a then m.(key := payload) else m.(data := Some(payload))
  }

  lemma PartStepReads(m: Part, tag: byte, payload: bytes, t: bytes, pos: nat)
    requires (tag == 0x0a || tag == 0x12) && !Wraps(pos + |LenBytes(tag, payload)|) && payload != []
    ensures PartStep(m, LenBytes(tag, payload) + t, pos)
         == Advance(WithField(m, tag, payload), |LenBytes(tag, payload)|)
  {
    hide ReadTag, LenDelimited, UnknownField, LenBytes;
    LenReads(tag, payload, t, pos);
  }

  lemma PartFieldReads(m: Part, tag: byte, payload: bytes, t: bytes, pos: nat)
    requires (tag == 0x0a || tag == 0x12) && !Wraps(pos + |Optional(tag, payload)|)
    ensures DecodeAll(PartStep, m, Optional(tag, payload) + t, pos)
         == DecodeAll(PartStep, WithField(m, tag, payload), t, pos + |Optional(tag, payload)|)
  {
    hide PartStep, LenBytes;
    if payload == [] {
      assert Optional(tag, payload) + t == t;
    } else {
      PartStepReads(m, tag, payload, t, pos);
      DecodeFirst(PartStep, m, LenBytes(tag, payload), t, pos);
    }
  }

  /** Writing a part and reading it back gives it again, Data's nil aside. */
  lemma PartRoundTrip(p: Part)
    requires PartSound(p) && |PartBytes(p)| < TWO_63
    ensures DecodePart(NO_PART, PartBytes(p)) == Decoded(Canonical(p), None)
  {
    var fs :| AllForeign(fs, 2) && p.unrecognized == RawAll(fs);
    PartReads(p, fs);
  }

  lemma PartReads(p: Part, fs: seq<Field>)
    requires AllForeign(fs, 2) && p.unrecognized == RawAll(fs) && |PartBytes(p)| < TWO_63
    ensures DecodePart(NO_PART, PartBytes(p)) == Decoded(Canonical(p), None)
  {
    hide Optional, PartStep, DecodeAll, RawAll, AllForeign;
    var a, b := Optional(0x0a, p.key), Optional(0x12, Content(p.data));
    var m1 := WithField(NO_PART, 0x0a, p.key);
    PartFieldReads(NO_PART, 0x0a, p.key, b + p.unrecognized, 0);
    PartFieldReads(m1, 0x12, Content(p.data), p.unrecognized, |a|);
    var m2 := WithField(m1, 0x12, Content(p.data));
    PartKeepsForeign(m2, fs, |a| + |b|);
    assert m2.unrecognized + p.unrecognized == p.unrecognized;
  }

  /** One turn keeps unknown bytes whole, and the message written back grows by no more than was read. */
  lemma PartStepSound(m: Part, s: bytes, pos: nat)
    requires PartStep(m, s, pos).Advance? && PartSound(m)
    ensures PartSound(PartStep(m, s, pos).m)
    ensures |PartBytes(PartStep(m, s, pos).m)| <= |PartBytes(m)| + PartStep(m, s, pos).n
  {
    var fs :| AllForeign(fs, 2) && m.unrecognized == RawAll(fs);
    var field := ReadTag(s).field;
    if field > 2 {
      var fs' := ForeignSnoc(s, pos, 2, fs);
    } else {
      LenMinimal(s, pos + ReadTag(s).n, if field == 1 then 0x0a else 0x12);
    }
  }

  lemma {:induction false} PartDecodeSound(m: Part, s: bytes, pos: nat)
    requires DecodeAll(PartStep, m, s, pos).err.None? && PartSound(m)
    ensures PartSound(DecodeAll(PartStep, m, s, pos).m)
    ensures |PartBytes(DecodeAll(PartStep, m, s, pos).m)| <= |PartBytes(m)| + |s|
    decreases |s|
  {
    hide PartStep, PartBytes, PartSound;
    if s != [] {
      PartStepSound(m, s, pos);
      var Advance(m', n) := PartStep(m, s, pos);
      PartDecodeSound(m', s[n..], pos + n);
    }
  }

  lemma FreshPartSound()
    ensures PartSound(NO_PART) && PartBytes(NO_PART) == []
  {
    assert AllForeign([], 2) && NO_PART.unrecognized == RawAll([]);
  }

  /** Whatever bytes a fresh part accepts, writing the result takes no more bytes and reads back with the same
      key, data and unrecognized bytes. The very same part comes back unless Data was present and empty. */
  lemma PartReencode(s: bytes)
    requires |s| < TWO_63 && DecodePart(NO_PART, s).err.None?
    ensures var p := DecodePart(NO_PART, s).m;
            && |PartBytes(p)| <= |s|
            && DecodePart(NO_PART, PartBytes(p)) == Decoded(Canonical(p), None)
            && (DecodePart(NO_PART, PartBytes(p)).m == p <==> p.data != Some([]))
            && Canonical(p).key == p.key && Canonical(p).unrecognized == p.unrecognized
            && Content(Canonical(p).data) == Content(p.data)
  {
    FreshPartSound();
    PartDecodeSound(NO_PART, s, 0);
    PartRoundTrip(DecodePart(NO_PART, s).m);
  }

  // ---- FullState ----

  function CanonicalParts(ps: seq<Part>): (r: seq<Part>)
    ensures |r| == |ps| && forall i :: 0 <= i < |ps| ==> r[i] == Canonical(ps[i])
  {
    seq(|ps|, i requires 0 <= i < |ps| => Canonical(ps[i]))
  }

  lemma NestedStepReads(m: FullState, p: Part, t: bytes, pos: nat)
    requires PartSound(p) && !Wraps(pos + |LenBytes(0x0a, PartBytes(p))|)
    ensures FullStateStep(m, LenBytes(0x0a, PartBytes(p)) + t, pos)
         == Advance(m.(parts := m.parts + [Canonical(p)]), |LenBytes(0x0a, PartBytes(p))|)
  {
    hide ReadTag, LenDelimited, UnknownField, DecodePart, LenBytes;
    LenReads(0x0a, PartBytes(p), t, pos);
    PartRoundTrip(p);
  }

  lemma NestedReads(m: FullState, p: Part, t: bytes, pos: nat)
    requires PartSound(p) && !Wraps(pos + |LenBytes(0x0a, PartBytes(p))|)
    ensures DecodeAll(FullStateStep, m, LenBytes(0x0a, PartBytes(p)) + t, pos)
         == DecodeAll(FullStateStep, m.(parts := m.parts + [Canonical(p)]), t, pos + |LenBytes(0x0a, PartBytes(p))|)
  {
    hide FullStateStep, LenBytes, PartBytes, PartSound;
    NestedStepReads(m, p, t, pos);
    DecodeFirst(FullStateStep, m, LenBytes(0x0a, PartBytes(p)), t, pos);
  }

  lemma {:induction false} PartsReads(m: FullState, ps: seq<Part>, t: bytes, pos: nat)
    requires (forall i :: 0 <= i < |ps| ==> PartSound(ps[i])) && !Wraps(pos + |PartsBytes(ps)|)
    ensures DecodeAll(FullStateStep, m, PartsBytes(ps) + t, pos)
         == DecodeAll(FullStateStep, m.(parts := m.parts + CanonicalParts(ps)), t, pos + |PartsBytes(ps)|)
    decreases |ps|
  {
    hide PartBytes, LenBytes, FullStateStep, Canonical, PartSound;
    if ps == [] {
      assert PartsBytes(ps) + t == t;
      assert m.parts + CanonicalParts(ps) == m.parts;
    } else {
      var b := LenBytes(0x0a, PartBytes(ps[0]));
      assert PartsBytes(ps) + t == b + (PartsBytes(ps[1..]) + t);
      NestedReads(m, ps[0], PartsBytes(ps[1..]) + t, pos);
      PartsReads(m.(parts := m.parts + [Canonical(ps[0])]), ps[1..], t, pos + |b|);
      assert m.parts + [Canonical(ps[0])] + CanonicalParts(ps[1..]) == m.parts + CanonicalParts(ps);
    }
  }

  /** Decoding a written state on top of `m` appends its parts, in order, and its unknown bytes. */
  lemma FullStateAppends(m: FullState, w: FullState)
    requires FullStateSound(w) && |FullStateBytes(w)| < TWO_63
    ensures DecodeFullState(m, FullStateBytes(w))
         == Decoded(FullState(m.parts + CanonicalParts(w.parts), m.unrecognized + w.unrecognized), None)
  {
    var fs :| AllForeign(fs, 1) && w.unrecognized == RawAll(fs);
    FullStateReads(m, w, fs);
  }

  lemma FullStateReads(m: FullState, w: FullState, fs: seq<Field>)
    requires (forall i :: 0 <= i < |w.parts| ==> PartSound(w.parts[i])) && |FullStateBytes(w)| < TWO_63
    requires AllForeign(fs, 1) && w.unrecognized == RawAll(fs)
    ensures DecodeFullState(m, FullStateBytes(w))
         == Decoded(FullState(m.parts + CanonicalParts(w.parts), m.unrecognized + w.unrecognized), None)
  {
    hide DecodeAll, FullStateStep, RawAll, AllForeign, PartSound, PartsBytes, CanonicalParts;
    var n := |PartsBytes(w.parts)|;
    assert 0 + n == n && n + |RawAll(fs)| == |FullStateBytes(w)|;
    PartsReads(m, w.parts, w.unrecognized, 0);
    FullStateKeepsForeign(m.(parts := m.parts + CanonicalParts(w.parts)), fs, n);
  }

  /** The round trip. With every Data nil or nonempty the very same state comes back. */
  lemma {:induction false} FullStateRoundTrip(w: FullState)
    requires FullStateSound(w) && |FullStateBytes(w)| < TWO_63
    ensures DecodeFullState(NO_STATE, FullStateBytes(w))
         == Decoded(FullState(CanonicalParts(w.parts), w.unrecognized), None)
    ensures DecodeFullState(NO_STATE, FullStateBytes(w)).m == w
       <==> forall i :: 0 <= i < |w.parts| ==> w.parts[i].data != Some([])
  {
    hide DecodeFullState, FullStateBytes, FullStateSound;
    FullStateAppends(NO_STATE, w);
    assert [] + CanonicalParts(w.parts) == CanonicalParts(w.parts) && [] + w.unrecognized == w.unrecognized;
    if forall i :: 0 <= i < |w.parts| ==> w.parts[i].data != Some([]) {
      assert CanonicalParts(w.parts) == w.parts;
    } else {
      var i :| 0 <= i < |w.parts| && w.parts[i].data == Some([]);
      assert CanonicalParts(w.parts)[i] != w.parts[i];
    }
  }

  /** Concatenated encodings decode to concatenated parts. */
  lemma {:induction false} FullStateConcat(v: FullState, w: FullState)
    requires FullStateSound(v) && FullStateSound(w) && |FullStateBytes(v) + FullStateBytes(w)| < TWO_63
    ensures DecodeFullState(NO_STATE, FullStateBytes(v) + FullStateBytes(w))
         == Decoded(FullState(CanonicalParts(v.parts) + CanonicalParts(w.parts), v.unrecognized + w.unrecognized), None)
  {
    hide DecodeFullState, FullStateBytes, FullStateSound;
    FullStateAppends(NO_STATE, v);
    assert [] + CanonicalParts(v.parts) == CanonicalParts(v.parts) && [] + v.unrecognized == v.unrecognized;
    FullStateAppends(DecodeFullState(NO_STATE, FullStateBytes(v)).m, w);
    FullStateLastOneWins(NO_STATE, FullStateBytes(v), FullStateBytes(w));
  }

  lemma {:induction false} PartsBytesSnoc(ps: seq<Part>, p: Part)
    ensures PartsBytes(ps + [p]) == PartsBytes(ps) + LenBytes(0x0a, PartBytes(p))
  {
    hide PartBytes, LenBytes;
    if ps == [] {
      assert [p][1..] == [];
    } else {
      assert (ps + [p])[1..] == ps[1..] + [p];
      PartsBytesSnoc(ps[1..], p);
    }
  }

  lemma {:induction false} KeepsUnknown(m: FullState, s: bytes, pos: nat)
    requires FullStateSound(m) && ReadTag(s).Tag? && ReadTag(s).field > 1 && UnknownField(s, pos).Chunk?
    ensures var m' := m.(unrecognized := m.unrecognized + UnknownField(s, pos).data);
            FullStateSound(m') && |FullStateBytes(m')| == |FullStateBytes(m)| + |UnknownField(s, pos).data|
  {
    hide ReadTag, UnknownField, PartsBytes, PartSound;
    var fs :| AllForeign(fs, 1) && m.unrecognized == RawAll(fs);
    var fs' := ForeignSnoc(s, pos, 1, fs);
  }

  lemma {:induction false} KeepsPart(m: FullState, p: Part)
    requires FullStateSound(m) && PartSound(p)
    ensures var m' := m.(parts := m.parts + [p]);
            && FullStateSound(m')
            && |FullStateBytes(m')| == |FullStateBytes(m)| + |LenBytes(0x0a, PartBytes(p))|
  {
    hide LenBytes, PartBytes, PartSound, PartsBytes;
    PartsBytesSnoc(m.parts, p);
  }

  /** A nested part is written in no more bytes than it was read from. */
  lemma {:induction false} NestedSound(s: bytes, pos: nat)
    requires ReadTag(s).Tag?
    requires var t := ReadTag(s).n;
             && LenDelimited(s[t..], pos + t).Chunk?
             && DecodePart(NO_PART, LenDelimited(s[t..], pos + t).data).err.None?
    ensures var t := ReadTag(s).n;
            var c := LenDelimited(s[t..], pos + t);
            var p := DecodePart(NO_PART, c.data).m;
            PartSound(p) && |LenBytes(0x0a, PartBytes(p))| <= t + c.n
  {
    hide ReadTag, LenDelimited, PartSound, PartStep, PartBytes;
    var t := ReadTag(s).n;
    var data := LenDelimited(s[t..], pos + t).data;
    LenMinimal(s, pos + t, 0x0a);
    FreshPartSound();
    PartDecodeSound(NO_PART, data, 0);
    VarintMonotone(|PartBytes(DecodePart(NO_PART, data).m)|, |data|);
  }

  lemma {:induction false} FullStateStepSound(m: FullState, s: bytes, pos: nat)
    requires FullStateStep(m, s, pos).Advance? && FullStateSound(m)
    ensures FullStateSound(FullStateStep(m, s, pos).m)
    ensures |FullStateBytes(FullStateStep(m, s, pos).m)| <= |FullStateBytes(m)| + FullStateStep(m, s, pos).n
  {
    hide ReadTag, LenDelimited, FullStateSound, FullStateBytes, DecodePart;
    var t := ReadTag(s).n;
    if ReadTag(s).field > 1 {
      KeepsUnknown(m, s, pos);
    } else {
      NestedSound(s, pos);
      KeepsPart(m, DecodePart(NO_PART, LenDelimited(s[t..], pos + t).data).m);
    }
  }

  lemma {:induction false} FullStateDecodeSound(m: FullState, s: bytes, pos: nat)
    requires DecodeAll(FullStateStep, m, s, pos).err.None? && FullStateSound(m)
    ensures FullStateSound(DecodeAll(FullStateStep, m, s, pos).m)
    ensures |FullStateBytes(DecodeAll(FullStateStep, m, s, pos).m)| <= |FullStateBytes(m)| + |s|
    decreases |s|
  {
    hide FullStateStep, FullStateBytes, FullStateSound;
    if s != [] {
      FullStateStepSound(m, s, pos);
      var Advance(m', n) := FullStateStep(m, s, pos);
      FullStateDecodeSound(m', s[n..], pos + n);
    }
  }

  /** The same as PartReencode for a whole state: accepted bytes are never shorter than the state written back,
      which reads back part for part. */
  lemma FullStateReencode(s: bytes)
    requires |s| < TWO_63 && DecodeFullState(NO_STATE, s).err.None?
    ensures var w := DecodeFullState(NO_STATE, s).m;
            && |FullStateBytes(w)| <= |s|
            && DecodeFullState(NO_STATE, FullStateBytes(w))
            == Decoded(FullState(CanonicalParts(w.parts), w.unrecognized), None)
  {
    assert AllForeign([], 1) && NO_STATE.unrecognized == RawAll([]);
    FullStateDecodeSound(NO_STATE, s, 0);
    FullStateRoundTrip(DecodeFullState(NO_STATE, s).m);
  }
}
