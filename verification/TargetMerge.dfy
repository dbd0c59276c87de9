/** "Last One Wins" for Targetgroup and MeshEntry. */
module TargetMerge {
  import opened Base
  import opened Varint
  import opened Skip
  import opened Message
  import opened TargetPb

  // ---- a turn that succeeds depends on its own bytes only ----

  lemma LenAnywhere(s: bytes, t: bytes, pos: nat, pos': nat)
    requires LenDelimited(s, pos).Chunk? && !Wraps(pos' + |s|)
    ensures LenDelimited(s + t, pos') == LenDelimited(s, pos)
  {
    hide Uvarint;
    LenLocal(s, t, pos);
  }

  lemma {:induction false} EntryFieldLocal(s: bytes, t: bytes, left: int, pos: nat, pos': nat)
    requires !EntryField(s, left, pos).Stuck? && !EntryField(s, left, pos).Escaped? && !Wraps(pos' + |s|)
    ensures EntryField(s + t, left, pos') == EntryField(s, left, pos)
  {
    hide Uvarint, LenDelimited, SkipFrom;
    VarintLocal(s, t);
    var n := Uvarint(s).n;
    assert (s + t)[n..] == s[n..] + t;
    if LenDelimited(s[n..], pos + n).Chunk? {
      LenAnywhere(s[n..], t, pos + n, pos' + n);
    }
    if SkipField(s).Count? {
      SkipLocal(s, t, 0, 0);
    }
  }

  lemma {:induction false} EntryLocal(s: bytes, t: bytes, left: int, pos: nat, pos': nat, key: bytes, val: bytes)
    requires ReadEntry(s, left, pos, key, val).Entry? && !Wraps(pos' + |s|)
    ensures ReadEntry(s + t, left, pos', key, val) == ReadEntry(s, left, pos, key, val)
    decreases |s|
  {
    hide EntryField;
    if left > 0 {
      EntryFieldLocal(s, t, left, pos, pos');
      var turn := EntryField(s, left, pos);
      var n := turn.n;
      assert (s + t)[n..] == s[n..] + t;
      EntryLocal(s[n..], t, left - n, pos + n, pos' + n, if turn.KeyRead? then turn.data else key,
                 if turn.ValueRead? then turn.data else val);
    }
  }

  lemma {:induction false} GroupLocalAt(m: Targetgroup, s: bytes, t: bytes, pos: nat, pos': nat)
    requires TargetgroupStep(m, s, pos).Advance? && !Wraps(pos' + |s|)
    ensures TargetgroupStep(m, s + t, pos') == TargetgroupStep(m, s, pos)
  {
    hide ReadTag, LenDelimited, UnknownField, ReadEntry;
    FieldLocal(s, t, pos, pos');
    var tag := ReadTag(s);
    if tag.field == 2 {
      var c := LenDelimited(s[tag.n..], pos + tag.n);
      var h := tag.n + c.n - |c.data|;
      assert (s + t)[h..] == s[h..] + t;
      EntryLocal(s[h..], t, |c.data|, pos + h, pos' + h, [], []);
    }
  }

  lemma GroupLocal()
    ensures Local(TargetgroupStep)
  {
    forall m: Targetgroup, s: bytes, t: bytes, pos: nat, pos': nat |
        TargetgroupStep(m, s, pos).Advance? && !Wraps(pos' + |s|)
      ensures TargetgroupStep(m, s + t, pos') == TargetgroupStep(m, s, pos)
    {
      GroupLocalAt(m, s, t, pos, pos');
    }
  }

  lemma {:induction false} MeshLocalAt(m: MeshEntry, s: bytes, t: bytes, pos: nat, pos': nat)
    requires MeshStep(m, s, pos).Advance? && !Wraps(pos' + |s|)
    ensures MeshStep(m, s + t, pos') == MeshStep(m, s, pos)
  {
    hide ReadTag, LenDelimited, UnknownField, Uvarint, DecodeTime, DecodeTargetgroup, Bits, ToInt32;
    FieldLocal(s, t, pos, pos');
    var tag := ReadTag(s);
    if tag.field == 2 {
      assert (s + t)[tag.n..] == s[tag.n..] + t;
      if Uvarint(s[tag.n..]).Got? {
        VarintLocal(s[tag.n..], t);
        WordOfVarint(s[tag.n..]);
        WordOfVarint(s[tag.n..] + t);
      }
    }
  }

  lemma MeshLocal()
    ensures Local(MeshStep)
  {
    forall m: MeshEntry, s: bytes, t: bytes, pos: nat, pos': nat |
        MeshStep(m, s, pos).Advance? && !Wraps(pos' + |s|)
      ensures MeshStep(m, s + t, pos') == MeshStep(m, s, pos)
    {
      MeshLocalAt(m, s, t, pos, pos');
    }
  }

  // ---- Last One Wins ----

  lemma {:induction false} GroupLastOneWins(m: Targetgroup, a: bytes, b: bytes)
    requires |a + b| < TWO_63 && DecodeTargetgroup(m, a).err.None?
    ensures var d := DecodeTargetgroup(m, a + b);
            var e := DecodeTargetgroup(DecodeTargetgroup(m, a).m, b);
            (d.err.None? <==> e.err.None?) && (d.err.None? ==> d == e)
  {
    GroupLocal();
    DecodeAppend(TargetgroupStep, m, a, b, 0);
    ShiftEither(TargetgroupStep, DecodeTargetgroup(m, a).m, b, 0, |a|);
  }

  lemma {:induction false} MeshLastOneWins(m: MeshEntry, a: bytes, b: bytes)
    requires |a + b| < TWO_63 && DecodeMesh(m, a).err.None?
    ensures var d := DecodeMesh(m, a + b);
            var e := DecodeMesh(DecodeMesh(m, a).m, b);
            (d.err.None? <==> e.err.None?) && (d.err.None? ==> d == e)
  {
    MeshLocal();
    DecodeAppend(MeshStep, m, a, b, 0);
    ShiftEither(MeshStep, DecodeMesh(m, a).m, b, 0, |a|);
  }
}
