/** When decoding panics: never for Part and FullState, and for the other messages exactly where a length inside a
    map entry wraps unnoticed. */
module Panics {
  import opened Base
  import opened Varint
  import opened Skip
  import opened Message
  import opened ClusterPb
  import opened TargetPb
  import opened Framing

  // ---- Part and FullState ----

  lemma {:induction false} PartNeverPanics(m: Part, s: bytes)
    ensures DecodePart(m, s).err != Some(IndexOutOfRange)
  {
    hide ReadTag, LenDelimited, UnknownField;
    DecodeReturns(PartStep, m, s, 0);
  }

  lemma {:induction false} FullStateNeverPanics(m: FullState, s: bytes)
    ensures DecodeFullState(m, s).err != Some(IndexOutOfRange)
  {
    hide ReadTag, LenDelimited, UnknownField, DecodePart;
    forall m: FullState, s: bytes, pos: nat | FullStateStep(m, s, pos).Fail?
      ensures !FullStateStep(m, s, pos).err.IndexOutOfRange?
    {
      var t := ReadTag(s);
      if t.Tag? && LenDelimited(s[t.n..], pos + t.n).Chunk? {
        PartNeverPanics(NO_PART, LenDelimited(s[t.n..], pos + t.n).data);
      }
    }
    DecodeReturns(FullStateStep, m, s, 0);
  }

  // ---- the loop over a map entry ----

  /** The guard that is missing: a field that is neither key nor value, whose end is beyond the reach of an int. */
  predicate Unguarded(s: bytes, pos: nat) {
    && Uvarint(s).Got? && ToInt32(Uvarint(s).value / 8) !in {1, 2}
    && SkipField(s).Count? && Wraps(pos + SkipField(s).n)
  }

  /** The first `j` bytes are whole fields that the loop passes over, or takes as key or value. */
  predicate EntryPasses(s: bytes, left: int, pos: nat, j: nat)
    decreases |s|
  {
    j == 0
    || (left > 0 && var turn := EntryField(s, left, pos);
        !turn.Stuck? && !turn.Escaped? && turn.n <= j
        && EntryPasses(s[turn.n..], left - turn.n, pos + turn.n, j - turn.n))
  }

  ghost predicate EntryUnguarded(s: bytes, left: int, pos: nat) {
    exists j :: 0 <= j < left && j <= |s| && EntryPasses(s, left, pos, j) && Unguarded(s[j..], pos + j)
  }

  lemma {:induction false} EscapesExactly(s: bytes, left: int, pos: nat)
    ensures EntryField(s, left, pos).Escaped? <==> Unguarded(s, pos)
  {
    hide Uvarint, LenDelimited, SkipField;
  }

  /** A first field is at fault, or a later one. */
  lemma {:induction false} EntryRest(s: bytes, left: int, pos: nat)
    requires left > 0
    ensures var turn := EntryField(s, left, pos);
            EntryUnguarded(s, left, pos) <==>
              Unguarded(s, pos)
              || (!turn.Stuck? && !turn.Escaped? && EntryUnguarded(s[turn.n..], left - turn.n, pos + turn.n))
  {
    hide EntryField, Unguarded;
    assert s[0..] == s;
    assert EntryPasses(s, left, pos, 0);
    var turn := EntryField(s, left, pos);
    if j :| 0 < j < left && j <= |s| && EntryPasses(s, left, pos, j) && Unguarded(s[j..], pos + j) {
      assert s[turn.n..][j - turn.n..] == s[j..];
    }
    if !turn.Stuck? && !turn.Escaped? {
      var n := turn.n;
      if j :| 0 <= j < left - n && j <= |s| - n && EntryPasses(s[n..], left - n, pos + n, j)
            && Unguarded(s[n..][j..], pos + n + j) {
        assert s[n..][j..] == s[n + j..];
        assert EntryPasses(s, left, pos, n + j);
      }
    }
  }

  lemma {:induction false} EntryPanicsExactly(s: bytes, left: int, pos: nat, key: bytes, val: bytes)
    ensures ReadEntry(s, left, pos, key, val).EntryPanics? <==> EntryUnguarded(s, left, pos)
    decreases |s|
  {
    hide EntryField, Unguarded;
    if left > 0 {
      EscapesExactly(s, left, pos);
      EntryRest(s, left, pos);
      hide EntryUnguarded;
      var turn := EntryField(s, left, pos);
      if !turn.Stuck? && !turn.Escaped? {
        EntryPanicsExactly(s[turn.n..], left - turn.n, pos + turn.n, if turn.KeyRead? then turn.data else key,
                           if turn.ValueRead? then turn.data else val);
      }
    }
  }

  // ---- decode loops in general ----

  predicate Alike<M>(a: Step<M>, b: Step<M>) {
    match a
    case Advance(_, n) => b.Advance? && b.n == n
    case Fail(_, e) => b.Fail? && b.err == e
  }

  /** How a turn ends does not depend on the message so far. */
  ghost predicate Blind<M(!new)>(step: Stepper<M>) {
    forall m: M, m': M, s: bytes, pos: nat {:trigger step(m, s, pos), step(m', s, pos)} ::
      Alike(step(m, s, pos), step(m', s, pos))
  }

  /** The first `j` bytes are whole fields that the loop takes. */
  predicate Passes<M>(step: Stepper<M>, zero: M, s: bytes, pos: nat, j: nat)
    decreases |s|
  {
    j == 0
    || (s != [] && var turn := step(zero, s, pos);
        turn.Advance? && 1 <= turn.n <= j && turn.n <= |s| && Passes(step, zero, s[turn.n..], pos + turn.n, j - turn.n))
  }

  predicate Panics<M>(turn: Step<M>) {
    turn.Fail? && turn.err == IndexOutOfRange
  }

  ghost predicate Meets<M>(step: Stepper<M>, zero: M, s: bytes, pos: nat) {
    exists j :: 0 <= j < |s| && Passes(step, zero, s, pos, j) && Panics(step(zero, s[j..], pos + j))
  }

  lemma {:induction false} PassesRest<M>(step: Stepper<M>, zero: M, s: bytes, pos: nat, j: nat)
    requires s != []
    ensures Passes(step, zero, s, pos, 0)
    ensures var turn := step(zero, s, pos);
            j > 0 ==>
              (Passes(step, zero, s, pos, j) <==>
                turn.Advance? && 1 <= turn.n <= j && turn.n <= |s|
                && Passes(step, zero, s[turn.n..], pos + turn.n, j - turn.n))
  {
  }

  lemma {:induction false} MeetsLater<M(!new)>(step: Stepper<M>, zero: M, s: bytes, pos: nat)
    requires s != [] && step(zero, s, pos).Advance? && 1 <= step(zero, s, pos).n <= |s|
    ensures var n := step(zero, s, pos).n;
            Meets(step, zero, s[n..], pos + n) ==> Meets(step, zero, s, pos)
  {
    hide Passes, Panics;
    var n := step(zero, s, pos).n;
    if j :| 0 <= j < |s| - n && Passes(step, zero, s[n..], pos + n, j)
          && Panics(step(zero, s[n..][j..], pos + n + j)) {
      assert s[n..][j..] == s[n + j..];
      PassesRest(step, zero, s, pos, n + j);
    }
  }

  lemma {:induction false} MeetsRest<M(!new)>(step: Stepper<M>, zero: M, s: bytes, pos: nat)
    requires s != []
    ensures var turn := step(zero, s, pos);
            Meets(step, zero, s, pos) <==>
              Panics(turn) || (turn.Advance? && 1 <= turn.n <= |s| && Meets(step, zero, s[turn.n..], pos + turn.n))
  {
    hide Passes;
    var turn := step(zero, s, pos);
    assert s[0..] == s;
    PassesRest(step, zero, s, pos, 0);
    assert Panics(turn) ==> Panics(step(zero, s[0..], pos + 0));
    if turn.Advance? && 1 <= turn.n <= |s| { MeetsLater(step, zero, s, pos); }
    if j :| 0 < j < |s| && Passes(step, zero, s, pos, j) && Panics(step(zero, s[j..], pos + j)) {
      PassesRest(step, zero, s, pos, j);
      assert s[turn.n..][j - turn.n..] == s[j..];
      assert pos + turn.n + (j - turn.n) == pos + j;
    }
  }

  /** A loop panics exactly if some turn does that only fields it takes stand before. */
  lemma {:induction false} LoopPanicsExactly<M(!new)>(step: Stepper<M>, zero: M, m: M, s: bytes, pos: nat)
    requires Blind(step)
    ensures DecodeAll(step, m, s, pos).err == Some(IndexOutOfRange) <==> Meets(step, zero, s, pos)
    decreases |s|
  {
    if s != [] {
      MeetsRest(step, zero, s, pos);
      hide Meets;
      assert Alike(step(m, s, pos), step(zero, s, pos));
      var turn := step(m, s, pos);
      if turn.Advance? && 1 <= turn.n <= |s| {
        LoopPanicsExactly(step, zero, turn.m, s[turn.n..], pos + turn.n);
      }
    }
  }

  lemma {:induction false} BlindLoop<M(!new)>(step: Stepper<M>, m: M, m': M, s: bytes, pos: nat)
    requires Blind(step)
    ensures DecodeAll(step, m, s, pos).err == DecodeAll(step, m', s, pos).err
    decreases |s|
  {
    if s != [] {
      assert Alike(step(m, s, pos), step(m', s, pos));
      var turn := step(m, s, pos);
      if turn.Advance? && 1 <= turn.n <= |s| {
        BlindLoop(step, turn.m, step(m', s, pos).m, s[turn.n..], pos + turn.n);
      }
    }
  }

  // ---- Targetgroup and MeshEntry ----

  /** A map entry in which the guard is missing. */
  ghost predicate UnguardedEntry(s: bytes, pos: nat) {
    var tag := ReadTag(s);
    && tag.Tag? && tag.field == 2 && tag.wireType == 2
    && var c := LenDelimited(s[tag.n..], pos + tag.n);
    && c.Chunk?
    && var h := tag.n + c.n - |c.data|;
       EntryUnguarded(s[h..], |c.data|, pos + h)
  }

  ghost predicate GroupUnguarded(s: bytes) {
    exists j :: 0 <= j < |s| && Passes(TargetgroupStep, NO_GROUP, s, 0, j) && UnguardedEntry(s[j..], j)
  }

  lemma {:induction false} GroupBlind()
    ensures Blind(TargetgroupStep)
  {
    hide ReadTag, LenDelimited, UnknownField, ReadEntry;
  }

  lemma {:induction false} GroupTurn(s: bytes, pos: nat)
    ensures Panics(TargetgroupStep(NO_GROUP, s, pos)) <==> UnguardedEntry(s, pos)
  {
    hide ReadTag, LenDelimited, UnknownField, ReadEntry, EntryUnguarded;
    var tag := ReadTag(s);
    if tag.Tag? && tag.field == 2 && LenDelimited(s[tag.n..], pos + tag.n).Chunk? {
      var c := LenDelimited(s[tag.n..], pos + tag.n);
      var h := tag.n + c.n - |c.data|;
      EntryPanicsExactly(s[h..], |c.data|, pos + h, [], []);
    }
  }

  /** Decoding a group, on top of whatever, panics exactly if behind fields that are taken stands a map entry
      without the guard it needs. */
  lemma {:induction false} GroupPanicsExactly(m: Targetgroup, s: bytes)
    ensures DecodeTargetgroup(m, s).err == Some(IndexOutOfRange) <==> GroupUnguarded(s)
  {
    hide TargetgroupStep, UnguardedEntry, Passes, Panics;
    GroupBlind();
    LoopPanicsExactly(TargetgroupStep, NO_GROUP, m, s, 0);
    forall j | 0 <= j < |s|
      ensures Panics(TargetgroupStep(NO_GROUP, s[j..], 0 + j)) <==> UnguardedEntry(s[j..], j)
    {
      GroupTurn(s[j..], j);
    }
  }

  ghost predicate UnguardedGroup(s: bytes, pos: nat) {
    var tag := ReadTag(s);
    && tag.Tag? && tag.field == 4 && tag.wireType == 2
    && var c := LenDelimited(s[tag.n..], pos + tag.n);
       c.Chunk? && GroupUnguarded(c.data)
  }

  ghost predicate MeshUnguarded(s: bytes) {
    exists j :: 0 <= j < |s| && Passes(MeshStep, NO_ENTRY, s, 0, j) && UnguardedGroup(s[j..], j)
  }

  lemma {:induction false} MeshBlindAt(m: MeshEntry, m': MeshEntry, s: bytes, pos: nat)
    ensures Alike(MeshStep(m, s, pos), MeshStep(m', s, pos))
  {
    hide ReadTag, LenDelimited, UnknownField, Uvarint, DecodeTime, DecodeAll, TargetgroupStep, Blind;
    var tag := ReadTag(s);
    if tag.Tag? && LenDelimited(s[tag.n..], pos + tag.n).Chunk? {
      var c := LenDelimited(s[tag.n..], pos + tag.n);
      GroupBlind();
      BlindLoop(TargetgroupStep, if m.targetgroup.Some? then m.targetgroup.value else NO_GROUP,
                if m'.targetgroup.Some? then m'.targetgroup.value else NO_GROUP, c.data, 0);
    }
  }

  lemma {:induction false} MeshBlind()
    ensures Blind(MeshStep)
  {
    hide MeshStep, Alike;
    forall m: MeshEntry, m': MeshEntry, s: bytes, pos: nat
      ensures Alike(MeshStep(m, s, pos), MeshStep(m', s, pos))
    {
      MeshBlindAt(m, m', s, pos);
    }
  }

  lemma {:induction false} MeshTurn(s: bytes, pos: nat)
    ensures Panics(MeshStep(NO_ENTRY, s, pos)) <==> UnguardedGroup(s, pos)
  {
    hide ReadTag, LenDelimited, UnknownField, Uvarint, DecodeTime, DecodeTargetgroup, GroupUnguarded;
    var tag := ReadTag(s);
    if tag.Tag? && tag.field == 4 && LenDelimited(s[tag.n..], pos + tag.n).Chunk? {
      GroupPanicsExactly(NO_GROUP, LenDelimited(s[tag.n..], pos + tag.n).data);
    }
  }

  /** The same of an entry, which panics where its group does. */
  lemma {:induction false} MeshPanicsExactly(m: MeshEntry, s: bytes)
    ensures DecodeMesh(m, s).err == Some(IndexOutOfRange) <==> MeshUnguarded(s)
  {
    hide MeshStep, UnguardedGroup, Passes, Panics;
    MeshBlind();
    LoopPanicsExactly(MeshStep, NO_ENTRY, m, s, 0);
    forall j | 0 <= j < |s|
      ensures Panics(MeshStep(NO_ENTRY, s[j..], 0 + j)) <==> UnguardedGroup(s[j..], j)
    {
      MeshTurn(s[j..], j);
    }
  }

  // ---- streams ----

  /** The first `j` bytes are frames of entries that decode. */
  predicate FramesPass(s: bytes, j: nat)
    decreases |s|
  {
    j == 0 || (var f := ReadFrame(s); f.Framed? && f.n <= j && FramesPass(s[f.n..], j - f.n))
  }

  ghost predicate UnguardedFrame(s: bytes) {
    && Uvarint(s).Got?
    && var r := Uvarint(s);
       r.n <= LENGTH_BYTES && r.n + r.value <= |s| && MeshUnguarded(s[r.n..r.n + r.value])
  }

  ghost predicate StreamUnguarded(s: bytes) {
    exists j :: 0 <= j < |s| && FramesPass(s, j) && UnguardedFrame(s[j..])
  }

  lemma {:induction false} FrameTurn(s: bytes)
    requires s != []
    ensures ReadFrame(s).Crashes? <==> UnguardedFrame(s)
  {
    hide Uvarint, DecodeMesh, MeshUnguarded;
    if Uvarint(s).Got? && Uvarint(s).n + Uvarint(s).value <= |s| {
      var r := Uvarint(s);
      MeshPanicsExactly(NO_ENTRY, s[r.n..r.n + r.value]);
    }
  }

  lemma {:induction false} StreamRest(s: bytes)
    requires s != []
    ensures var f := ReadFrame(s);
            StreamUnguarded(s) <==> UnguardedFrame(s) || (f.Framed? && StreamUnguarded(s[f.n..]))
  {
    hide ReadFrame, UnguardedFrame;
    assert s[0..] == s;
    assert FramesPass(s, 0);
    var f := ReadFrame(s);
    if j :| 0 < j < |s| && FramesPass(s, j) && UnguardedFrame(s[j..]) {
      assert s[f.n..][j - f.n..] == s[j..];
    }
    if f.Framed? {
      if j :| 0 <= j < |s| - f.n && FramesPass(s[f.n..], j) && UnguardedFrame(s[f.n..][j..]) {
        assert s[f.n..][j..] == s[f.n + j..];
        assert FramesPass(s, f.n + j);
      }
    }
  }

  /** And of a stream: merging it panics exactly if behind entries that decode stands such an entry. */
  lemma {:induction false} StreamPanicsExactly(s: bytes)
    ensures Parse(s).ending.Crashed? <==> StreamUnguarded(s)
    decreases |s|
  {
    hide ReadFrame, UnguardedFrame;
    EmptyStream(s);
    if s != [] {
      FrameTurn(s);
      StreamRest(s);
      hide StreamUnguarded;
      if ReadFrame(s).Framed? {
        StreamPanicsExactly(s[ReadFrame(s).n..]);
      }
    }
  }

  // ---- such bytes exist ----

  const ENDLESS: bytes := [0x1a, 0xf5, 0xff, 0xff, 0xff, 0xff, 0xff, 0xff, 0xff, 0x7f]

  lemma {:induction false} NextByte(v: nat)
    ensures v < 128 ==> VarintBytes(v) == [v]
    ensures v >= 128 ==> VarintBytes(v) == [v % 128 + 128] + VarintBytes(v / 128)
  {
  }

  lemma EndlessLength()
    ensures VarintBytes(TWO_63 - 11) == ENDLESS[1..]
  {
    hide VarintBytes;
    NextByte(TWO_63 - 11);
    NextByte(0xff_ffff_ffff_ffff);
    NextByte(0x1_ffff_ffff_ffff);
    NextByte(0x3ff_ffff_ffff);
    NextByte(0x7_ffff_ffff);
    NextByte(0xfff_ffff);
    NextByte(0x1f_ffff);
    NextByte(0x3fff);
    NextByte(0x7f);
  }

  lemma {:induction false} EndlessReads()
    ensures Uvarint(ENDLESS) == Got(0x1a, 1) && Uvarint(ENDLESS[1..]) == Got(TWO_63 - 11, 9)
  {
    hide VarintBytes, Uvarint;
    var len := ENDLESS[1..];
    EndlessLength();
    VarintRoundTrip(TWO_63 - 11, []);
    assert len + [] == len;
    NextByte(0x1a);
    VarintRoundTrip(0x1a, len);
    assert [0x1a] + len == ENDLESS;
  }

  lemma {:induction false} EndlessSkips()
    ensures SkipField(ENDLESS) == Count(TWO_63 - 1)
  {
    hide Uvarint, RawVarint;
    EndlessReads();
    assert NextElement(ENDLESS) == Elem(Plain, TWO_63 - 1);
    hide NextElement;
    assert ENDLESS != [];
  }

  lemma {:induction false} EndlessEscapes()
    ensures ReadEntry(ENDLESS, 10, 2, [], []).EntryPanics?
  {
    hide Uvarint, SkipField, LenDelimited;
    EndlessReads();
    EndlessSkips();
    assert EntryField(ENDLESS, 10, 2).Escaped?;
  }

  lemma {:induction false} EndlessGroup()
    ensures DecodeTargetgroup(NO_GROUP, [0x12, 0x0a] + ENDLESS).err == Some(IndexOutOfRange)
  {
    hide ReadTag, LenDelimited, ReadEntry, VarintBytes, UnknownField;
    var s := LenBytes(0x12, ENDLESS);
    NextByte(10);
    LenReads(0x12, ENDLESS, [], 0);
    assert s + [] == s == [0x12, 0x0a] + ENDLESS && s[2..] == ENDLESS;
    EndlessEscapes();
    hide LenBytes;
    assert TargetgroupStep(NO_GROUP, s, 0) == Fail(NO_GROUP, IndexOutOfRange);
    hide TargetgroupStep;
  }

  lemma {:induction false} EndlessEntry()
    ensures DecodeMesh(NO_ENTRY, [0x22, 0x0c] + ([0x12, 0x0a] + ENDLESS)).err == Some(IndexOutOfRange)
  {
    hide ReadTag, LenDelimited, DecodeTargetgroup, VarintBytes, UnknownField, DecodeTime, Uvarint;
    var group := [0x12, 0x0a] + ENDLESS;
    var s := LenBytes(0x22, group);
    NextByte(12);
    LenReads(0x22, group, [], 0);
    assert s + [] == s == [0x22, 0x0c] + group;
    EndlessGroup();
    hide LenBytes;
    assert Panics(MeshStep(NO_ENTRY, s, 0));
    hide MeshStep;
  }

  /** Fifteen bytes on which a merge panics: a skip count of 2 to the 63, less one, met at index 2. */
  lemma {:induction false} SomeStreamPanics()
    ensures Parse([0x0e, 0x22, 0x0c, 0x12, 0x0a, 0x1a, 0xf5, 0xff, 0xff, 0xff, 0xff, 0xff, 0xff, 0xff, 0x7f])
         == Stream([], Crashed)
  {
    hide Uvarint, DecodeMesh, VarintBytes;
    var message := [0x22, 0x0c] + ([0x12, 0x0a] + ENDLESS);
    var s := [0x0e] + message;
    assert s == [0x0e, 0x22, 0x0c, 0x12, 0x0a, 0x1a, 0xf5, 0xff, 0xff, 0xff, 0xff, 0xff, 0xff, 0xff, 0x7f];
    NextByte(14);
    VarintRoundTrip(14, message);
    EndlessEntry();
    assert s[1..15] == message;
    assert ReadFrame(s) == Crashes;
    hide ReadFrame;
  }
}
