/** Which bytes the decoders accept, and what they make of them, told over the fields of the wire grammar. */
module Acceptance {
  import opened Base
  import opened Varint
  import opened Skip
  import opened Message
  import opened ClusterPb
  import opened TargetPb
  import opened TargetMerge
  import opened Panics

  // ---- a decoder and the meaning of a field ----

  /** A field as a message may hold it: its number is positive. */
  predicate Sound(f: Field) {
    WellFormed(f) && FieldNumber(f) >= 1
  }

  predicate AllSound(fs: seq<Field>) {
    forall i :: 0 <= i < |fs| ==> Sound(fs[i])
  }

  /** What a field does to a message, or None if it may not stand there. */
  type Meaning<!M> = (M, Field) -> Option<M>

  /** What fields do, in turn. */
  function Fold<M>(sem: Meaning<M>, m: M, fs: seq<Field>): Option<M>
    decreases |fs|
  {
    if fs == [] then Some(m)
    else
      match sem(m, fs[0])
      case None => None
      case Some(m') => Fold(sem, m', fs[1..])
  }

  /** Each turn of the loop takes a sound field, and does with it what the field means. */
  ghost predicate Follows<M(!new)>(step: Stepper<M>, sem: Meaning<M>) {
    && (forall m: M, f: Field, t: bytes, pos: nat {:trigger step(m, Raw(f) + t, pos)} ::
          Sound(f) && !Wraps(pos + |Raw(f)|) ==> Means(step(m, Raw(f) + t, pos), sem(m, f), |Raw(f)|))
    && (forall m: M, s: bytes, pos: nat {:trigger step(m, s, pos)} ::
          step(m, s, pos).Advance? ==> HeadsField(s, step(m, s, pos).n))
  }

  predicate Means<M(==)>(turn: Step<M>, meaning: Option<M>, n: nat) {
    match meaning
    case Some(m) => turn == Advance(m, n)
    case None => turn.Fail?
  }

  ghost predicate HeadsField(s: bytes, n: nat) {
    n <= |s| && exists f :: Sound(f) && Raw(f) == s[..n]
  }

  lemma RawNonempty(f: Field)
    requires WellFormed(f)
    ensures |Raw(f)| >= 1
  {
    hide RawVarint, RawAll;
  }

  /** Whole fields are accepted exactly if each may stand where it stands, and then mean what they mean. */
  lemma {:induction false} FieldsDecode<M(!new)>(step: Stepper<M>, sem: Meaning<M>, m: M, fs: seq<Field>, pos: nat)
    requires Follows(step, sem) && AllSound(fs) && !Wraps(pos + |RawAll(fs)|)
    ensures match Fold(sem, m, fs)
            case Some(m') => DecodeAll(step, m, RawAll(fs), pos) == Decoded(m', None)
            case None => DecodeAll(step, m, RawAll(fs), pos).err.Some?
    decreases |fs|
  {
    hide Raw, Sound;
    if fs != [] {
      var first, rest := Raw(fs[0]), RawAll(fs[1..]);
      assert Sound(fs[0]);
      SoundNonempty(fs[0]);
      assert Means(step(m, first + rest, pos), sem(m, fs[0]), |first|);
      if sem(m, fs[0]).Some? {
        DecodeFirst(step, m, first, rest, pos);
        FieldsDecode(step, sem, sem(m, fs[0]).value, fs[1..], pos + |first|);
      }
    }
  }

  lemma SoundNonempty(f: Field)
    requires Sound(f)
    ensures Raw(f) != []
  {
    if Raw(f) == [] {
      RawNonempty(f);
    }
  }

  /** What is accepted is whole fields. */
  lemma {:induction false} AcceptedFields<M(!new)>(step: Stepper<M>, sem: Meaning<M>, m: M, s: bytes, pos: nat)
      returns (fs: seq<Field>)
    requires Follows(step, sem) && DecodeAll(step, m, s, pos).err.None? && !Wraps(pos + |s|)
    ensures AllSound(fs) && RawAll(fs) == s
    decreases |s|
  {
    hide Raw, Sound;
    fs := [];
    if s != [] {
      var Advance(m', n) := step(m, s, pos);
      assert HeadsField(s, n);
      var f :| Sound(f) && Raw(f) == s[..n];
      var rest := AcceptedFields(step, sem, m', s[n..], pos + n);
      fs := [f] + rest;
      assert s == s[..n] + s[n..];
    }
  }

  /** So bytes are accepted exactly if they are whole fields each of which may stand where it stands. */
  lemma {:induction false} AcceptsExactly<M(!new)>(step: Stepper<M>, sem: Meaning<M>, m: M, s: bytes)
    requires Follows(step, sem) && |s| < TWO_63
    ensures DecodeAll(step, m, s, 0).err.None?
       <==> exists fs :: AllSound(fs) && RawAll(fs) == s && Fold(sem, m, fs).Some?
  {
    hide Raw, Follows, AllSound;
    if DecodeAll(step, m, s, 0).err.None? {
      var fs := AcceptedFields(step, sem, m, s, 0);
      FieldsDecode(step, sem, m, fs, 0);
    }
    forall fs | AllSound(fs) && RawAll(fs) == s && Fold(sem, m, fs).Some?
      ensures DecodeAll(step, m, s, 0).err.None?
    {
      FieldsDecode(step, sem, m, fs, 0);
    }
  }

  // ---- fields as the decoders read them ----

  function WireType(f: Field): nat {
    match f
    case VarintField(_, _) => 0
    case Fixed64(_, _) => 1
    case LenField(_, _, _) => 2
    case Group(_, _, _) => 3
    case Fixed32(_, _) => 5
  }

  lemma {:induction false} SoundTag(f: Field, t: bytes)
    requires Sound(f)
    ensures ReadTag(Raw(f) + t) == Tag(FieldNumber(f), WireType(f), |f.tag|)
    ensures |f.tag| <= |Raw(f)| && (Raw(f) + t)[|f.tag|..] == Raw(f)[|f.tag|..] + t
  {
    hide Uvarint;
    FirstTag(f, t);
    assert Raw(f) == f.tag + Raw(f)[|f.tag|..];
  }

  lemma {:induction false} LenFieldReads(f: Field, t: bytes, pos: nat)
    requires Sound(f) && f.LenField? && !Wraps(pos + |Raw(f)|)
    ensures LenDelimited((Raw(f) + t)[|f.tag|..], pos + |f.tag|) == Chunk(f.val, |Raw(f)| - |f.tag|)
  {
    hide ReadTag, RawVarint, IsTag;
    SoundTag(f, t);
    var rest := f.len + (f.val + t);
    assert (Raw(f) + t)[|f.tag|..] == rest;
    VarintLocal(f.len, f.val + t);
    assert rest[|f.len|..|f.len| + |f.val|] == f.val;
  }

  lemma {:induction false} VarintFieldReads(f: Field, t: bytes)
    requires Sound(f) && f.VarintField?
    ensures Uvarint((Raw(f) + t)[|f.tag|..]) == Uvarint(f.val) && Uvarint(f.val).Got?
    ensures Uvarint(f.val).n == |f.val| == |Raw(f)| - |f.tag|
  {
    hide ReadTag, IsTag;
    SoundTag(f, t);
    assert (Raw(f) + t)[|f.tag|..] == f.val + t;
    VarintLocal(f.val, t);
  }

  lemma {:induction false} TagIsTag(s: bytes)
    requires ReadTag(s).Tag?
    ensures IsTag(s[..ReadTag(s).n], ReadTag(s).wireType)
    ensures ToInt32(Uvarint(s[..ReadTag(s).n]).value / 8) == ReadTag(s).field
  {
    hide RawVarint;
    VarintLocal(s, []);
  }

  /** A record ahead is a field. */
  lemma {:induction false} LenHeads(s: bytes, pos: nat)
    requires ReadTag(s).Tag? && ReadTag(s).wireType == 2 && LenDelimited(s[ReadTag(s).n..], pos + ReadTag(s).n).Chunk?
    ensures HeadsField(s, ReadTag(s).n + LenDelimited(s[ReadTag(s).n..], pos + ReadTag(s).n).n)
  {
    hide RawVarint;
    var t := ReadTag(s).n;
    var rest := s[t..];
    var c, k := LenDelimited(rest, pos + t), Uvarint(rest).n;
    TagIsTag(s);
    VarintLocal(rest, []);
    var f := LenField(s[..t], rest[..k], c.data);
    assert Sound(f) by { hide IsTag; assert ToInt32(Uvarint(f.tag).value / 8) >= 1; }
    assert s[..t] + rest[..k] + rest[k..c.n] == s[..t + c.n];
  }

  lemma {:induction false} VarintHeads(s: bytes)
    requires ReadTag(s).Tag? && ReadTag(s).wireType == 0 && Uvarint(s[ReadTag(s).n..]).Got?
    ensures HeadsField(s, ReadTag(s).n + Uvarint(s[ReadTag(s).n..]).n)
  {
    var t := ReadTag(s).n;
    var rest := s[t..];
    var k := Uvarint(rest).n;
    TagIsTag(s);
    RawPrefix(rest, 0);
    hide RawVarint;
    var f := VarintField(s[..t], rest[..k]);
    assert Sound(f) by { hide IsTag; assert ToInt32(Uvarint(f.tag).value / 8) >= 1; }
    assert s[..t] + rest[..k] == s[..t + k];
  }

  lemma {:induction false} UnknownHeads(s: bytes, pos: nat)
    requires ReadTag(s).Tag? && UnknownField(s, pos).Chunk?
    ensures HeadsField(s, UnknownField(s, pos).n)
  {
    hide ReadTag, Raw, WellFormed;
    var f := UnknownIsForeign(s, pos, 0);
    assert Sound(f) && Raw(f) == UnknownField(s, pos).data;
  }

  // ---- Part ----

  function PartMeaning(m: Part, f: Field): Option<Part> {
    if !Sound(f) then None
    else if FieldNumber(f) > 2 then Some(m.(unrecognized := m.unrecognized + Raw(f)))
    else if !f.LenField? then None
    else Some(if FieldNumber(f) == 1 then m.(key := f.val) else m.(data := Some(f.val)))
  }

  lemma {:induction false} PartMeans(m: Part, f: Field, t: bytes, pos: nat)
    requires Sound(f) && !Wraps(pos + |Raw(f)|)
    ensures Means(PartStep(m, Raw(f) + t, pos), PartMeaning(m, f), |Raw(f)|)
  {
    hide ReadTag, LenDelimited, UnknownField, Raw, WellFormed, FieldNumber;
    SoundTag(f, t);
    if FieldNumber(f) > 2 {
      ForeignReads(f, 2, t, pos);
    } else if f.LenField? {
      LenFieldReads(f, t, pos);
    }
  }

  lemma {:induction false} PartHeads(m: Part, s: bytes, pos: nat)
    requires PartStep(m, s, pos).Advance?
    ensures HeadsField(s, PartStep(m, s, pos).n)
  {
    hide ReadTag, LenDelimited, UnknownField, HeadsField;
    if ReadTag(s).field > 2 {
      UnknownHeads(s, pos);
    } else {
      LenHeads(s, pos);
    }
  }

  lemma {:induction false} PartFollows()
    ensures Follows(PartStep, PartMeaning)
  {
    hide PartStep, PartMeaning, Raw, HeadsField, Sound;
    forall m: Part, f: Field, t: bytes, pos: nat | Sound(f) && !Wraps(pos + |Raw(f)|)
      ensures Means(PartStep(m, Raw(f) + t, pos), PartMeaning(m, f), |Raw(f)|)
    {
      PartMeans(m, f, t, pos);
    }
    forall m: Part, s: bytes, pos: nat | PartStep(m, s, pos).Advance?
      ensures HeadsField(s, PartStep(m, s, pos).n)
    {
      PartHeads(m, s, pos);
    }
  }

  /** Fields of a part: numbers 1 and 2 stand for records only. */
  predicate PartFields(fs: seq<Field>) {
    forall i :: 0 <= i < |fs| ==> Sound(fs[i]) && (FieldNumber(fs[i]) <= 2 ==> fs[i].LenField?)
  }

  lemma {:induction false} PartFolds(m: Part, fs: seq<Field>)
    ensures AllSound(fs) && Fold(PartMeaning, m, fs).Some? <==> PartFields(fs)
    decreases |fs|
  {
    hide Raw, Sound, FieldNumber, WellFormed;
    if fs != [] {
      assert forall i :: 0 < i < |fs| ==> fs[i] == fs[1..][i - 1];
      if PartMeaning(m, fs[0]).Some? {
        PartFolds(PartMeaning(m, fs[0]).value, fs[1..]);
      }
    }
  }

  /** A part decodes exactly from whole fields, of which those numbered 1 and 2 are records. */
  lemma {:induction false} PartAccepts(m: Part, s: bytes)
    requires |s| < TWO_63
    ensures DecodePart(m, s).err.None? <==> exists fs :: PartFields(fs) && RawAll(fs) == s
  {
    hide PartFields, AllSound, Fold, Follows, DecodeAll;
    PartFollows();
    AcceptsExactly(PartStep, PartMeaning, m, s);
    forall fs ensures AllSound(fs) && Fold(PartMeaning, m, fs).Some? <==> PartFields(fs) {
      PartFolds(m, fs);
    }
  }

  /** The fields of number `n`, in turn. */
  function OfNumber(fs: seq<Field>, n: int): seq<Field>
    decreases |fs|
  {
    if fs == [] then []
    else (if WellFormed(fs[0]) && FieldNumber(fs[0]) == n then [fs[0]] else []) + OfNumber(fs[1..], n)
  }

  /** And those of the numbers above it. */
  function Above(fs: seq<Field>, n: int): seq<Field>
    decreases |fs|
  {
    if fs == [] then []
    else (if WellFormed(fs[0]) && FieldNumber(fs[0]) > n then [fs[0]] else []) + Above(fs[1..], n)
  }

  /** The fields of a number: the first, if it is of that number, and those behind it. */
  lemma {:induction false} FirstOfNumber(fs: seq<Field>, n: int)
    requires fs != [] && WellFormed(fs[0])
    ensures FieldNumber(fs[0]) != n ==> OfNumber(fs, n) == OfNumber(fs[1..], n)
    ensures FieldNumber(fs[0]) == n ==> OfNumber(fs, n) == [fs[0]] + OfNumber(fs[1..], n)
  {
  }

  lemma {:induction false} FirstAbove(fs: seq<Field>, n: int)
    requires fs != [] && WellFormed(fs[0])
    ensures FieldNumber(fs[0]) <= n ==> Above(fs, n) == Above(fs[1..], n)
    ensures FieldNumber(fs[0]) > n ==> Above(fs, n) == [fs[0]] + Above(fs[1..], n)
  {
  }

  lemma RawFirst(f: Field, rest: seq<Field>)
    ensures RawAll([f] + rest) == Raw(f) + RawAll(rest)
  {
    assert ([f] + rest)[1..] == rest;
  }

  /** The value of the last record, if there is one. */
  function LastVal(fs: seq<Field>): Option<bytes> {
    if fs == [] || !fs[|fs| - 1].LenField? then None else Some(fs[|fs| - 1].val)
  }

  lemma LastBehind(f: Field, rest: seq<Field>)
    ensures rest != [] ==> LastVal([f] + rest) == LastVal(rest)
    ensures rest == [] && f.LenField? ==> LastVal([f] + rest) == Some(f.val)
  {
  }

  lemma {:induction false} RecordsOnly(fs: seq<Field>, n: int)
    requires PartFields(fs) && n <= 2
    ensures OfNumber(fs, n) != [] ==> LastVal(OfNumber(fs, n)).Some?
    decreases |fs|
  {
    if fs != [] {
      RecordsOnly(fs[1..], n);
      LastBehind(fs[0], OfNumber(fs[1..], n));
      assert [] + OfNumber(fs[1..], n) == OfNumber(fs[1..], n);
    }
  }

  function OrElse(v: Option<bytes>, other: bytes): bytes {
    if v.Some? then v.value else other
  }

  /** What it then holds: the last key, the last data, and all other fields, one behind the other, as they were. */
  lemma {:induction false} PartHolds(m: Part, fs: seq<Field>)
    requires PartFields(fs) && |RawAll(fs)| < TWO_63
    ensures var keys, datas := LastVal(OfNumber(fs, 1)), LastVal(OfNumber(fs, 2));
            DecodePart(m, RawAll(fs)) ==
            Decoded(Part(OrElse(keys, m.key), if datas.Some? then datas else m.data,
                         m.unrecognized + RawAll(Above(fs, 2))), None)
  {
    hide DecodeAll, Follows, PartStep, PartFields, LastVal, OfNumber, Above, RawAll;
    PartFollows();
    PartFolds(m, fs);
    FieldsDecode(PartStep, PartMeaning, m, fs, 0);
    PartFoldIs(m, fs);
  }

  lemma {:induction false} PartFoldIs(m: Part, fs: seq<Field>)
    requires PartFields(fs)
    ensures var keys, datas := LastVal(OfNumber(fs, 1)), LastVal(OfNumber(fs, 2));
            Fold(PartMeaning, m, fs) ==
            Some(Part(OrElse(keys, m.key), if datas.Some? then datas else m.data,
                      m.unrecognized + RawAll(Above(fs, 2))))
    decreases |fs|
  {
    hide Raw, FieldNumber, LastVal;
    if fs == [] {
      assert m.unrecognized + [] == m.unrecognized;
      NoLast();
    } else {
      hide OfNumber, Above, RawAll;
      var f, rest := fs[0], fs[1..];
      assert Sound(f);
      hide WellFormed;
      PartFoldIs(PartMeaning(m, f).value, rest);
      NoLast();
      RecordsOnly(rest, 1);
      RecordsOnly(rest, 2);
      FirstOfNumber(fs, 1);
      FirstOfNumber(fs, 2);
      FirstAbove(fs, 2);
      LastBehind(f, OfNumber(rest, 1));
      LastBehind(f, OfNumber(rest, 2));
      RawFirst(f, Above(rest, 2));
      assert m.unrecognized + Raw(f) + RawAll(Above(rest, 2)) == m.unrecognized + (Raw(f) + RawAll(Above(rest, 2)));
    }
  }

  lemma NoLast()
    ensures LastVal([]) == None
  {
  }

  // ---- FullState ----

  function FullStateMeaning(m: FullState, f: Field): Option<FullState> {
    if !Sound(f) then None
    else if FieldNumber(f) > 1 then Some(m.(unrecognized := m.unrecognized + Raw(f)))
    else if !f.LenField? || DecodePart(NO_PART, f.val).err.Some? then None
    else Some(m.(parts := m.parts + [DecodePart(NO_PART, f.val).m]))
  }

  lemma {:induction false} FullStateMeans(m: FullState, f: Field, t: bytes, pos: nat)
    requires Sound(f) && !Wraps(pos + |Raw(f)|)
    ensures Means(FullStateStep(m, Raw(f) + t, pos), FullStateMeaning(m, f), |Raw(f)|)
  {
    hide ReadTag, LenDelimited, UnknownField, Raw, WellFormed, FieldNumber, DecodePart;
    SoundTag(f, t);
    if FieldNumber(f) > 1 {
      ForeignReads(f, 1, t, pos);
    } else if f.LenField? {
      LenFieldReads(f, t, pos);
    }
  }

  lemma {:induction false} FullStateHeads(m: FullState, s: bytes, pos: nat)
    requires FullStateStep(m, s, pos).Advance?
    ensures HeadsField(s, FullStateStep(m, s, pos).n)
  {
    hide ReadTag, LenDelimited, UnknownField, HeadsField, DecodePart;
    if ReadTag(s).field > 1 {
      UnknownHeads(s, pos);
    } else {
      LenHeads(s, pos);
    }
  }

  lemma {:induction false} FullStateFollows()
    ensures Follows(FullStateStep, FullStateMeaning)
  {
    hide FullStateStep, FullStateMeaning, Raw, HeadsField, Sound;
    forall m: FullState, f: Field, t: bytes, pos: nat | Sound(f) && !Wraps(pos + |Raw(f)|)
      ensures Means(FullStateStep(m, Raw(f) + t, pos), FullStateMeaning(m, f), |Raw(f)|)
    {
      FullStateMeans(m, f, t, pos);
    }
    forall m: FullState, s: bytes, pos: nat | FullStateStep(m, s, pos).Advance?
      ensures HeadsField(s, FullStateStep(m, s, pos).n)
    {
      FullStateHeads(m, s, pos);
    }
  }

  /** Whole fields of a part. */
  ghost predicate PartAhead(val: bytes) {
    exists ps :: PartFields(ps) && RawAll(ps) == val
  }

  /** Fields of a state: number 1 stands for records only, each of which holds the fields of a part. */
  ghost predicate FullStateFields(fs: seq<Field>) {
    forall i :: 0 <= i < |fs| ==>
      Sound(fs[i]) && (FieldNumber(fs[i]) <= 1 ==> fs[i].LenField? && PartAhead(fs[i].val))
  }

  lemma {:induction false} ValShorter(f: Field)
    requires Sound(f) && f.LenField?
    ensures |f.val| < TWO_63
  {
    hide RawVarint;
  }

  lemma {:induction false} FullStateFolds(m: FullState, fs: seq<Field>)
    ensures AllSound(fs) && Fold(FullStateMeaning, m, fs).Some? <==> FullStateFields(fs)
    decreases |fs|
  {
    hide Raw, Sound, FieldNumber, WellFormed, PartAhead, DecodePart;
    if fs != [] {
      assert forall i :: 0 < i < |fs| ==> fs[i] == fs[1..][i - 1];
      if Sound(fs[0]) && fs[0].LenField? {
        ValShorter(fs[0]);
        PartAccepts(NO_PART, fs[0].val);
        assert PartAhead(fs[0].val) <==> DecodePart(NO_PART, fs[0].val).err.None? by { PartAheadIs(fs[0].val); }
      }
      if FullStateMeaning(m, fs[0]).Some? {
        FullStateFolds(FullStateMeaning(m, fs[0]).value, fs[1..]);
      }
    }
  }

  lemma {:induction false} PartAheadIs(val: bytes)
    requires |val| < TWO_63
    ensures PartAhead(val) <==> DecodePart(NO_PART, val).err.None?
  {
    hide DecodePart, PartFields, RawAll;
    PartAccepts(NO_PART, val);
  }

  /** A state decodes exactly from whole fields, of which those numbered 1 are records that decode as parts do. */
  lemma {:induction false} FullStateAccepts(m: FullState, s: bytes)
    requires |s| < TWO_63
    ensures DecodeFullState(m, s).err.None? <==> exists fs :: FullStateFields(fs) && RawAll(fs) == s
  {
    hide FullStateFields, AllSound, Fold, Follows, DecodeAll;
    FullStateFollows();
    AcceptsExactly(FullStateStep, FullStateMeaning, m, s);
    forall fs ensures AllSound(fs) && Fold(FullStateMeaning, m, fs).Some? <==> FullStateFields(fs) {
      FullStateFolds(m, fs);
    }
  }

  /** The parts in the records. */
  function PartsOf(fs: seq<Field>): seq<Part>
    decreases |fs|
  {
    if fs == [] then [] else (if fs[0].LenField? then [DecodePart(NO_PART, fs[0].val).m] else []) + PartsOf(fs[1..])
  }

  /** What it then holds: a part for each of these records, in turn, and all other fields as they were. */
  lemma {:induction false} FullStateHolds(m: FullState, fs: seq<Field>)
    requires FullStateFields(fs) && |RawAll(fs)| < TWO_63
    ensures DecodeFullState(m, RawAll(fs)) ==
            Decoded(FullState(m.parts + PartsOf(OfNumber(fs, 1)), m.unrecognized + RawAll(Above(fs, 1))), None)
  {
    hide DecodeAll, Follows, FullStateStep, FullStateFields, OfNumber, Above, RawAll, PartsOf;
    FullStateFollows();
    FullStateFolds(m, fs);
    FieldsDecode(FullStateStep, FullStateMeaning, m, fs, 0);
    FullStateFoldIs(m, fs);
  }

  lemma {:induction false} FullStateFoldIs(m: FullState, fs: seq<Field>)
    requires FullStateFields(fs)
    ensures Fold(FullStateMeaning, m, fs) ==
            Some(FullState(m.parts + PartsOf(OfNumber(fs, 1)), m.unrecognized + RawAll(Above(fs, 1))))
    decreases |fs|
  {
    hide Raw, FieldNumber, DecodePart, PartAhead;
    if fs == [] {
      assert m.unrecognized + [] == m.unrecognized && m.parts + [] == m.parts;
    } else {
      hide OfNumber, Above, RawAll, PartsOf;
      var f, rest := fs[0], fs[1..];
      assert Sound(f);
      FullStateMeaningSome(m, fs);
      FullStateFoldIs(FullStateMeaning(m, f).value, rest);
      FullStateFirst(m, fs);
    }
  }

  lemma {:induction false} FullStateMeaningSome(m: FullState, fs: seq<Field>)
    requires FullStateFields(fs) && fs != []
    ensures FullStateMeaning(m, fs[0]).Some? && FullStateFields(fs[1..])
  {
    hide WellFormed, FieldNumber, PartAhead, DecodePart, Raw;
    assert Sound(fs[0]);
    if FieldNumber(fs[0]) <= 1 {
      ValShorter(fs[0]);
      PartAheadIs(fs[0].val);
    }
  }

  lemma PartsFirst(f: Field, rest: seq<Field>)
    requires f.LenField?
    ensures PartsOf([f] + rest) == [DecodePart(NO_PART, f.val).m] + PartsOf(rest)
  {
    assert ([f] + rest)[1..] == rest;
  }

  lemma {:induction false} FullStateFirst(m: FullState, fs: seq<Field>)
    requires fs != [] && FullStateMeaning(m, fs[0]).Some?
    ensures var m' := FullStateMeaning(m, fs[0]).value;
            && m'.parts + PartsOf(OfNumber(fs[1..], 1)) == m.parts + PartsOf(OfNumber(fs, 1))
            && m'.unrecognized + RawAll(Above(fs[1..], 1)) == m.unrecognized + RawAll(Above(fs, 1))
  {
    hide WellFormed, FieldNumber, DecodePart, Raw, OfNumber, Above, RawAll, PartsOf;
    var f, rest := fs[0], fs[1..];
    FirstOfNumber(fs, 1);
    FirstAbove(fs, 1);
    if FieldNumber(f) > 1 {
      RawFirst(f, Above(rest, 1));
      assert m.unrecognized + Raw(f) + RawAll(Above(rest, 1)) == m.unrecognized + (Raw(f) + RawAll(Above(rest, 1)));
    } else {
      PartsFirst(f, OfNumber(rest, 1));
      var p := [DecodePart(NO_PART, f.val).m];
      assert m.parts + p + PartsOf(OfNumber(rest, 1)) == m.parts + (p + PartsOf(OfNumber(rest, 1)));
    }
  }

  // ---- MeshEntry ----

  function MeshMeaning(m: MeshEntry, f: Field): Option<MeshEntry> {
    if !Sound(f) then None
    else if FieldNumber(f) > 4 then Some(m)
    else if FieldNumber(f) == 2 then
      if f.VarintField? then Some(m.(status := ToInt32(Uvarint(f.val).value))) else None
    else if !f.LenField? then None
    else if FieldNumber(f) == 1 then Some(m.(name := f.val))
    else if FieldNumber(f) == 3 then
      match DecodeTime(f.val)
      case GotTime(t) => Some(m.(updated := t))
      case BadTime(_) => None
    else
      var d := DecodeTargetgroup(if m.targetgroup.Some? then m.targetgroup.value else NO_GROUP, f.val);
      if d.err.Some? then None else Some(m.(targetgroup := Some(d.m)))
  }

  lemma {:induction false} MeshMeans(m: MeshEntry, f: Field, t: bytes, pos: nat)
    requires Sound(f) && !Wraps(pos + |Raw(f)|)
    ensures Means(MeshStep(m, Raw(f) + t, pos), MeshMeaning(m, f), |Raw(f)|)
  {
    hide ReadTag, LenDelimited, UnknownField, Raw, WellFormed, FieldNumber, DecodeTime, DecodeTargetgroup;
    hide Uvarint, Bits;
    SoundTag(f, t);
    if FieldNumber(f) > 4 {
      ForeignReads(f, 4, t, pos);
    } else if f.LenField? {
      LenFieldReads(f, t, pos);
    } else if f.VarintField? {
      VarintFieldReads(f, t);
      WordOfVarint((Raw(f) + t)[|f.tag|..]);
    }
  }

  lemma {:induction false} MeshHeads(m: MeshEntry, s: bytes, pos: nat)
    requires MeshStep(m, s, pos).Advance?
    ensures HeadsField(s, MeshStep(m, s, pos).n)
  {
    hide ReadTag, LenDelimited, UnknownField, HeadsField, DecodeTime, DecodeTargetgroup, Uvarint, Bits;
    if ReadTag(s).field > 4 {
      UnknownHeads(s, pos);
    } else if ReadTag(s).field == 2 {
      VarintHeads(s);
    } else {
      LenHeads(s, pos);
    }
  }

  lemma {:induction false} MeshFollows()
    ensures Follows(MeshStep, MeshMeaning)
  {
    hide MeshStep, MeshMeaning, Raw, HeadsField, Sound;
    forall m: MeshEntry, f: Field, t: bytes, pos: nat | Sound(f) && !Wraps(pos + |Raw(f)|)
      ensures Means(MeshStep(m, Raw(f) + t, pos), MeshMeaning(m, f), |Raw(f)|)
    {
      MeshMeans(m, f, t, pos);
    }
    forall m: MeshEntry, s: bytes, pos: nat | MeshStep(m, s, pos).Advance?
      ensures HeadsField(s, MeshStep(m, s, pos).n)
    {
      MeshHeads(m, s, pos);
    }
  }

  /** Fields of an entry: 1 a record, 2 a varint, 3 a record that holds an instant, 4 one that decodes as a group. */
  predicate MeshField(f: Field) {
    Sound(f)
    && match FieldNumber(f)
       case 1 => f.LenField?
       case 2 => f.VarintField?
       case 3 => f.LenField? && DecodeTime(f.val).GotTime?
       case 4 => f.LenField? && DecodeTargetgroup(NO_GROUP, f.val).err.None?
       case _ => true
  }

  predicate MeshFields(fs: seq<Field>) {
    forall i :: 0 <= i < |fs| ==> MeshField(fs[i])
  }

  lemma {:induction false} GroupAccepted(m: Targetgroup, s: bytes)
    ensures DecodeTargetgroup(m, s).err == DecodeTargetgroup(NO_GROUP, s).err
  {
    hide TargetgroupStep;
    GroupBlind();
    BlindLoop(TargetgroupStep, m, NO_GROUP, s, 0);
  }

  lemma {:induction false} MeshMeaningSome(m: MeshEntry, f: Field)
    ensures MeshMeaning(m, f).Some? <==> MeshField(f)
  {
    hide WellFormed, FieldNumber, DecodeTime, DecodeTargetgroup, Uvarint;
    if Sound(f) && f.LenField? {
      GroupAccepted(if m.targetgroup.Some? then m.targetgroup.value else NO_GROUP, f.val);
    }
  }

  lemma {:induction false} MeshFolds(m: MeshEntry, fs: seq<Field>)
    ensures AllSound(fs) && Fold(MeshMeaning, m, fs).Some? <==> MeshFields(fs)
    decreases |fs|
  {
    hide MeshMeaning, MeshField, Sound;
    if fs != [] {
      assert forall i :: 0 < i < |fs| ==> fs[i] == fs[1..][i - 1];
      MeshMeaningSome(m, fs[0]);
      MeshFieldSound(fs[0]);
      if MeshMeaning(m, fs[0]).Some? {
        MeshFolds(MeshMeaning(m, fs[0]).value, fs[1..]);
      }
    }
  }

  lemma MeshFieldSound(f: Field)
    ensures MeshField(f) ==> Sound(f)
  {
    hide Sound, FieldNumber, DecodeTime, DecodeTargetgroup;
  }

  /** An entry decodes exactly from whole fields, of which each declared one is as it should be; numbers that are not
      declared may stand for anything. */
  lemma {:induction false} MeshAccepts(m: MeshEntry, s: bytes)
    requires |s| < TWO_63
    ensures DecodeMesh(m, s).err.None? <==> exists fs :: MeshFields(fs) && RawAll(fs) == s
  {
    hide MeshFields, AllSound, Fold, Follows, DecodeAll;
    MeshFollows();
    AcceptsExactly(MeshStep, MeshMeaning, m, s);
    forall fs ensures AllSound(fs) && Fold(MeshMeaning, m, fs).Some? <==> MeshFields(fs) {
      MeshFolds(m, fs);
    }
  }

  /** The groups in the records, each merged into what there was. */
  function GroupsOn(tg: Option<Targetgroup>, fs: seq<Field>): Option<Targetgroup>
    decreases |fs|
  {
    if fs == [] then tg
    else if !fs[0].LenField? then GroupsOn(tg, fs[1..])
    else GroupsOn(Some(DecodeTargetgroup(if tg.Some? then tg.value else NO_GROUP, fs[0].val).m), fs[1..])
  }

  function LastStatus(fs: seq<Field>, other: int): int {
    if fs == [] || !fs[|fs| - 1].VarintField? || Uvarint(fs[|fs| - 1].val).Bad? then other
    else ToInt32(Uvarint(fs[|fs| - 1].val).value)
  }

  function LastTime(fs: seq<Field>, other: Time): Time {
    if LastVal(fs).Some? && DecodeTime(LastVal(fs).value).GotTime? then DecodeTime(LastVal(fs).value).t else other
  }

  /** What it then holds: the last name, status and instant, and the groups one merged into the other. Other fields
      leave no trace. */
  lemma {:induction false} MeshHolds(m: MeshEntry, fs: seq<Field>)
    requires MeshFields(fs) && |RawAll(fs)| < TWO_63
    ensures DecodeMesh(m, RawAll(fs)) == Decoded(FoldedMesh(m, fs), None)
  {
    hide DecodeAll, Follows, MeshStep, MeshFields, RawAll, FoldedMesh;
    MeshFollows();
    MeshFolds(m, fs);
    FieldsDecode(MeshStep, MeshMeaning, m, fs, 0);
    MeshFoldIs(m, fs);
  }

  function FoldedMesh(m: MeshEntry, fs: seq<Field>): MeshEntry {
    MeshEntry(OrElse(LastVal(OfNumber(fs, 1)), m.name), LastStatus(OfNumber(fs, 2), m.status),
              LastTime(OfNumber(fs, 3), m.updated), GroupsOn(m.targetgroup, OfNumber(fs, 4)))
  }

  lemma {:induction false} MeshFoldIs(m: MeshEntry, fs: seq<Field>)
    requires MeshFields(fs)
    ensures Fold(MeshMeaning, m, fs) == Some(FoldedMesh(m, fs))
    decreases |fs|
  {
    hide MeshMeaning, FoldedMesh, MeshField;
    if fs == [] {
      FoldedNone(m);
    } else {
      MeshMeaningSome(m, fs[0]);
      MeshFoldIs(MeshMeaning(m, fs[0]).value, fs[1..]);
      FoldedFirst(m, fs);
    }
  }

  lemma FoldedNone(m: MeshEntry)
    ensures FoldedMesh(m, []) == m
  {
  }

  /** The last of the fields is as it should be. */
  lemma {:induction false} LastOfNumber(fs: seq<Field>, n: int)
    requires MeshFields(fs)
    ensures forall i :: 0 <= i < |OfNumber(fs, n)| ==>
              MeshField(OfNumber(fs, n)[i]) && FieldNumber(OfNumber(fs, n)[i]) == n
    decreases |fs|
  {
    hide FieldNumber, WellFormed, DecodeTime, DecodeTargetgroup;
    if fs != [] {
      LastOfNumber(fs[1..], n);
      MeshFieldSound(fs[0]);
    }
  }

  lemma {:induction false} StatusBehind(f: Field, rest: seq<Field>, other: int)
    requires Sound(f) && f.VarintField? && forall i :: 0 <= i < |rest| ==> Sound(rest[i]) && rest[i].VarintField?
    ensures LastStatus([f] + rest, other) == LastStatus(rest, ToInt32(Uvarint(f.val).value))
  {
    hide ToInt32;
    if rest != [] {
      assert ([f] + rest)[|rest|] == rest[|rest| - 1] && Sound(rest[|rest| - 1]);
    }
  }

  lemma {:induction false} NameBehind(f: Field, rest: seq<Field>, other: bytes)
    requires f.LenField? && forall i :: 0 <= i < |rest| ==> rest[i].LenField?
    ensures OrElse(LastVal([f] + rest), other) == OrElse(LastVal(rest), f.val)
  {
    LastBehind(f, rest);
  }

  lemma {:induction false} TimeBehind(f: Field, rest: seq<Field>, other: Time)
    requires f.LenField? && DecodeTime(f.val).GotTime?
    requires forall i :: 0 <= i < |rest| ==> rest[i].LenField? && DecodeTime(rest[i].val).GotTime?
    ensures LastTime([f] + rest, other) == LastTime(rest, DecodeTime(f.val).t)
  {
    hide DecodeTime;
    LastBehind(f, rest);
  }

  lemma {:induction false} GroupBehind(f: Field, rest: seq<Field>, tg: Option<Targetgroup>)
    requires f.LenField?
    ensures GroupsOn(tg, [f] + rest)
         == GroupsOn(Some(DecodeTargetgroup(if tg.Some? then tg.value else NO_GROUP, f.val).m), rest)
  {
    assert ([f] + rest)[1..] == rest;
  }

  /** A field of number `n` is of the kind that stands there. */
  lemma MeshFieldKind(f: Field)
    requires MeshField(f)
    ensures Sound(f) && (FieldNumber(f) == 2 ==> f.VarintField?) && (FieldNumber(f) in {1, 3, 4} ==> f.LenField?)
    ensures FieldNumber(f) == 3 ==> DecodeTime(f.val).GotTime?
  {
    hide WellFormed, FieldNumber, DecodeTime, DecodeTargetgroup;
  }

  lemma {:induction false} FoldedFirst(m: MeshEntry, fs: seq<Field>)
    requires MeshFields(fs) && fs != [] && MeshMeaning(m, fs[0]).Some?
    ensures FoldedMesh(m, fs) == FoldedMesh(MeshMeaning(m, fs[0]).value, fs[1..])
  {
    hide WellFormed, FieldNumber, DecodeTime, DecodeTargetgroup, Uvarint, OfNumber, ToInt32, MeshField;
    hide LastStatus, LastVal, LastTime, GroupsOn, OrElse;
    var f, rest := fs[0], fs[1..];
    MeshFieldKind(f);
    FirstOfNumber(fs, 1);
    FirstOfNumber(fs, 2);
    FirstOfNumber(fs, 3);
    FirstOfNumber(fs, 4);
    var n := FieldNumber(f);
    var behind := OfNumber(rest, n);
    LastOfNumber(rest, n);
    forall i | 0 <= i < |behind|
      ensures Sound(behind[i]) && (n == 2 ==> behind[i].VarintField?) && (n in {1, 3, 4} ==> behind[i].LenField?)
      ensures n == 3 ==> DecodeTime(behind[i].val).GotTime?
    {
      MeshFieldKind(behind[i]);
    }
    match n {
      case 1 => NameBehind(f, behind, m.name);
      case 2 => StatusBehind(f, behind, m.status);
      case 3 => TimeBehind(f, behind, m.updated);
      case 4 => GroupBehind(f, behind, m.targetgroup);
      case _ =>
    }
  }

  // ---- Targetgroup ----

  /** What each field does to a group. A map entry is read from the buffer at its payload, and may reach beyond. */
  lemma {:induction false} GroupFieldTold(m: Targetgroup, f: Field, t: bytes, pos: nat)
    requires Sound(f) && !Wraps(pos + |Raw(f)|)
    ensures var step := TargetgroupStep(m, Raw(f) + t, pos);
            && (FieldNumber(f) > 2 ==> step == Advance(m, |Raw(f)|))
            && (FieldNumber(f) <= 2 && !f.LenField? ==> step == Fail(m, WrongWireType(WireType(f), FieldNumber(f))))
            && (FieldNumber(f) == 1 && f.LenField? ==>
                  step == Advance(m.(targets := m.targets + [f.val]), |Raw(f)|))
            && (FieldNumber(f) == 2 && f.LenField? ==>
                  var r := ReadEntry(f.val + t, |f.val|, pos + |Raw(f)| - |f.val|, [], []);
                  if r.Entry? then step == Advance(m.(labels := m.labels[r.key := r.val]), |Raw(f)|) else step.Fail?)
  {
    hide ReadTag, LenDelimited, UnknownField, WellFormed, FieldNumber, ReadEntry, RawAll;
    SoundTag(f, t);
    if FieldNumber(f) > 2 {
      ForeignReads(f, 2, t, pos);
    } else if f.LenField? {
      LenFieldReads(f, t, pos);
      assert (Raw(f) + t)[|Raw(f)| - |f.val|..] == f.val + t;
    }
  }

  /** Fields of a map entry that lie within it: number 1 and 2 are records, any others may be anything. */
  predicate EntryFields(fs: seq<Field>) {
    forall i :: 0 <= i < |fs| ==> WellFormed(fs[i]) && (FieldNumber(fs[i]) in {1, 2} ==> fs[i].LenField?)
  }

  lemma {:induction false} EntryFieldTold(f: Field, t: bytes, left: int, pos: nat)
    requires WellFormed(f) && (FieldNumber(f) in {1, 2} ==> f.LenField?)
    requires |Raw(f)| <= left && !Wraps(pos + |Raw(f)|)
    ensures EntryField(Raw(f) + t, left, pos)
         == if FieldNumber(f) == 1 then KeyRead(f.val, |Raw(f)|)
            else if FieldNumber(f) == 2 then ValueRead(f.val, |Raw(f)|)
            else Passed(|Raw(f)|)
  {
    hide Uvarint, LenDelimited, WellFormed, Raw, SkipFrom, ReadTag;
    SkipsRaw(f, t, 0, 0);
    FirstTag(f, t);
    TagGot(f);
    if FieldNumber(f) in {1, 2} {
      LenFieldReads(f, t, pos);
      SoundTag(f, t);
      TagUvarint(Raw(f) + t);
    }
  }

  lemma TagGot(f: Field)
    requires WellFormed(f)
    ensures Uvarint(f.tag).Got?
  {
    hide Uvarint, RawVarint;
  }

  lemma TagUvarint(s: bytes)
    requires ReadTag(s).Tag?
    ensures Uvarint(s).Got? && Uvarint(s).n == ReadTag(s).n
  {
  }

  lemma {:induction false} EntryRecords(fs: seq<Field>, n: int)
    requires EntryFields(fs) && n in {1, 2}
    ensures forall i :: 0 <= i < |OfNumber(fs, n)| ==> OfNumber(fs, n)[i].LenField?
    decreases |fs|
  {
    hide WellFormed, FieldNumber;
    if fs != [] {
      EntryRecords(fs[1..], n);
    }
  }

  /** A map entry whose payload is such fields is read as its last key and its last value. */
  lemma {:induction false} EntryHolds(fs: seq<Field>, t: bytes, pos: nat, key: bytes, val: bytes)
    requires EntryFields(fs) && !Wraps(pos + |RawAll(fs)|)
    ensures ReadEntry(RawAll(fs) + t, |RawAll(fs)|, pos, key, val)
         == Entry(OrElse(LastVal(OfNumber(fs, 1)), key), OrElse(LastVal(OfNumber(fs, 2)), val))
    decreases |fs|
  {
    hide EntryField, Raw, WellFormed, FieldNumber, OfNumber, LastVal, RawAll, OrElse;
    if fs == [] {
      EntryHoldsNone(t, pos, key, val);
    } else {
      var f, rest := fs[0], fs[1..];
      var tail := RawAll(rest);
      assert WellFormed(f);
      RawFirst(f, rest);
      assert [f] + rest == fs && Raw(f) + tail + t == Raw(f) + (tail + t);
      RawNonempty(f);
      EntryFieldTold(f, tail + t, |Raw(f)| + |tail|, pos);
      assert (Raw(f) + (tail + t))[|Raw(f)|..] == tail + t;
      var one, two := FieldNumber(f) == 1, FieldNumber(f) == 2;
      EntryHolds(rest, t, pos + |Raw(f)|, if one then f.val else key, if two then f.val else val);
      EntryTurn(Raw(f) + (tail + t), |Raw(f)| + |tail|, pos, key, val);
      FirstOfNumber(fs, 1);
      FirstOfNumber(fs, 2);
      EntryRecords(rest, 1);
      EntryRecords(rest, 2);
      if one { NameBehind(f, OfNumber(rest, 1), key); }
      if two { NameBehind(f, OfNumber(rest, 2), val); }
    }
  }

  lemma EntryHoldsNone(t: bytes, pos: nat, key: bytes, val: bytes)
    ensures RawAll([]) == [] && ReadEntry([] + t, 0, pos, key, val) == Entry(key, val)
    ensures OrElse(LastVal(OfNumber([], 1)), key) == key && OrElse(LastVal(OfNumber([], 2)), val) == val
  {
  }

  lemma EntryTurn(s: bytes, left: int, pos: nat, key: bytes, val: bytes)
    requires left > 0 && !EntryField(s, left, pos).Stuck? && !EntryField(s, left, pos).Escaped?
    ensures var turn := EntryField(s, left, pos);
            var k := if turn.KeyRead? then turn.data else key;
            var v := if turn.ValueRead? then turn.data else val;
            ReadEntry(s, left, pos, key, val) == ReadEntry(s[turn.n..], left - turn.n, pos + turn.n, k, v)
  {
    hide EntryField;
  }

  // ---- time ----

  function TimeMeaning(m: Time, f: Field): Option<Time> {
    if !Sound(f) then None
    else if FieldNumber(f) > 2 then Some(m)
    else if !f.VarintField? then None
    else
      var v := Uvarint(f.val).value;
      Some(if FieldNumber(f) == 1 then m.(seconds := ToInt64(v)) else m.(nanos := ToInt32(v)))
  }

  lemma {:induction false} TimeMeans(m: Time, f: Field, t: bytes, pos: nat)
    requires Sound(f) && !Wraps(pos + |Raw(f)|)
    ensures Means(TimeStep(m, Raw(f) + t, pos), TimeMeaning(m, f), |Raw(f)|)
  {
    hide ReadTag, UnknownField, Raw, WellFormed, FieldNumber, Uvarint, ToInt32, ToInt64;
    SoundTag(f, t);
    if FieldNumber(f) > 2 {
      ForeignReads(f, 2, t, pos);
    } else if f.VarintField? {
      VarintFieldReads(f, t);
    }
  }

  lemma {:induction false} TimeHeads(m: Time, s: bytes, pos: nat)
    requires TimeStep(m, s, pos).Advance?
    ensures HeadsField(s, TimeStep(m, s, pos).n)
  {
    hide ReadTag, UnknownField, HeadsField, Uvarint;
    if ReadTag(s).field > 2 {
      UnknownHeads(s, pos);
    } else {
      VarintHeads(s);
    }
  }

  lemma {:induction false} TimeFollows()
    ensures Follows(TimeStep, TimeMeaning)
  {
    hide TimeStep, TimeMeaning, Raw, HeadsField, Sound;
    forall m: Time, f: Field, t: bytes, pos: nat | Sound(f) && !Wraps(pos + |Raw(f)|)
      ensures Means(TimeStep(m, Raw(f) + t, pos), TimeMeaning(m, f), |Raw(f)|)
    {
      TimeMeans(m, f, t, pos);
    }
    forall m: Time, s: bytes, pos: nat | TimeStep(m, s, pos).Advance?
      ensures HeadsField(s, TimeStep(m, s, pos).n)
    {
      TimeHeads(m, s, pos);
    }
  }

  /** An instant decodes exactly from whole fields, of which those numbered 1 and 2 are varints, and which together say
      a valid instant. */
  lemma {:induction false} TimeAccepts(s: bytes, t: Time)
    requires |s| < TWO_63
    ensures DecodeTime(s) == GotTime(t)
       <==> exists fs :: AllSound(fs) && RawAll(fs) == s && Fold(TimeMeaning, Time(0, 0), fs) == Some(t) && ValidTime(t)
  {
    hide AllSound, Fold, Follows, DecodeAll, TimeMeaning, TimeStep, ValidTime;
    TimeFollows();
    if DecodeTime(s) == GotTime(t) {
      var fs := AcceptedFields(TimeStep, TimeMeaning, Time(0, 0), s, 0);
      FieldsDecode(TimeStep, TimeMeaning, Time(0, 0), fs, 0);
    }
    forall fs | AllSound(fs) && RawAll(fs) == s && Fold(TimeMeaning, Time(0, 0), fs) == Some(t) && ValidTime(t)
      ensures DecodeTime(s) == GotTime(t)
    {
      FieldsDecode(TimeStep, TimeMeaning, Time(0, 0), fs, 0);
    }
  }

  // ---- fields that are not declared ----

  /** A field that an entry does not declare, wherever it stands, makes no difference. */
  lemma {:induction false} MeshSkipsForeign(m: MeshEntry, a: bytes, f: Field, b: bytes)
    requires Foreign(f, 4) && DecodeMesh(m, a).err.None? && |a + (Raw(f) + b)| < TWO_63
    ensures var d, e := DecodeMesh(m, a + (Raw(f) + b)), DecodeMesh(m, a + b);
            (d.err.None? <==> e.err.None?) && (d.err.None? ==> d == e)
  {
    hide DecodeMesh, Foreign, Raw;
    var m1 := DecodeMesh(m, a).m;
    MeshLastOneWins(m, a, Raw(f) + b);
    MeshLastOneWins(m, a, b);
    MeshForeignAlone(m1, f);
    MeshLastOneWins(m1, Raw(f), b);
  }

  lemma {:induction false} MeshForeignAlone(m: MeshEntry, f: Field)
    requires Foreign(f, 4) && |Raw(f)| < TWO_63
    ensures DecodeMesh(m, Raw(f)) == Decoded(m, None)
  {
    hide ReadTag, LenDelimited, UnknownField, Raw, DecodeTime, DecodeTargetgroup, Uvarint, Bits;
    ForeignReads(f, 4, [], 0);
    assert Raw(f) + [] == Raw(f);
    assert MeshStep(m, Raw(f), 0) == Advance(m, |Raw(f)|);
    hide MeshStep;
    DecodeFirst(MeshStep, m, Raw(f), [], 0);
  }

  /** Nor does one that a group does not declare. */
  lemma {:induction false} GroupSkipsForeign(m: Targetgroup, a: bytes, f: Field, b: bytes)
    requires Foreign(f, 2) && DecodeTargetgroup(m, a).err.None? && |a + (Raw(f) + b)| < TWO_63
    ensures var d, e := DecodeTargetgroup(m, a + (Raw(f) + b)), DecodeTargetgroup(m, a + b);
            (d.err.None? <==> e.err.None?) && (d.err.None? ==> d == e)
  {
    hide DecodeTargetgroup, Foreign, Raw;
    var m1 := DecodeTargetgroup(m, a).m;
    GroupLastOneWins(m, a, Raw(f) + b);
    GroupLastOneWins(m, a, b);
    GroupForeignAlone(m1, f);
    GroupLastOneWins(m1, Raw(f), b);
  }

  lemma {:induction false} GroupForeignAlone(m: Targetgroup, f: Field)
    requires Foreign(f, 2) && |Raw(f)| < TWO_63
    ensures DecodeTargetgroup(m, Raw(f)) == Decoded(m, None)
  {
    hide ReadTag, LenDelimited, UnknownField, Raw, ReadEntry;
    ForeignReads(f, 2, [], 0);
    assert Raw(f) + [] == Raw(f);
    assert TargetgroupStep(m, Raw(f), 0) == Advance(m, |Raw(f)|);
    hide TargetgroupStep;
    DecodeFirst(TargetgroupStep, m, Raw(f), [], 0);
  }
}
