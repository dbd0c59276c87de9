/** When an entry that was decoded takes no more bytes to write than it was read from. */
module NoGrowth {
  import opened Base
  import opened Varint
  import opened Skip
  import opened Message
  import opened TargetPb
  import opened TargetRoundTrip
  import opened Panics

  // ---- a condition on the fields of a buffer ----

  /** At the start of each field that the loop takes, `P` holds of what is ahead. */
  ghost predicate Everywhere<M>(step: Stepper<M>, zero: M, P: (bytes, nat) -> bool, s: bytes, pos: nat) {
    forall j :: 0 <= j < |s| && Passes(step, zero, s, pos, j) ==> P(s[j..], pos + j)
  }

  ghost predicate Somewhere<M>(step: Stepper<M>, zero: M, P: (bytes, nat) -> bool, s: bytes, pos: nat) {
    exists j :: 0 <= j < |s| && Passes(step, zero, s, pos, j) && P(s[j..], pos + j)
  }

  lemma {:induction false} FirstAndRest<M>(step: Stepper<M>, zero: M, P: (bytes, nat) -> bool, s: bytes, pos: nat)
    requires s != [] && step(zero, s, pos).Advance? && 1 <= step(zero, s, pos).n <= |s|
    ensures var n := step(zero, s, pos).n;
            && (Everywhere(step, zero, P, s, pos) <==> P(s, pos) && Everywhere(step, zero, P, s[n..], pos + n))
            && (Somewhere(step, zero, P, s, pos) <==> P(s, pos) || Somewhere(step, zero, P, s[n..], pos + n))
  {
    hide Passes;
    var n := step(zero, s, pos).n;
    PassesRest(step, zero, s, pos, 0);
    assert s[0..] == s;
    forall j | 0 <= j < |s| - n && Passes(step, zero, s[n..], pos + n, j)
      ensures Passes(step, zero, s, pos, n + j) && s[n..][j..] == s[n + j..]
    {
      PassesRest(step, zero, s, pos, n + j);
    }
    forall j | 0 < j < |s| && Passes(step, zero, s, pos, j)
      ensures n <= j && Passes(step, zero, s[n..], pos + n, j - n) && s[n..][j - n..] == s[j..]
      ensures pos + n + (j - n) == pos + j
    {
      PassesRest(step, zero, s, pos, j);
    }
  }

  // ---- map entries ----

  /** The rest of a map entry ends where the entry does, and by then both a key and a value have been read. */
  predicate EntryFull(s: bytes, left: int, pos: nat, hasKey: bool, hasVal: bool)
    decreases |s|
  {
    if left <= 0 then left == 0 && hasKey && hasVal
    else
      match EntryField(s, left, pos)
      case KeyRead(_, n) => EntryFull(s[n..], left - n, pos + n, true, hasVal)
      case ValueRead(_, n) => EntryFull(s[n..], left - n, pos + n, hasKey, true)
      case Passed(n) => EntryFull(s[n..], left - n, pos + n, hasKey, hasVal)
      case _ => false
  }

  /** The record of a string that has been read already. */
  function Due(has: bool, tag: byte, d: bytes): nat {
    if has then |LenBytes(tag, d)| else 0
  }

  lemma {:induction false} RecordCost(s: bytes, left: int, pos: nat, tag: byte)
    ensures var turn := EntryField(s, left, pos);
            turn.KeyRead? || turn.ValueRead? ==> |LenBytes(tag, turn.data)| <= turn.n
  {
    hide SkipField, Uvarint, VarintBytes;
    var t := Uvarint(s);
    if t.Got? && LenDelimited(s[t.n..], pos + t.n).Chunk? {
      VarintMinimal(s[t.n..]);
    }
  }

  lemma {:induction false} EntryNoGrowth(s: bytes, left: int, pos: nat, key: bytes, val: bytes, sk: bool, sv: bool)
    requires ReadEntry(s, left, pos, key, val).Entry? && EntryFull(s, left, pos, sk, sv)
    ensures var e := ReadEntry(s, left, pos, key, val);
            |LenBytes(0x0a, e.key)| + |LenBytes(0x12, e.val)| <= left + Due(sk, 0x0a, key) + Due(sv, 0x12, val)
    decreases |s|
  {
    hide EntryField, LenBytes;
    if left > 0 {
      RecordCost(s, left, pos, 0x0a);
      RecordCost(s, left, pos, 0x12);
      match EntryField(s, left, pos)
      case KeyRead(d, n) => EntryNoGrowth(s[n..], left - n, pos + n, d, val, true, sv);
      case ValueRead(d, n) => EntryNoGrowth(s[n..], left - n, pos + n, key, d, sk, true);
      case Passed(n) => EntryNoGrowth(s[n..], left - n, pos + n, key, val, sk, sv);
    }
  }

  /** Nothing in the rest of the entry could be saved: no field is skipped, none stands twice, and each is written
      shortest. */
  predicate SpareFree(s: bytes, left: int, pos: nat, hasKey: bool, hasVal: bool)
    decreases |s|
  {
    left <= 0
    || match EntryField(s, left, pos)
       case KeyRead(d, n) =>
         !hasKey && n == |LenBytes(0x0a, d)| && SpareFree(s[n..], left - n, pos + n, true, hasVal)
       case ValueRead(d, n) =>
         !hasVal && n == |LenBytes(0x12, d)| && SpareFree(s[n..], left - n, pos + n, hasKey, true)
       case _ => false
  }

  lemma {:induction false} SpareFreeExactly(s: bytes, left: int, pos: nat, key: bytes, val: bytes, sk: bool, sv: bool)
    requires ReadEntry(s, left, pos, key, val).Entry? && SpareFree(s, left, pos, sk, sv)
    requires (!sk ==> key == []) && (!sv ==> val == [])
    ensures var e := ReadEntry(s, left, pos, key, val);
            |LenBytes(0x0a, e.key)| + |LenBytes(0x12, e.val)| <= left + Due(sk, 0x0a, key) + Due(sv, 0x12, val)
            <==> EntryFull(s, left, pos, sk, sv)
    decreases |s|
  {
    hide EntryField, LenBytes;
    if left > 0 {
      match EntryField(s, left, pos)
      case KeyRead(d, n) => SpareFreeExactly(s[n..], left - n, pos + n, d, val, true, sv);
      case ValueRead(d, n) => SpareFreeExactly(s[n..], left - n, pos + n, key, d, sk, true);
    }
  }

  lemma {:induction false} RecordMonotone(tag: byte, a: bytes, b: bytes)
    ensures |a| <= |b| <==> |LenBytes(tag, a)| <= |LenBytes(tag, b)|
  {
    hide VarintBytes;
    if |a| <= |b| {
      VarintMonotone(|a|, |b|);
    } else {
      VarintMonotone(|b|, |a|);
    }
  }

  /** A map entry with nothing to spare, framed shortest, takes no more to write than to read exactly if it holds a
      key and a value within its bounds. */
  lemma {:induction false} EntryExactly(payload: bytes, t: bytes, pos: nat)
    requires ReadEntry(payload + t, |payload|, pos, [], []).Entry?
    requires SpareFree(payload + t, |payload|, pos, false, false)
    ensures var e := ReadEntry(payload + t, |payload|, pos, [], []);
            |EntryBytes(e.key, e.val)| <= |LenBytes(0x12, payload)|
            <==> EntryFull(payload + t, |payload|, pos, false, false)
  {
    hide ReadEntry, SpareFree, EntryFull, LenBytes;
    var e := ReadEntry(payload + t, |payload|, pos, [], []);
    SpareFreeExactly(payload + t, |payload|, pos, [], [], false, false);
    RecordMonotone(0x12, LenBytes(0x0a, e.key) + LenBytes(0x12, e.val), payload);
  }

  // ---- groups ----

  /** If a map entry is ahead, it is full. */
  predicate FullEntryAhead(s: bytes, pos: nat) {
    var tag := ReadTag(s);
    tag.Tag? && tag.field == 2 && tag.wireType == 2 ==>
      var c := LenDelimited(s[tag.n..], pos + tag.n);
      c.Chunk? ==>
        var h := tag.n + c.n - |c.data|;
        EntryFull(s[h..], |c.data|, pos + h, false, false)
  }

  ghost predicate GroupFull(s: bytes) {
    Everywhere(TargetgroupStep, NO_GROUP, FullEntryAhead, s, 0)
  }

  ghost predicate GroupFits(tg: Targetgroup, c: nat) {
    forall o :: IsOrder(o, tg.labels) ==> |TargetgroupBytes(tg, o)| <= c
  }

  lemma {:induction false} SameLabels(a: map<bytes, bytes>, b: map<bytes, bytes>, order: seq<bytes>)
    requires forall k :: k in order ==> ValueOf(a, k) == ValueOf(b, k)
    ensures LabelsBytes(a, order) == LabelsBytes(b, order)
    decreases |order|
  {
    hide EntryBytes, ValueOf;
    if order != [] {
      assert order[0] in order && forall k :: k in order[1..] ==> k in order;
      SameLabels(a, b, order[1..]);
    }
  }

  /** An order of the keys without one of them. */
  lemma {:induction false} OrderWithout(o: seq<bytes>, labels: map<bytes, bytes>, k: bytes) returns (rest: seq<bytes>)
    requires IsOrder(o, labels) && k in labels
    ensures Distinct(rest) && forall x :: x in rest <==> x in labels && x != k
    ensures |LabelsBytes(labels, o)| == |EntryBytes(k, labels[k])| + |LabelsBytes(labels, rest)|
  {
    hide EntryBytes, LabelsBytes;
    var j :| 0 <= j < |o| && o[j] == k;
    rest := o[..j] + o[j + 1..];
    LabelsWithout(labels, o, j);
    forall x | x in labels && x != k
      ensures x in rest
    {
      var i :| 0 <= i < |o| && o[i] == x;
      assert rest[if i < j then i else i - 1] == x;
    }
  }

  /** One more label costs at most its entry. */
  lemma {:induction false} LabelCosts(tg: Targetgroup, k: bytes, v: bytes, c: nat, n: nat)
    requires GroupFits(tg, c) && |EntryBytes(k, v)| <= n
    ensures GroupFits(tg.(labels := tg.labels[k := v]), c + n)
  {
    hide EntryBytes, LabelsBytes, TargetsBytes;
    var labels := tg.labels[k := v];
    forall o | IsOrder(o, labels)
      ensures |TargetgroupBytes(tg.(labels := labels), o)| <= c + n
    {
      var rest := OrderWithout(o, labels, k);
      SameLabels(labels, tg.labels, rest);
      if k in tg.labels {
        var p := OrderWithout(o, tg.labels, k);
        SubOrderSize(tg.labels, rest, o);
        assert IsOrder(o, tg.labels);
      } else {
        assert IsOrder(rest, tg.labels);
      }
      SomeFits(tg, if k in tg.labels then o else rest, c);
    }
  }

  lemma SomeFits(tg: Targetgroup, o: seq<bytes>, c: nat)
    requires GroupFits(tg, c) && IsOrder(o, tg.labels)
    ensures |TargetsBytes(tg.targets)| + |LabelsBytes(tg.labels, o)| <= c
  {
    assert |TargetgroupBytes(tg, o)| <= c;
  }

  lemma {:induction false} TargetCosts(tg: Targetgroup, d: bytes, c: nat, n: nat)
    requires GroupFits(tg, c) && |LenBytes(0x0a, d)| <= n
    ensures GroupFits(tg.(targets := tg.targets + [d]), c + n)
  {
    hide LenBytes, LabelsBytes, TargetsBytes;
    TargetsSnoc(tg.targets, d);
    forall o | IsOrder(o, tg.labels)
      ensures |TargetgroupBytes(tg.(targets := tg.targets + [d]), o)| <= c + n
    {
      SomeFits(tg, o, c);
    }
  }

  /** A record of `n` bytes is ahead whose payload begins at `h`. */
  predicate Ahead(s: bytes, pos: nat, h: nat, data: bytes, n: nat) {
    var tag := ReadTag(s);
    && tag.Tag? && tag.n <= n <= |s| && h + |data| == n
    && LenDelimited(s[tag.n..], pos + tag.n) == Chunk(data, n - tag.n)
  }

  lemma {:induction false} EntryCost(s: bytes, pos: nat, h: nat, data: bytes, n: nat)
    requires Ahead(s, pos, h, data, n) && EntryFull(s[h..], |data|, pos + h, false, false)
    requires ReadEntry(s[h..], |data|, pos + h, [], []).Entry?
    ensures var e := ReadEntry(s[h..], |data|, pos + h, [], []); |EntryBytes(e.key, e.val)| <= n
  {
    hide ReadTag, LenDelimited, ReadEntry, EntryFull, LenBytes;
    var e := ReadEntry(s[h..], |data|, pos + h, [], []);
    EntryNoGrowth(s[h..], |data|, pos + h, [], [], false, false);
    LenMinimal(s, pos + ReadTag(s).n, 0x12);
    RecordMonotone(0x12, LenBytes(0x0a, e.key) + LenBytes(0x12, e.val), data);
  }

  lemma {:induction false} GroupStepFits(m: Targetgroup, s: bytes, pos: nat, c: nat)
    requires TargetgroupStep(m, s, pos).Advance? && GroupFits(m, c) && FullEntryAhead(s, pos)
    ensures GroupFits(TargetgroupStep(m, s, pos).m, c + TargetgroupStep(m, s, pos).n)
  {
    hide ReadTag, LenDelimited, UnknownField, ReadEntry, EntryFull, EntryBytes, LenBytes, TargetgroupBytes;
    var tag, step := ReadTag(s), TargetgroupStep(m, s, pos);
    if tag.field <= 2 {
      hide GroupFits;
      var d := LenDelimited(s[tag.n..], pos + tag.n);
      if tag.field == 1 {
        LenMinimal(s, pos + tag.n, 0x0a);
        TargetCosts(m, d.data, c, step.n);
      } else {
        var h := step.n - |d.data|;
        EntryCost(s, pos, h, d.data, step.n);
        var e := ReadEntry(s[h..], |d.data|, pos + h, [], []);
        LabelCosts(m, e.key, e.val, c, step.n);
      }
    }
  }

  lemma {:induction false} GroupLoopFits(m: Targetgroup, s: bytes, pos: nat, c: nat)
    requires DecodeAll(TargetgroupStep, m, s, pos).err.None? && GroupFits(m, c)
    requires Everywhere(TargetgroupStep, NO_GROUP, FullEntryAhead, s, pos)
    ensures GroupFits(DecodeAll(TargetgroupStep, m, s, pos).m, c + |s|)
    decreases |s|
  {
    hide TargetgroupStep, GroupFits, FullEntryAhead, Everywhere, Somewhere;
    if s != [] {
      GroupBlind();
      assert Alike(TargetgroupStep(m, s, pos), TargetgroupStep(NO_GROUP, s, pos));
      FirstAndRest(TargetgroupStep, NO_GROUP, FullEntryAhead, s, pos);
      GroupStepFits(m, s, pos, c);
      var Advance(m', n) := TargetgroupStep(m, s, pos);
      GroupLoopFits(m', s[n..], pos + n, c + n);
    }
  }

  lemma {:induction false} NoGroupFits()
    ensures GroupFits(NO_GROUP, 0)
  {
  }

  /** A group in which every map entry is full takes no more to write, in any order of its labels, than to read. */
  lemma {:induction false} GroupNoGrowth(s: bytes, o: seq<bytes>)
    requires DecodeTargetgroup(NO_GROUP, s).err.None? && GroupFull(s)
    requires IsOrder(o, DecodeTargetgroup(NO_GROUP, s).m.labels)
    ensures |TargetgroupBytes(DecodeTargetgroup(NO_GROUP, s).m, o)| <= |s|
  {
    hide DecodeAll, TargetgroupStep, Everywhere, TargetgroupBytes, IsOrder;
    NoGroupFits();
    GroupLoopFits(NO_GROUP, s, 0, 0);
  }

  // ---- scalars ----

  /** A status takes no more to write than its varint took exactly if it is not negative or the varint had all ten
      bytes. */
  lemma {:induction false} StatusExactly(s: bytes)
    requires Uvarint(s).Got?
    ensures var status := ToInt32(Uvarint(s).value);
            |Scalar(0x10, status)| <= 1 + Uvarint(s).n <==> status >= 0 || Uvarint(s).n == 10
  {
    hide Uvarint, VarintBytes;
    var v := Uvarint(s).value;
    var status := ToInt32(v);
    VarintRoundTrip(ToUint64(status), []);
    if status < 0 {
      NegativeTakesTen(status);
    } else {
      assert ToUint64(status) == status <= v;
      VarintMonotone(status, v);
      VarintMinimal(s);
    }
  }

  /** What is written of a time; a fraction that is negative is never written. */
  function TimeDue(t: Time): nat {
    |Scalar(0x08, t.seconds)| + (if t.nanos >= 0 then |Scalar(0x10, t.nanos)| else 0)
  }

  lemma {:induction false} TimeStepCost(m: Time, s: bytes, pos: nat)
    requires TimeStep(m, s, pos).Advance?
    ensures TimeDue(TimeStep(m, s, pos).m) <= TimeDue(m) + TimeStep(m, s, pos).n
  {
    hide ReadTag, UnknownField, Uvarint, VarintBytes;
    var tag := ReadTag(s);
    if tag.field <= 2 {
      var rest := s[tag.n..];
      var v := Uvarint(rest).value;
      VarintMinimal(rest);
      if tag.field == 1 {
        assert ToUint64(ToInt64(v)) == v;
      } else if ToInt32(v) >= 0 {
        VarintMonotone(ToInt32(v), v);
      }
    }
  }

  lemma {:induction false} TimeLoopCost(m: Time, s: bytes, pos: nat)
    requires DecodeAll(TimeStep, m, s, pos).err.None?
    ensures TimeDue(DecodeAll(TimeStep, m, s, pos).m) <= TimeDue(m) + |s|
    decreases |s|
  {
    hide TimeStep, TimeDue;
    if s != [] {
      TimeStepCost(m, s, pos);
      var Advance(m', n) := TimeStep(m, s, pos);
      TimeLoopCost(m', s[n..], pos + n);
    }
  }

  lemma {:induction false} TimeNoGrowth(s: bytes)
    requires DecodeTime(s).GotTime?
    ensures |TimeBytes(DecodeTime(s).t)| <= |s|
  {
    hide DecodeAll, TimeStep;
    TimeLoopCost(Time(0, 0), s, 0);
  }

  // ---- entries ----

  /** If a status is ahead, it is not negative or takes all ten bytes. */
  predicate ShortStatusAhead(s: bytes, pos: nat) {
    var tag := ReadTag(s);
    tag.Tag? && tag.field == 2 && tag.wireType == 0 ==>
      var v := Uvarint(s[tag.n..]);
      v.Got? ==> ToInt32(v.value) >= 0 || v.n == 10
  }

  ghost predicate FullGroupAhead(s: bytes, pos: nat) {
    var tag := ReadTag(s);
    tag.Tag? && tag.field == 4 && tag.wireType == 2 ==>
      var c := LenDelimited(s[tag.n..], pos + tag.n);
      c.Chunk? ==> GroupFull(c.data)
  }

  predicate UpdatedAhead(s: bytes, pos: nat) {
    ReadTag(s).Tag? && ReadTag(s).field == 3
  }

  /** Each status is as short as it can be, each map entry is full, and Updated is there. */
  ghost predicate MeshFull(s: bytes) {
    && Everywhere(MeshStep, NO_ENTRY, ShortStatusAhead, s, 0)
    && Everywhere(MeshStep, NO_ENTRY, FullGroupAhead, s, 0)
    && Somewhere(MeshStep, NO_ENTRY, UpdatedAhead, s, 0)
  }

  function UpdatedBytes(e: MeshEntry): bytes {
    LenBytes(0x1a, TimeBytes(e.updated))
  }

  /** The room for a group of `g` bytes, if there is one. */
  function GroupRoom(tg: Option<Targetgroup>, g: nat): nat {
    if tg.None? then 0 else 1 + |VarintBytes(g)| + g
  }

  /** Name and status fit in `c` bytes, and the group, within its field, in `g`. */
  ghost predicate MeshFits(e: MeshEntry, c: nat, g: nat) {
    && |Optional(0x0a, e.name)| + |Scalar(0x10, e.status)| <= c
    && (e.targetgroup.Some? ==> GroupFits(e.targetgroup.value, g))
  }

  /** One varint for a sum is not longer than one for each term. */
  lemma {:induction false} VarintOfSum(a: nat, b: nat)
    ensures |VarintBytes(a + b)| <= |VarintBytes(a)| + |VarintBytes(b)|
  {
    hide VarintBytes;
    if a <= b {
      VarintMonotone(a + b, 128 * b);
      VarintShift(b);
    } else {
      VarintMonotone(a + b, 128 * a);
      VarintShift(a);
    }
  }

  lemma VarintShift(a: nat)
    ensures |VarintBytes(128 * a)| <= 1 + |VarintBytes(a)|
  {
  }

  lemma {:induction false} GroupJoins(m: Option<Targetgroup>, data: bytes, g: nat)
    requires m.Some? ==> GroupFits(m.value, g)
    requires var old_ := if m.Some? then m.value else NO_GROUP;
             DecodeTargetgroup(old_, data).err.None? && GroupFull(data)
    ensures var old_ := if m.Some? then m.value else NO_GROUP;
            var new_ := DecodeTargetgroup(old_, data).m;
            var g' := (if m.Some? then g else 0) + |data|;
            GroupFits(new_, g') && GroupRoom(Some(new_), g') <= GroupRoom(m, g) + 1 + |VarintBytes(|data|)| + |data|
  {
    hide DecodeAll, TargetgroupStep, GroupFits, Everywhere, VarintBytes;
    NoGroupFits();
    GroupLoopFits(if m.Some? then m.value else NO_GROUP, data, 0, if m.Some? then g else 0);
    if m.Some? {
      VarintOfSum(g, |data|);
    }
  }

  /** A turn on a field other than Updated: no more bytes are due than it took. */
  lemma {:induction false} MeshStepFits(m: MeshEntry, s: bytes, pos: nat, c: nat, g: nat) returns (c': nat, g': nat)
    requires MeshStep(m, s, pos).Advance? && MeshFits(m, c, g) && ReadTag(s).field != 3
    requires ShortStatusAhead(s, pos) && FullGroupAhead(s, pos)
    ensures var m' := MeshStep(m, s, pos).m;
            && m'.updated == m.updated && MeshFits(m', c', g')
            && c' + GroupRoom(m'.targetgroup, g') <= c + GroupRoom(m.targetgroup, g) + MeshStep(m, s, pos).n
  {
    hide ReadTag, LenDelimited, UnknownField, Uvarint, DecodeTargetgroup, GroupFull, GroupFits, VarintBytes, Bits;
    var tag, n := ReadTag(s), MeshStep(m, s, pos).n;
    c', g' := c, g;
    if tag.field == 1 {
      LenMinimal(s, pos + tag.n, 0x0a);
      c' := c + n;
    } else if tag.field == 2 {
      WordOfVarint(s[tag.n..]);
      StatusExactly(s[tag.n..]);
      c' := c + n;
    } else if tag.field == 4 {
      var d := LenDelimited(s[tag.n..], pos + tag.n);
      LenMinimal(s, pos + tag.n, 0x22);
      GroupJoins(m.targetgroup, d.data, g);
      g' := (if m.targetgroup.Some? then g else 0) + |d.data|;
    }
  }

  lemma {:induction false} UpdatedStep(m: MeshEntry, s: bytes, pos: nat)
    requires MeshStep(m, s, pos).Advance? && ReadTag(s).field == 3
    ensures var m' := MeshStep(m, s, pos).m;
            m' == m.(updated := m'.updated) && |UpdatedBytes(m')| <= MeshStep(m, s, pos).n
  {
    hide ReadTag, LenDelimited, UnknownField, Uvarint, DecodeTargetgroup, DecodeTime, TimeBytes, LenBytes, Bits;
    var tag := ReadTag(s);
    var d := LenDelimited(s[tag.n..], pos + tag.n);
    LenMinimal(s, pos + tag.n, 0x1a);
    TimeNoGrowth(d.data);
    RecordMonotone(0x1a, TimeBytes(DecodeTime(d.data).t), d.data);
  }

  /** The whole loop. What Updated takes is counted, in `u`, once the field has been `seen`. */
  lemma {:induction false} MeshLoopFits(m: MeshEntry, s: bytes, pos: nat, c: nat, g: nat, u: nat, seen: bool)
      returns (c': nat, g': nat, u': nat)
    requires DecodeAll(MeshStep, m, s, pos).err.None? && MeshFits(m, c, g) && (seen ==> |UpdatedBytes(m)| <= u)
    requires Everywhere(MeshStep, NO_ENTRY, ShortStatusAhead, s, pos)
    requires Everywhere(MeshStep, NO_ENTRY, FullGroupAhead, s, pos)
    requires seen || Somewhere(MeshStep, NO_ENTRY, UpdatedAhead, s, pos)
    ensures var m' := DecodeAll(MeshStep, m, s, pos).m;
            && MeshFits(m', c', g') && |UpdatedBytes(m')| <= u'
            && c' + GroupRoom(m'.targetgroup, g') + u' <= c + GroupRoom(m.targetgroup, g) + u + |s|
    decreases |s|
  {
    hide MeshStep, MeshFits, ShortStatusAhead, FullGroupAhead, UpdatedBytes, GroupRoom, Everywhere, Somewhere;
    if s == [] {
      NowhereInNothing(pos);
      return c, g, u;
    }
    StepHasTag(m, s, pos);
    AheadAndRest(s, pos);
    hide Somewhere, Everywhere;
    var Advance(m', n) := MeshStep(m, s, pos);
    if ReadTag(s).field == 3 {
      UpdatedStep(m, s, pos);
      SameFits(m, m', c, g);
      c', g', u' := MeshLoopFits(m', s[n..], pos + n, c, g, n, true);
    } else {
      var c1, g1 := MeshStepFits(m, s, pos, c, g);
      SameUpdated(m, m');
      c', g', u' := MeshLoopFits(m', s[n..], pos + n, c1, g1, u, seen);
    }
  }

  lemma NowhereInNothing(pos: nat)
    ensures !Somewhere(MeshStep, NO_ENTRY, UpdatedAhead, [], pos)
  {
  }

  /** The three conditions at a field and behind it. */
  lemma {:induction false} AheadAndRest(s: bytes, pos: nat)
    requires s != [] && MeshStep(NO_ENTRY, s, pos).Advance? && 1 <= MeshStep(NO_ENTRY, s, pos).n <= |s|
    requires Everywhere(MeshStep, NO_ENTRY, ShortStatusAhead, s, pos)
    requires Everywhere(MeshStep, NO_ENTRY, FullGroupAhead, s, pos)
    ensures ShortStatusAhead(s, pos) && FullGroupAhead(s, pos)
    ensures var n := MeshStep(NO_ENTRY, s, pos).n;
            && Everywhere(MeshStep, NO_ENTRY, ShortStatusAhead, s[n..], pos + n)
            && Everywhere(MeshStep, NO_ENTRY, FullGroupAhead, s[n..], pos + n)
            && (Somewhere(MeshStep, NO_ENTRY, UpdatedAhead, s, pos) ==>
                  UpdatedAhead(s, pos) || Somewhere(MeshStep, NO_ENTRY, UpdatedAhead, s[n..], pos + n))
  {
    hide MeshStep, ShortStatusAhead, FullGroupAhead, UpdatedAhead, Everywhere, Somewhere;
    FirstAndRest(MeshStep, NO_ENTRY, ShortStatusAhead, s, pos);
    FirstAndRest(MeshStep, NO_ENTRY, FullGroupAhead, s, pos);
    FirstAndRest(MeshStep, NO_ENTRY, UpdatedAhead, s, pos);
  }

  lemma {:induction false} StepHasTag(m: MeshEntry, s: bytes, pos: nat)
    requires MeshStep(m, s, pos).Advance?
    ensures s != [] && ReadTag(s).Tag? && Alike(MeshStep(m, s, pos), MeshStep(NO_ENTRY, s, pos))
    ensures 1 <= MeshStep(m, s, pos).n <= |s|
  {
    MeshBlindAt(m, NO_ENTRY, s, pos);
    hide LenDelimited, UnknownField, Uvarint, DecodeTime, DecodeTargetgroup, Alike;
  }

  lemma SameFits(m: MeshEntry, m': MeshEntry, c: nat, g: nat)
    requires MeshFits(m, c, g) && m' == m.(updated := m'.updated)
    ensures MeshFits(m', c, g) && m'.targetgroup == m.targetgroup
  {
  }

  lemma SameUpdated(m: MeshEntry, m': MeshEntry)
    requires m.updated == m'.updated
    ensures UpdatedBytes(m) == UpdatedBytes(m')
  {
  }

  /** An entry that is full in all its fields takes no more to write, in any order of its labels, than to read. */
  lemma {:induction false} MeshNoGrowth(s: bytes, o: seq<bytes>)
    requires DecodeMesh(NO_ENTRY, s).err.None? && MeshFull(s) && IsMeshOrder(o, DecodeMesh(NO_ENTRY, s).m)
    ensures |MeshBytes(DecodeMesh(NO_ENTRY, s).m, o)| <= |s|
  {
    hide DecodeAll, MeshStep, Everywhere, Somewhere, Optional, Scalar, LenBytes, TargetgroupBytes, IsOrder, VarintBytes;
    NothingFits();
    var c, g, u := MeshLoopFits(NO_ENTRY, s, 0, 0, 0, 0, false);
    GroupFieldFits(DecodeMesh(NO_ENTRY, s).m.targetgroup, o, g);
  }

  lemma NothingFits()
    ensures MeshFits(NO_ENTRY, 0, 0) && GroupRoom(NO_ENTRY.targetgroup, 0) == 0
  {
  }

  lemma {:induction false} GroupFieldFits(tg: Option<Targetgroup>, o: seq<bytes>, g: nat)
    requires tg.Some? ==> GroupFits(tg.value, g) && IsOrder(o, tg.value.labels)
    ensures |GroupField(tg, o)| <= GroupRoom(tg, g)
  {
    hide TargetgroupBytes, IsOrder, VarintBytes;
    if tg.Some? {
      VarintMonotone(|TargetgroupBytes(tg.value, o)|, g);
    }
  }

  // ---- each of the three conditions is needed ----

  lemma ZeroTimeTakes13()
    ensures |UpdatedBytes(NO_ENTRY)| == 13
  {
    hide VarintBytes;
    NegativeTakesTen(MIN_SECONDS);
    hide ToUint64;
    LenBytesSize(0x1a, TimeBytes(ZERO_TIME));
    assert |TimeBytes(ZERO_TIME)| == 11 && Sov(11) == 1 by {
      assert BitLen(11) == 4;
    }
  }

  lemma {:induction false} UpdatedAbsentLoop(m: MeshEntry, s: bytes, pos: nat)
    requires DecodeAll(MeshStep, m, s, pos).err.None?
    requires !Somewhere(MeshStep, NO_ENTRY, UpdatedAhead, s, pos)
    ensures DecodeAll(MeshStep, m, s, pos).m.updated == m.updated
    decreases |s|
  {
    hide MeshStep, Everywhere, Somewhere;
    if s != [] {
      StepHasTag(m, s, pos);
      FirstAndRest(MeshStep, NO_ENTRY, UpdatedAhead, s, pos);
      UpdatedStays(m, s, pos);
      var Advance(m', n) := MeshStep(m, s, pos);
      UpdatedAbsentLoop(m', s[n..], pos + n);
    }
  }

  lemma {:induction false} UpdatedStays(m: MeshEntry, s: bytes, pos: nat)
    requires MeshStep(m, s, pos).Advance? && !UpdatedAhead(s, pos)
    ensures MeshStep(m, s, pos).m.updated == m.updated
  {
    hide ReadTag, LenDelimited, UnknownField, Uvarint, DecodeTargetgroup, DecodeTime, Bits;
  }

  /** Where Updated is absent nothing was read for it, but it is written all the same, in thirteen bytes. */
  lemma {:induction false} UpdatedAbsent(s: bytes)
    requires DecodeMesh(NO_ENTRY, s).err.None? && !Somewhere(MeshStep, NO_ENTRY, UpdatedAhead, s, 0)
    ensures |UpdatedBytes(DecodeMesh(NO_ENTRY, s).m)| == 13
  {
    hide MeshStep, DecodeAll, Somewhere, UpdatedBytes;
    UpdatedAbsentLoop(NO_ENTRY, s, 0);
    SameUpdated(DecodeMesh(NO_ENTRY, s).m, NO_ENTRY);
    ZeroTimeTakes13();
  }

  /** No bytes at all are written as thirteen. */
  lemma {:induction false} NothingGrows()
    ensures DecodeMesh(NO_ENTRY, []) == Decoded(NO_ENTRY, None) && |MeshBytes(NO_ENTRY, [])| == 13
  {
    ZeroTimeTakes13();
    hide LenBytes, TimeBytes;
    assert MeshBytes(NO_ENTRY, []) == [] + ([] + (UpdatedBytes(NO_ENTRY) + []));
  }

  /** A status of six bytes is written in eleven. */
  lemma {:induction false} StatusGrows()
    ensures DecodeMesh(NO_ENTRY, [0x10, 0x80, 0x80, 0x80, 0x80, 0x08])
         == Decoded(NO_ENTRY.(status := -TWO_31), None)
    ensures |Scalar(0x10, -TWO_31)| == 11
  {
    hide VarintBytes, LenDelimited, UnknownField, DecodeTime, DecodeTargetgroup, Bits, Uvarint, RawVarint;
    var v := [0x80, 0x80, 0x80, 0x80, 0x08];
    NegativeTakesTen(-TWO_31);
    assert VarintBytes(TWO_31) == v by {
      NextByte(TWO_31);
      NextByte(0x100_0000);
      NextByte(0x2_0000);
      NextByte(0x400);
      NextByte(0x08);
    }
    VarintRoundTrip(TWO_31, []);
    assert v + [] == v;
    TagReads(0x10, v);
    WordOfVarint(v);
    var s := [0x10] + v;
    assert s == [0x10, 0x80, 0x80, 0x80, 0x80, 0x08] && s[1..] == v;
    hide ReadTag;
    assert MeshStep(NO_ENTRY, s, 0) == Advance(NO_ENTRY.(status := -TWO_31), 6);
    hide MeshStep;
  }

  /** A map entry of two bytes, with neither key nor value, is written in six. */
  lemma {:induction false} EmptyEntryGrows()
    ensures DecodeTargetgroup(NO_GROUP, [0x12, 0x00]) == Decoded(Targetgroup([], map[[] := []]), None)
    ensures |TargetgroupBytes(Targetgroup([], map[[] := []]), [[]])| == 6
  {
    hide ReadTag, LenDelimited, UnknownField;
    var s := LenBytes(0x12, []);
    LenReads(0x12, [], [], 0);
    assert s + [] == s == [0x12, 0x00];
    assert s[2..] == [];
    assert ReadEntry([], 0, 2, [], []) == Entry([], []);
    hide ReadEntry;
    assert TargetgroupStep(NO_GROUP, s, 0) == Advance(Targetgroup([], map[[] := []]), 2);
    hide TargetgroupStep;
    assert EntryBytes([], []) == [0x12, 0x04, 0x0a, 0x00, 0x12, 0x00];
    var none: seq<bytes> := [];
    assert [[]][1..] == none;
    assert LabelsBytes(map[[] := []], none) == [];
  }

  const OVERLAP: bytes := [0x0a, 0x01, 0x41]

  lemma {:induction false} OverlapEntry()
    ensures LenBytes(0x0a, OVERLAP) == [0x0a, 0x03, 0x0a, 0x01, 0x41] && LenBytes(0x12, []) == [0x12, 0x00]
    ensures ReadEntry([0x12, 0x00, 0x0a, 0x03] + OVERLAP, 4, 2, [], []) == Entry(OVERLAP, [])
  {
    hide ReadEntry, LenDelimited, SkipField, Uvarint, VarintBytes, EntryField;
    NextByte(0);
    NextByte(3);
    var key := LenBytes(0x0a, OVERLAP);
    assert key + [] == key == [0x0a, 0x03] + OVERLAP;
    assert LenBytes(0x12, []) + key == [0x12, 0x00, 0x0a, 0x03] + OVERLAP;
    EntryFieldReads(0x12, [], key, 4, 2, [], []);
    EntryTurnReads(0x0a, OVERLAP, [], 2, 4);
    KeyEnds(key + [], 2, 4, OVERLAP, 5);
  }

  lemma KeyEnds(s: bytes, left: int, pos: nat, k: bytes, n: nat)
    requires 0 < left <= n && EntryField(s, left, pos) == KeyRead(k, n)
    ensures ReadEntry(s, left, pos, [], []) == Entry(k, [])
  {
    hide EntryField;
  }

  lemma {:induction false} OverlapStep()
    ensures var s := [0x12, 0x04, 0x12, 0x00, 0x0a, 0x03] + OVERLAP;
            TargetgroupStep(NO_GROUP, s, 0) == Advance(Targetgroup([], map[OVERLAP := []]), 6)
  {
    hide ReadEntry, LenDelimited, ReadTag, VarintBytes, UnknownField;
    var records: bytes := [0x12, 0x00, 0x0a, 0x03];
    NextByte(4);
    LenReads(0x12, records, OVERLAP, 0);
    OverlapEntry();
    var s := LenBytes(0x12, records) + OVERLAP;
    assert s == [0x12, 0x04, 0x12, 0x00, 0x0a, 0x03] + OVERLAP && s[2..] == records + OVERLAP;
    hide LenBytes;
  }

  lemma {:induction false} OverlapSize()
    ensures |TargetgroupBytes(Targetgroup([[0x41]], map[OVERLAP := []]), [OVERLAP])| == 12
  {
    hide VarintBytes;
    OverlapEntry();
    NextByte(1);
    NextByte(7);
    var none, targets, order: seq<bytes> := [], [[0x41]], [OVERLAP];
    assert targets[1..] == none && order[1..] == none;
    assert LabelsBytes(map[OVERLAP := []], none) == [] && TargetsBytes(none) == [];
    assert |EntryBytes(OVERLAP, [])| == 9;
    assert LenBytes(0x0a, [0x41]) == OVERLAP;
  }

  /** So is one whose key reaches beyond its end: a value, and a key of three bytes of which the entry ends before the
      first; these three bytes are read again, as a target. Nine bytes are written in twelve. */
  lemma {:induction false} OverlapGrows()
    ensures var s := [0x12, 0x04, 0x12, 0x00, 0x0a, 0x03] + OVERLAP;
            var tg := Targetgroup([[0x41]], map[OVERLAP := []]);
            DecodeTargetgroup(NO_GROUP, s) == Decoded(tg, None) && |TargetgroupBytes(tg, [OVERLAP])| == 12 > |s|
  {
    hide VarintBytes, TargetgroupStep, TargetgroupBytes;
    OverlapStep();
    OverlapSize();
    NextByte(1);
    var first: bytes := [0x12, 0x04, 0x12, 0x00, 0x0a, 0x03];
    var m1 := Targetgroup([], map[OVERLAP := []]);
    DecodeFirst(TargetgroupStep, NO_GROUP, first, OVERLAP, 0);
    assert LenBytes(0x0a, [0x41]) == OVERLAP && OVERLAP + [] == OVERLAP && [] + [[0x41]] == [[0x41]];
    TargetStepReads(m1, [0x41], [], 6);
    DecodeFirst(TargetgroupStep, m1, OVERLAP, [], 6);
  }
}
