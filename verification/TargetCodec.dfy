/** The methods that write and read Targetgroup and MeshEntry. */
module TargetCodec {
  import opened Base
  import opened Varint
  import opened Message
  import opened TargetPb
  import opened TargetRoundTrip

  // ---- Size ----

  lemma {:induction false} TargetsBytesFrom(ts: seq<bytes>, k: nat)
    requires k <= |ts|
    ensures |TargetsBytes(ts[k..])| <= |TargetsBytes(ts)|
    ensures k < |ts| ==> TargetsBytes(ts[k..]) == LenBytes(0x0a, ts[k]) + TargetsBytes(ts[k + 1..])
  {
    if k < |ts| {
      assert ts[k..][1..] == ts[k + 1..];
    }
    if k > 0 {
      assert ts[1..][k - 1..] == ts[k..];
      TargetsBytesFrom(ts[1..], k - 1);
    }
  }

  method SizeTargets(ts: seq<bytes>) returns (n: nat)
    requires |TargetsBytes(ts)| < TWO_63
    ensures n == |TargetsBytes(ts)|
  {
    n := 0;
    for k := 0 to |ts|
      invariant n + |TargetsBytes(ts[k..])| == |TargetsBytes(ts)|
    {
      TargetsBytesFrom(ts, k);
      LenBytesSize(0x0a, ts[k]);
      n := n + LenSize(|ts[k]|);
    }
  }

  /** `mapEntrySize + 1 + sov(mapEntrySize)`. */
  method SizeEntry(k: bytes, v: bytes) returns (n: nat)
    requires |EntryBytes(k, v)| < TWO_63
    ensures n == |EntryBytes(k, v)|
  {
    LenBytesSize(0x0a, k);
    LenBytesSize(0x12, v);
    var mapEntrySize := LenSize(|k|) + LenSize(|v|);
    LenBytesSize(0x12, LenBytes(0x0a, k) + LenBytes(0x12, v));
    n := mapEntrySize + 1 + Sov(mapEntrySize);
  }

  /** The keys already visited, in the order in which their entries stand; the rest are still to come. */
  ghost predicate Visited(order: seq<bytes>, remaining: set<bytes>, labels: map<bytes, bytes>) {
    Distinct(order) && remaining <= labels.Keys && (forall k :: k in order <==> k in labels && k !in remaining)
  }

  lemma Visit(order: seq<bytes>, remaining: set<bytes>, labels: map<bytes, bytes>, k: bytes)
    requires Visited(order, remaining, labels) && k in remaining
    ensures Visited([k] + order, remaining - {k}, labels)
  {
  }

  /** A partial visit needs no more room than a whole one in any order, and the whole one exactly as much. */
  lemma VisitedSize(order: seq<bytes>, remaining: set<bytes>, labels: map<bytes, bytes>, all: seq<bytes>)
    requires Visited(order, remaining, labels) && IsOrder(all, labels)
    ensures |LabelsBytes(labels, order)| <= |LabelsBytes(labels, all)|
    ensures remaining == {} ==> IsOrder(order, labels) && |LabelsBytes(labels, order)| == |LabelsBytes(labels, all)|
  {
    SubOrderSize(labels, order, all);
    if remaining == {} {
      SubOrderSize(labels, all, order);
    }
  }

  lemma LabelsBytesFront(labels: map<bytes, bytes>, k: bytes, order: seq<bytes>)
    ensures LabelsBytes(labels, [k] + order) == EntryBytes(k, ValueOf(labels, k)) + LabelsBytes(labels, order)
  {
    assert ([k] + order)[1..] == order;
  }

  /** The `Size` loop over the map; `all` is any other iteration order. */
  method SizeLabels(labels: map<bytes, bytes>, ghost all: seq<bytes>) returns (n: nat)
    requires IsOrder(all, labels) && |LabelsBytes(labels, all)| < TWO_63
    ensures n == |LabelsBytes(labels, all)|
  {
    hide LabelsBytes, EntryBytes, IsOrder, Visited;
    n := 0;
    var remaining := labels.Keys;
    ghost var order: seq<bytes> := [];
    NoneVisited(labels);
    while remaining != {}
      invariant Visited(order, remaining, labels) && n == |LabelsBytes(labels, order)|
      decreases |remaining|
    {
      var k :| k in remaining;
      Visit(order, remaining, labels, k);
      VisitedSize([k] + order, remaining - {k}, labels, all);
      LabelsBytesFront(labels, k, order);
      RemainingIn(order, remaining, labels);
      var l := SizeEntry(k, labels[k]);
      n := n + l;
      order, remaining := [k] + order, remaining - {k};
    }
    VisitedSize(order, remaining, labels, all);
  }

  lemma NoneVisited(labels: map<bytes, bytes>)
    ensures Visited([], labels.Keys, labels) && LabelsBytes(labels, []) == []
  {
  }

  lemma RemainingIn(order: seq<bytes>, remaining: set<bytes>, labels: map<bytes, bytes>)
    requires Visited(order, remaining, labels)
    ensures remaining <= labels.Keys && forall k :: k in remaining ==> ValueOf(labels, k) == labels[k]
  {
  }

  /** `Targetgroup.Size`: the same in every iteration order. */
  method SizeTargetgroup(tg: Targetgroup, ghost all: seq<bytes>) returns (n: nat)
    requires IsOrder(all, tg.labels) && |TargetgroupBytes(tg, all)| < TWO_63
    ensures n == |TargetgroupBytes(tg, all)|
    ensures forall o :: IsOrder(o, tg.labels) ==> n == |TargetgroupBytes(tg, o)|
  {
    n := SizeTargets(tg.targets);
    var l := SizeLabels(tg.labels, all);
    n := n + l;
    forall o | IsOrder(o, tg.labels)
      ensures n == |TargetgroupBytes(tg, o)|
    {
      SizeAnyOrder(tg, all, o);
    }
  }

  // ---- MarshalToSizedBuffer ----

  /** One turn of the loop over the map: value, key, the size of both, the tag. */
  method MarshalEntry(k: bytes, v: bytes, dAtA: array<byte>, baseI: nat) returns (i: nat)
    requires |EntryBytes(k, v)| <= baseI <= dAtA.Length < TWO_63
    modifies dAtA
    ensures i == baseI - |EntryBytes(k, v)|
    ensures Wrote(old(dAtA[..]), dAtA[..], i, baseI, EntryBytes(k, v))
  {
    hide Wrote;
    ghost var d0 := dAtA[..];
    i := PutLen(dAtA, baseI, 0x12, v);
    ghost var d1 := dAtA[..];
    var j := PutLen(dAtA, i, 0x0a, k);
    WroteInFront(d0, d1, dAtA[..], j, i, baseI, LenBytes(0x0a, k), LenBytes(0x12, v));
    i := PutSize(dAtA, j, 0x12, baseI, d0, LenBytes(0x0a, k) + LenBytes(0x12, v));
  }

  method MarshalLabels(labels: map<bytes, bytes>, dAtA: array<byte>, end: nat, ghost all: seq<bytes>)
      returns (i: nat, ghost order: seq<bytes>)
    requires IsOrder(all, labels) && |LabelsBytes(labels, all)| <= end <= dAtA.Length < TWO_63
    modifies dAtA
    ensures IsOrder(order, labels) && i == end - |LabelsBytes(labels, order)|
    ensures Wrote(old(dAtA[..]), dAtA[..], i, end, LabelsBytes(labels, order))
  {
    hide LabelsBytes, EntryBytes, IsOrder, Visited;
    i, order := end, [];
    var remaining := labels.Keys;
    NoneVisited(labels);
    while remaining != {}
      invariant Visited(order, remaining, labels) && i + |LabelsBytes(labels, order)| == end
      invariant Wrote(old(dAtA[..]), dAtA[..], i, end, LabelsBytes(labels, order))
      decreases |remaining|
    {
      hide Wrote;
      var k :| k in remaining;
      Visit(order, remaining, labels, k);
      VisitedSize([k] + order, remaining - {k}, labels, all);
      LabelsBytesFront(labels, k, order);
      RemainingIn(order, remaining, labels);
      ghost var d1 := dAtA[..];
      var j := MarshalEntry(k, labels[k], dAtA, i);
      WroteInFront(old(dAtA[..]), d1, dAtA[..], j, i, end, EntryBytes(k, labels[k]), LabelsBytes(labels, order));
      i, order, remaining := j, [k] + order, remaining - {k};
    }
    VisitedSize(order, remaining, labels, all);
  }

  /** What stands in the buffer once the labels and the targets from `k` on are written. */
  function GroupTail(tg: Targetgroup, order: seq<bytes>, k: nat): bytes
    requires k <= |tg.targets|
  {
    TargetsBytes(tg.targets[k..]) + LabelsBytes(tg.labels, order)
  }

  lemma {:induction false} GroupTailFrom(tg: Targetgroup, order: seq<bytes>, k: nat)
    requires k <= |tg.targets|
    ensures |GroupTail(tg, order, k)| <= |TargetgroupBytes(tg, order)|
    ensures k < |tg.targets| ==>
              GroupTail(tg, order, k) == LenBytes(0x0a, tg.targets[k]) + GroupTail(tg, order, k + 1)
    ensures GroupTail(tg, order, 0) == TargetgroupBytes(tg, order)
    ensures GroupTail(tg, order, |tg.targets|) == LabelsBytes(tg.labels, order)
  {
    hide LenBytes, TargetsBytes, LabelsBytes;
    NoTargets();
    assert tg.targets[0..] == tg.targets && tg.targets[|tg.targets|..] == [];
    assert [] + LabelsBytes(tg.labels, order) == LabelsBytes(tg.labels, order);
    TargetsBytesFrom(tg.targets, k);
  }

  lemma NoTargets()
    ensures TargetsBytes([]) == []
  {
  }

  /** `Targetgroup.MarshalToSizedBuffer(dAtA[:end])`: for some order in which the map was iterated. */
  method MarshalTargetgroupTo(tg: Targetgroup, dAtA: array<byte>, end: nat, ghost all: seq<bytes>)
      returns (size: nat, ghost order: seq<bytes>)
    requires IsOrder(all, tg.labels) && |TargetgroupBytes(tg, all)| <= end <= dAtA.Length < TWO_63
    modifies dAtA
    ensures IsOrder(order, tg.labels) && size == |TargetgroupBytes(tg, order)| <= end
    ensures Wrote(old(dAtA[..]), dAtA[..], end - size, end, TargetgroupBytes(tg, order))
  {
    var i: nat;
    i, order := MarshalLabels(tg.labels, dAtA, end, all);
    hide Wrote, GroupTail, LenBytes, TargetgroupBytes, LabelsBytes, IsOrder;
    SizeAnyOrder(tg, all, order);
    hide *;
    var iNdEx := |tg.targets|;
    GroupTailFrom(tg, order, iNdEx);
    while iNdEx > 0
      invariant 0 <= iNdEx <= |tg.targets| && i + |GroupTail(tg, order, iNdEx)| == end
      invariant Wrote(old(dAtA[..]), dAtA[..], i, end, GroupTail(tg, order, iNdEx))
    {
      iNdEx := iNdEx - 1;
      GroupTailFrom(tg, order, iNdEx);
      i := PutInFront(dAtA, i, 0x0a, tg.targets[iNdEx], end, old(dAtA[..]), GroupTail(tg, order, iNdEx + 1));
    }
    size := end - i;
  }

  /** A length-delimited field in front of what was written since `d0`. */
  method PutInFront(dAtA: array<byte>, i: nat, tag: byte, payload: bytes, end: nat, ghost d0: bytes, ghost tail: bytes)
      returns (j: nat)
    requires |LenBytes(tag, payload)| <= i <= dAtA.Length < TWO_63
    requires Wrote(d0, dAtA[..], i, end, tail)
    modifies dAtA
    ensures j == i - |LenBytes(tag, payload)|
    ensures Wrote(d0, dAtA[..], j, end, LenBytes(tag, payload) + tail)
  {
    ghost var d1 := dAtA[..];
    j := PutLen(dAtA, i, tag, payload);
    WroteInFront(d0, d1, dAtA[..], j, i, end, LenBytes(tag, payload), tail);
  }

  /** `Targetgroup.Marshal`. */
  method MarshalTargetgroup(tg: Targetgroup, ghost all: seq<bytes>) returns (dAtA: array<byte>, ghost order: seq<bytes>)
    requires IsOrder(all, tg.labels) && |TargetgroupBytes(tg, all)| < TWO_63
    ensures fresh(dAtA) && IsOrder(order, tg.labels) && dAtA[..] == TargetgroupBytes(tg, order)
  {
    var size := SizeTargetgroup(tg, all);
    dAtA := new byte[size](_ => 0);
    var n;
    n, order := MarshalTargetgroupTo(tg, dAtA, size, all);
    SizeAnyOrder(tg, all, order);
    assert dAtA[0..size] == dAtA[..];
  }
}
