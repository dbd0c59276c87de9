/** The last-writer-wins merge of mesh entries, as a function on the entry map of a store. */
module Lww {
  import opened Base
  import opened TargetPb

  type Entries = map<bytes, MeshEntry>

  /** `merge` takes an entry unless it holds a strictly newer one of that name: equal times are taken. */
  predicate Accepts(es: Entries, e: MeshEntry) {
    e.name in es ==> !After(es[e.name].updated, e.updated)
  }

  function MergeOne(es: Entries, e: MeshEntry): Entries {
    if Accepts(es, e) then es[e.name := e] else es
  }

  function MergeAll(es: Entries, s: seq<MeshEntry>): Entries
    decreases |s|
  {
    if s == [] then es else MergeAll(MergeOne(es, s[0]), s[1..])
  }

  /** The entries that were taken, in turn: those the callbacks hear of. */
  function Taken(es: Entries, s: seq<MeshEntry>): seq<MeshEntry>
    decreases |s|
  {
    if s == [] then []
    else (if Accepts(es, s[0]) then [s[0]] else []) + Taken(MergeOne(es, s[0]), s[1..])
  }

  lemma {:induction false} MergeAppend(es: Entries, s: seq<MeshEntry>, t: seq<MeshEntry>)
    ensures MergeAll(es, s + t) == MergeAll(MergeAll(es, s), t)
    ensures Taken(es, s + t) == Taken(es, s) + Taken(MergeAll(es, s), t)
    decreases |s|
  {
    if s == [] {
      assert s + t == t;
    } else {
      assert (s + t)[1..] == s[1..] + t;
      MergeAppend(MergeOne(es, s[0]), s[1..], t);
    }
  }

  ghost predicate Keyed(es: Entries) {
    forall n :: n in es ==> es[n].name == n
  }

  // ---- what a store holds, from what it has seen ----

  /** `es` holds, for exactly the names in `seen`, an entry of `seen` than which none is newer. */
  ghost predicate Newest(es: Entries, seen: set<MeshEntry>) {
    && (forall n :: n in es ==> es[n] in seen && es[n].name == n)
    && (forall e :: e in seen ==> e.name in es && !After(e.updated, es[e.name].updated))
  }

  lemma MergeOneNewest(es: Entries, seen: set<MeshEntry>, e: MeshEntry)
    requires Newest(es, seen)
    ensures Newest(MergeOne(es, e), seen + {e})
  {
  }

  function Elements(s: seq<MeshEntry>): set<MeshEntry> {
    set e | e in s
  }

  lemma {:induction false} MergeAllNewest(es: Entries, seen: set<MeshEntry>, s: seq<MeshEntry>)
    requires Newest(es, seen)
    ensures Newest(MergeAll(es, s), seen + Elements(s))
    decreases |s|
  {
    if s == [] {
      assert seen + Elements(s) == seen;
    } else {
      MergeOneNewest(es, seen, s[0]);
      MergeAllNewest(MergeOne(es, s[0]), seen + {s[0]}, s[1..]);
      assert seen + {s[0]} + Elements(s[1..]) == seen + Elements(s);
    }
  }

  /** The same names, and the same time under each. */
  ghost predicate SameTimes(a: Entries, b: Entries) {
    a.Keys == b.Keys && forall n :: n in a ==> a[n].updated == b[n].updated
  }

  /** Name and time tell which entry it is. */
  ghost predicate Identifies(seen: set<MeshEntry>) {
    forall e, f :: e in seen && f in seen && e.name == f.name && e.updated == f.updated ==> e == f
  }

  /** Stores that have seen the same entries agree on every time, and on every entry if times identify them. */
  lemma SeenDetermines(a: Entries, b: Entries, seen: set<MeshEntry>)
    requires Newest(a, seen) && Newest(b, seen)
    ensures SameTimes(a, b)
    ensures Identifies(seen) ==> a == b
  {
    assert forall n :: n in a ==> a[n] in seen && n in b;
    assert forall n :: n in b ==> b[n] in seen && n in a;
  }

  // ---- the same in nanoseconds ----

  /** The nanoseconds since the epoch. */
  function Instant(t: Time): int {
    t.seconds * 1_000_000_000 + t.nanos
  }

  /** The nanoseconds within the second. */
  predicate Normal(t: Time) {
    0 <= t.nanos < 1_000_000_000
  }

  lemma AfterIsLater(t: Time, u: Time)
    requires Normal(t) && Normal(u)
    ensures After(t, u) <==> Instant(t) > Instant(u)
  {
    var d := t.seconds - u.seconds;
    assert Instant(t) - Instant(u) == d * 1_000_000_000 + (t.nanos - u.nanos);
  }

  ghost predicate AllNormal(es: Entries) {
    forall n :: n in es ==> Normal(es[n].updated)
  }

  /** Whatever is merged, what is stored under a name is the latest of what was stored there and what came: nothing
      that came or was there has a later instant. */
  lemma {:induction false} MergeKeepsLatest(es: Entries, s: seq<MeshEntry>)
    requires AllNormal(es) && forall e :: e in s ==> Normal(e.updated)
    ensures var m := MergeAll(es, s);
            && AllNormal(m)
            && (forall n :: n in es ==> n in m && Instant(es[n].updated) <= Instant(m[n].updated))
            && (forall e :: e in s ==> e.name in m && Instant(e.updated) <= Instant(m[e.name].updated))
            && (forall n :: n in m ==> (n in es && m[n] == es[n]) || (m[n] in s && m[n].name == n))
    decreases |s|
  {
    hide Instant, After, Normal;
    if s != [] {
      var e, rest := s[0], s[1..];
      assert e in s && forall f :: f in s <==> f == e || f in rest;
      OneKeepsLatest(es, e);
      MergeKeepsLatest(MergeOne(es, e), rest);
    }
  }

  lemma OneKeepsLatest(es: Entries, e: MeshEntry)
    requires AllNormal(es) && Normal(e.updated)
    ensures var m := MergeOne(es, e);
            && AllNormal(m) && e.name in m && Instant(e.updated) <= Instant(m[e.name].updated)
            && (forall n :: n in es ==> n in m && Instant(es[n].updated) <= Instant(m[n].updated))
            && (forall n :: n in m ==> (n in es && m[n] == es[n]) || (m[n] == e && e.name == n))
  {
    hide Instant, After;
    if e.name in es {
      AfterIsLater(es[e.name].updated, e.updated);
    }
  }

  /** A join holds, under each name, the later of the two entries; of two at one instant, the incoming one. */
  lemma {:induction false} JoinTakesLater(a: Entries, b: Entries, n: bytes)
    requires AllNormal(a) && AllNormal(b)
    ensures n in Join(a, b) <==> n in a || n in b
    ensures n in a && n !in b ==> Join(a, b)[n] == a[n]
    ensures n in b && n !in a ==> Join(a, b)[n] == b[n]
    ensures n in a && n in b ==>
              Join(a, b)[n] == if Instant(a[n].updated) >= Instant(b[n].updated) then a[n] else b[n]
  {
    hide Instant, After;
    if n in a && n in b {
      AfterIsLater(b[n].updated, a[n].updated);
    }
  }

  // ---- when the order of delivery does not matter ----

  ghost predicate Latest(e: MeshEntry, seen: set<MeshEntry>) {
    e in seen && forall f :: f in seen && f.name == e.name ==> !After(f.updated, e.updated)
  }

  /** No two entries of one name share the newest time. Older entries may. */
  ghost predicate UniqueLatest(seen: set<MeshEntry>) {
    forall e, f :: Latest(e, seen) && Latest(f, seen) && e.name == f.name ==> e == f
  }

  ghost predicate OrderIrrelevant(seen: set<MeshEntry>) {
    forall p, q :: Elements(p) == seen && Elements(q) == seen ==> MergeAll(map[], p) == MergeAll(map[], q)
  }

  lemma {:induction false} Enumerate(seen: set<MeshEntry>) returns (s: seq<MeshEntry>)
    ensures Elements(s) == seen
    decreases |seen|
  {
    s := [];
    if seen != {} {
      var e :| e in seen;
      var t := Enumerate(seen - {e});
      s := [e] + t;
      assert Elements(s) == {e} + Elements(t);
    }
  }

  lemma LatestDeliveredLast(seen: set<MeshEntry>, e: MeshEntry) returns (p: seq<MeshEntry>)
    requires Latest(e, seen)
    ensures Elements(p) == seen && e.name in MergeAll(map[], p) && MergeAll(map[], p)[e.name] == e
  {
    var s := Enumerate(seen);
    p := s + [e];
    assert Elements(p) == Elements(s) + {e} == seen;
    MergeAllNewest(map[], {}, s);
    assert {} + Elements(s) == seen;
    MergeAppend(map[], s, [e]);
    var es := MergeAll(map[], s);
    assert MergeAll(es, [e]) == MergeOne(es, e);
  }

  /** Delivering a set of entries in whatever order, as often as one likes, leads to one store exactly when the
      newest entry of each name is unique. Equal times are where it fails. */
  lemma OrderIrrelevantExactly(seen: set<MeshEntry>)
    ensures OrderIrrelevant(seen) <==> UniqueLatest(seen)
  {
    if UniqueLatest(seen) {
      forall p, q | Elements(p) == seen && Elements(q) == seen
        ensures MergeAll(map[], p) == MergeAll(map[], q)
      {
        MergeAllNewest(map[], {}, p);
        MergeAllNewest(map[], {}, q);
        assert {} + seen == seen;
        NewestIsLatest(MergeAll(map[], p), seen);
        NewestIsLatest(MergeAll(map[], q), seen);
        SeenDetermines(MergeAll(map[], p), MergeAll(map[], q), seen);
      }
    }
    if OrderIrrelevant(seen) {
      forall e, f | Latest(e, seen) && Latest(f, seen) && e.name == f.name
        ensures e == f
      {
        var p := LatestDeliveredLast(seen, e);
        var q := LatestDeliveredLast(seen, f);
        assert MergeAll(map[], p) == MergeAll(map[], q);
      }
    }
  }

  lemma NewestIsLatest(es: Entries, seen: set<MeshEntry>)
    requires Newest(es, seen)
    ensures forall n :: n in es ==> Latest(es[n], seen) && es[n].name == n
  {
  }

  /** Two entries of one job with one timestamp: the store keeps whichever arrived last. */
  lemma EqualTimesDiverge(e: MeshEntry, f: MeshEntry)
    requires e != f && e.name == f.name && e.updated == f.updated
    ensures MergeAll(map[], [e, f]) != MergeAll(map[], [f, e])
  {
    MergePair(e, f);
    MergePair(f, e);
    assert MergeOne(MergeOne(map[], e), f)[e.name] == f;
    assert MergeOne(MergeOne(map[], f), e)[e.name] == e;
  }

  lemma MergePair(e: MeshEntry, f: MeshEntry)
    ensures MergeAll(map[], [e, f]) == MergeOne(MergeOne(map[], e), f)
  {
    var es := MergeOne(map[], e);
    assert [e, f][1..] == [f] && [f][1..] == [];
    assert MergeAll(es, [f]) == MergeOne(es, f);
  }

  // ---- merging a whole store ----

  /** The pointwise newer of two stores; where times are equal, the incoming `a` wins. */
  function Join(a: Entries, b: Entries): Entries {
    map n | n in a.Keys + b.Keys :: if n in a && (n in b ==> !After(b[n].updated, a[n].updated)) then a[n] else b[n]
  }

  /** The join of two stores is the newest of all that either has seen. */
  lemma {:induction false} JoinNewest(a: Entries, seen: set<MeshEntry>, b: Entries, seen': set<MeshEntry>)
    requires Newest(a, seen) && Newest(b, seen')
    ensures Newest(Join(a, b), seen + seen')
  {
  }

  /** The entries of a store in the order in which its map was iterated. */
  function Listing(es: Entries, order: seq<bytes>): seq<MeshEntry>
    requires forall n :: n in order ==> n in es
  {
    seq(|order|, i requires 0 <= i < |order| => assert order[i] in order; es[order[i]])
  }

  /** The names in `order` decide which part of `a` has been merged so far. */
  lemma {:induction false} MergeListing(a: Entries, b: Entries, order: seq<bytes>)
    requires Keyed(a) && forall n :: n in order ==> n in a
    ensures var m := MergeAll(b, Listing(a, order));
            forall n :: (n in m <==> n in b || n in order)
                     && (n in m ==> m[n] == if n in order then Join(a, b)[n] else b[n])
    decreases |order|
  {
    if order != [] {
      var n := order[0];
      assert n in order;
      var rest := order[1..];
      assert forall k :: k in order <==> k == n || k in rest;
      assert Listing(a, order)[1..] == Listing(a, rest);
      var b' := MergeOne(b, a[n]);
      MergeListing(a, b', rest);
      assert forall k :: k in rest && k != n ==> Join(a, b')[k] == Join(a, b)[k];
    }
  }

  /** Merging the entries of another store, in any order of its map, is joining it. */
  lemma MergeIsJoin(a: Entries, b: Entries, order: seq<bytes>)
    requires Keyed(a) && forall n :: n in order <==> n in a
    ensures MergeAll(b, Listing(a, order)) == Join(a, b)
  {
    MergeListing(a, b, order);
  }

  /** Exchanging the states of before the exchange leaves both sides with the same times; and with the same
      entries exactly when entries they already held at equal times were the same. */
  lemma ExchangeAgrees(a: Entries, b: Entries)
    ensures SameTimes(Join(a, b), Join(b, a))
    ensures Join(a, b) == Join(b, a)
       <==> forall n :: n in a && n in b && a[n].updated == b[n].updated ==> a[n] == b[n]
  {
    var x, y := Join(a, b), Join(b, a);
    if x == y {
      forall n | n in a && n in b && a[n].updated == b[n].updated
        ensures a[n] == b[n]
      {
        assert x[n] == a[n] && y[n] == b[n];
      }
    }
  }

  /** Joins may be repeated and regrouped. */
  lemma JoinLaws(a: Entries, b: Entries, c: Entries)
    ensures Join(a, a) == a && Join(a, Join(a, b)) == Join(a, b)
    ensures Join(Join(a, b), c) == Join(a, Join(b, c))
  {
    JoinAssociative(a, b, c);
  }

  /** Which of the three wins under a name does not depend on the grouping. */
  lemma JoinAt(a: Entries, b: Entries, c: Entries, n: bytes)
    ensures n in Join(Join(a, b), c) <==> n in Join(a, Join(b, c))
    ensures n in Join(Join(a, b), c) ==> Join(Join(a, b), c)[n] == Join(a, Join(b, c))[n]
  {
  }

  lemma JoinAssociative(a: Entries, b: Entries, c: Entries)
    ensures Join(Join(a, b), c) == Join(a, Join(b, c))
  {
    hide Join;
    forall n
      ensures n in Join(Join(a, b), c) <==> n in Join(a, Join(b, c))
      ensures n in Join(Join(a, b), c) ==> Join(Join(a, b), c)[n] == Join(a, Join(b, c))[n]
    {
      JoinAt(a, b, c, n);
    }
  }
}
