/** The key of a task: a hash of its sorted labels and its address. */
module TaskKey {
  import opened Base
  import opened Fnv

  const SEPARATOR: byte := 255
  /** "__addr__". */
  const ADDR: bytes := [95, 95, 97, 100, 100, 114, 95, 95]

  // ---- sorted names ----

  /** Byte-wise lexicographic order, as Go compares strings. */
  predicate LessEq(a: bytes, b: bytes)
    decreases |a|
  {
    a == [] || (b != [] && (a[0] < b[0] || (a[0] == b[0] && LessEq(a[1..], b[1..]))))
  }

  lemma {:induction false} LessEqOrder(a: bytes, b: bytes, c: bytes)
    ensures LessEq(a, a)
    ensures LessEq(a, b) || LessEq(b, a)
    ensures LessEq(a, b) && LessEq(b, a) ==> a == b
    ensures LessEq(a, b) && LessEq(b, c) ==> LessEq(a, c)
    decreases |a| + |b| + |c|
  {
    if a != [] {
      LessEqOrder(a[1..], if b == [] then [] else b[1..], if c == [] then [] else c[1..]);
      assert a == [a[0]] + a[1..];
      if b != [] {
        assert b == [b[0]] + b[1..];
      }
    }
  }

  /** The same order, told from where the strings first differ. */
  ghost predicate Before(a: bytes, b: bytes) {
    (|a| <= |b| && b[..|a|] == a) || exists i: nat :: DifferAt(a, b, i)
  }

  lemma SameBehind(c: byte, x: bytes, y: bytes)
    ensures [c] + x == [c] + y <==> x == y
  {
    assert ([c] + x)[1..] == x && ([c] + y)[1..] == y;
  }

  /** They first differ at `i`, and the first is less there. */
  predicate DifferAt(a: bytes, b: bytes, i: nat) {
    i < |a| && i < |b| && a[..i] == b[..i] && a[i] < b[i]
  }

  lemma DifferBehind(c: byte, s: bytes, t: bytes, i: nat)
    ensures DifferAt([c] + s, [c] + t, i + 1) <==> DifferAt(s, t, i)
    ensures !DifferAt([c] + s, [c] + t, 0)
  {
    var a, b := [c] + s, [c] + t;
    if i < |s| && i < |t| {
      assert a[..i + 1] == [c] + s[..i] && b[..i + 1] == [c] + t[..i];
      SameBehind(c, s[..i], t[..i]);
    }
  }

  lemma {:induction false} BehindSame(c: byte, s: bytes, t: bytes)
    ensures Before([c] + s, [c] + t) <==> Before(s, t)
  {
    hide DifferAt;
    var a, b := [c] + s, [c] + t;
    if |s| <= |t| {
      assert b[..|a|] == [c] + t[..|s|];
      SameBehind(c, t[..|s|], s);
    }
    DifferBehind(c, s, t, 0);
    if i: nat :| DifferAt(s, t, i) {
      DifferBehind(c, s, t, i);
    }
    if i: nat :| DifferAt(a, b, i) {
      DifferBehind(c, s, t, i - 1);
    }
  }

  lemma AtFirst(a: bytes, b: bytes)
    requires a != [] && b != [] && a[0] != b[0]
    ensures Before(a, b) <==> a[0] < b[0]
  {
    assert a[0] < b[0] ==> DifferAt(a, b, 0);
    forall i: nat | i > 0
      ensures !DifferAt(a, b, i)
    {
      assert 0 < i < |a| && i < |b| ==> a[..i][0] == a[0] && b[..i][0] == b[0];
    }
    assert |a| <= |b| ==> b[..|a|][0] == b[0];
  }

  lemma {:induction false} FirstDifference(a: bytes, b: bytes)
    ensures LessEq(a, b) <==> Before(a, b)
    decreases |a|
  {
    if a == [] {
      assert b[..|a|] == a;
    } else if b != [] {
      hide Before;
      if a[0] == b[0] {
        FirstDifference(a[1..], b[1..]);
        assert a == [a[0]] + a[1..] && b == [a[0]] + b[1..];
        BehindSame(a[0], a[1..], b[1..]);
      } else {
        AtFirst(a, b);
      }
    }
  }

  /** Every name of the map once, in ascending order. */
  ghost predicate Ascends(order: seq<bytes>, labels: map<bytes, bytes>) {
    && Distinct(order) && (forall k :: k in order <==> k in labels)
    && forall i, j :: 0 <= i < j < |order| ==> Before(order[i], order[j])
  }

  lemma AscendsIsSorted(order: seq<bytes>, labels: map<bytes, bytes>)
    ensures Ascends(order, labels) <==> SortedNames(order, labels)
  {
    hide Before, LessEq;
    forall i, j | 0 <= i < j < |order|
      ensures Before(order[i], order[j]) <==> LessEq(order[i], order[j])
    {
      FirstDifference(order[i], order[j]);
    }
  }

  ghost predicate Sorted(s: seq<bytes>) {
    forall i, j :: 0 <= i < j < |s| ==> LessEq(s[i], s[j])
  }

  /** The names of the map, each once, in order. */
  ghost predicate SortedNames(s: seq<bytes>, labels: map<bytes, bytes>) {
    Sorted(s) && Distinct(s) && forall k :: k in s <==> k in labels
  }

  lemma {:induction false} SortedUnique(a: seq<bytes>, b: seq<bytes>)
    requires Sorted(a) && Distinct(a) && Sorted(b) && Distinct(b)
    requires forall k :: k in a <==> k in b
    ensures a == b
    decreases |a|
  {
    hide LessEq;
    assert (a != [] ==> a[0] in a) && (b != [] ==> b[0] in b);
    if a != [] {
      FirstLeast(a, b);
      FirstLeast(b, a);
      LessEqOrder(a[0], b[0], b[0]);
      TailSame(a, b);
      TailSame(b, a);
      SortedUnique(a[1..], b[1..]);
    }
  }

  lemma FirstLeast(a: seq<bytes>, b: seq<bytes>)
    requires Sorted(a) && a != [] && b != [] && forall k :: k in b ==> k in a
    ensures LessEq(a[0], b[0])
  {
    assert b[0] in b && b[0] in a;
    var i :| 0 <= i < |a| && a[i] == b[0];
    LessEqOrder(a[0], a[0], a[0]);
  }

  lemma TailSame(a: seq<bytes>, b: seq<bytes>)
    requires a != [] && b != [] && a[0] == b[0] && Distinct(a) && forall k :: k in a ==> k in b
    ensures forall k :: k in a[1..] ==> k in b[1..]
  {
    forall k | k in a[1..]
      ensures k in b[1..]
    {
      assert k in a && k in b && k != a[0];
      var i :| 0 <= i < |b| && b[i] == k;
      assert b[1..][i - 1] == k;
    }
  }

  function InsertName(s: seq<bytes>, x: bytes): (t: seq<bytes>)
    decreases |s|
  {
    if s == [] || LessEq(x, s[0]) then [x] + s else [s[0]] + InsertName(s[1..], x)
  }

  lemma {:induction false} InsertKeepsSorted(s: seq<bytes>, x: bytes)
    requires Sorted(s) && Distinct(s) && x !in s
    ensures var t := InsertName(s, x); Sorted(t) && Distinct(t) && forall k :: k in t <==> k in s || k == x
    decreases |s|
  {
    hide LessEq;
    if s != [] {
      LessEqOrder(x, s[0], x);
      assert forall k :: k in s <==> k == s[0] || k in s[1..];
      if LessEq(x, s[0]) {
        forall j | 0 <= j < |s| ensures LessEq(x, s[j]) { LessEqOrder(x, s[0], s[j]); }
      } else {
        var u := InsertName(s[1..], x);
        InsertKeepsSorted(s[1..], x);
        forall j | 0 <= j < |u| ensures LessEq(s[0], u[j]) && u[j] != s[0] { assert u[j] in u; }
      }
    }
  }

  /** `sort.Strings`. */
  method SortStrings(names: seq<bytes>) returns (s: seq<bytes>)
    requires Distinct(names)
    ensures Sorted(s) && Distinct(s) && forall k :: k in s <==> k in names
    ensures forall i, j :: 0 <= i < j < |s| ==> Before(s[i], s[j])
  {
    hide LessEq, Before;
    s := [];
    for i := 0 to |names|
      invariant Sorted(s) && Distinct(s) && forall k :: k in s <==> k in names[..i]
    {
      assert forall k :: k in names[..i + 1] <==> k in names[..i] || k == names[i];
      assert names[i] !in names[..i];
      InsertKeepsSorted(s, names[i]);
      s := InsertName(s, names[i]);
    }
    assert names[..|names|] == names;
    forall i, j | 0 <= i < j < |s| ensures Before(s[i], s[j]) { FirstDifference(s[i], s[j]); }
  }

  lemma {:induction false} NamesExist(labels: map<bytes, bytes>)
    ensures exists s :: SortedNames(s, labels)
  {
    var rest := labels.Keys;
    var s: seq<bytes> := [];
    while rest != {}
      invariant rest <= labels.Keys && Sorted(s) && Distinct(s)
      invariant forall k :: k in s <==> k in labels && k !in rest
      decreases |rest|
    {
      var k :| k in rest;
      InsertKeepsSorted(s, k);
      s := InsertName(s, k);
      rest := rest - {k};
    }
    assert SortedNames(s, labels);
  }

  /** The one list of sorted names. */
  ghost function Names(labels: map<bytes, bytes>): (s: seq<bytes>)
    ensures SortedNames(s, labels)
  {
    NamesExist(labels);
    var s :| SortedNames(s, labels);
    s
  }

  // ---- the stream that is hashed ----

  /** Strings, each closed by the separator. */
  function Joined(tokens: seq<bytes>): bytes {
    if tokens == [] then [] else tokens[0] + [SEPARATOR] + Joined(tokens[1..])
  }

  function LabelTokens(names: seq<bytes>, labels: map<bytes, bytes>): seq<bytes>
    requires forall k :: k in names ==> k in labels
  {
    seq(2 * |names|, i requires 0 <= i < 2 * |names| =>
      assert names[i / 2] in names; if i % 2 == 0 then names[i / 2] else labels[names[i / 2]])
  }

  ghost function Tokens(addr: bytes, labels: map<bytes, bytes>): seq<bytes> {
    LabelTokens(Names(labels), labels) + [ADDR, addr]
  }

  /** The byte stream of a task. */
  ghost function Stream(addr: bytes, labels: map<bytes, bytes>): bytes {
    Joined(Tokens(addr, labels))
  }

  /** The key: FNV-1a of the stream; without labels a constant. */
  ghost function TaskIDOf(addr: bytes, labels: map<bytes, bytes>): uint64 {
    if labels == map[] then OFFSET64 else HashOf(OFFSET64, Stream(addr, labels))
  }

  lemma {:induction false} JoinedAppend(s: seq<bytes>, t: seq<bytes>)
    ensures Joined(s + t) == Joined(s) + Joined(t)
    decreases |s|
  {
    if s == [] {
      assert s + t == t;
    } else {
      assert (s + t)[1..] == s[1..] + t;
      JoinedAppend(s[1..], t);
    }
  }

  lemma JoinedOne(tokens: seq<bytes>, x: bytes)
    ensures Joined(tokens + [x]) == Joined(tokens) + (x + [SEPARATOR])
  {
    assert Joined([x]) == x + [SEPARATOR] + Joined([]);
    JoinedAppend(tokens, [x]);
  }

  /** Name, value, name, value, each followed by byte 255. */
  function LabelStream(order: seq<bytes>, labels: map<bytes, bytes>): bytes
    requires forall k :: k in order ==> k in labels
  {
    if order == [] then []
    else
      assert order[0] in order;
      order[0] + [255] + labels[order[0]] + [255] + LabelStream(order[1..], labels)
  }

  /** And behind them the name "__addr__" and the address. */
  function KeyStream(order: seq<bytes>, labels: map<bytes, bytes>, addr: bytes): bytes
    requires forall k :: k in order ==> k in labels
  {
    LabelStream(order, labels) + [95, 95, 97, 100, 100, 114, 95, 95, 255] + addr + [255]
  }

  lemma JoinedTwo(x: bytes, y: bytes)
    ensures Joined([x, y]) == x + [SEPARATOR] + (y + [SEPARATOR])
  {
    var last: seq<bytes> := [y];
    assert [x, y][1..] == last;
    assert Joined(last) == y + [SEPARATOR] + Joined([]);
  }

  lemma {:induction false} TokensStream(order: seq<bytes>, labels: map<bytes, bytes>)
    requires forall k :: k in order ==> k in labels
    ensures Joined(LabelTokens(order, labels)) == LabelStream(order, labels)
    decreases |order|
  {
    if order != [] {
      assert order[0] in order && forall k :: k in order[1..] ==> k in order;
      var n, v, rest := order[0], labels[order[0]], LabelTokens(order[1..], labels);
      assert LabelTokens(order, labels) == [n, v] + rest;
      JoinedAppend([n, v], rest);
      JoinedTwo(n, v);
      TokensStream(order[1..], labels);
    }
  }

  lemma {:induction false} StreamIs(addr: bytes, labels: map<bytes, bytes>)
    ensures Stream(addr, labels) == KeyStream(Names(labels), labels, addr)
  {
    hide LabelTokens, LabelStream;
    hide Joined;
    var names := Names(labels);
    TokensStream(names, labels);
    JoinedAppend(LabelTokens(names, labels), [ADDR, addr]);
    JoinedTwo(ADDR, addr);
    assert ADDR + [SEPARATOR] == [95, 95, 97, 100, 100, 114, 95, 95, 255];
  }

  /** The key is FNV-1a of the stream over the names in ascending order, of which there is one. */
  lemma {:induction false} TaskIDTold(addr: bytes, labels: map<bytes, bytes>, order: seq<bytes>)
    requires Ascends(order, labels) && labels != map[]
    ensures TaskIDOf(addr, labels) == HashOf(14695981039346656037, KeyStream(order, labels, addr))
  {
    hide Before, LessEq, KeyStream, HashOf;
    AscendsIsSorted(order, labels);
    SortedUnique(order, Names(labels));
    StreamIs(addr, labels);
  }

  lemma SomeOrderAscends(labels: map<bytes, bytes>)
    ensures Ascends(Names(labels), labels)
  {
    AscendsIsSorted(Names(labels), labels);
  }

  /** One string and its separator. */
  method HashToken(sum0: uint64, x: bytes, ghost done: seq<bytes>) returns (sum: uint64)
    requires sum0 == HashOf(OFFSET64, Joined(done))
    ensures sum == HashOf(OFFSET64, Joined(done + [x]))
  {
    sum := HashAdd(sum0, x);
    sum := HashAddByte(sum, SEPARATOR);
    JoinedOne(done, x);
    HashAppend(OFFSET64, Joined(done), x + [SEPARATOR]);
    HashAppend(sum0, x, [SEPARATOR]);
  }

  /** `TaskID`: the label map is iterated in any order, yet the result is a function of the map. */
  method TaskID(addr: bytes, labels: map<bytes, bytes>) returns (sum: uint64)
    ensures sum == TaskIDOf(addr, labels)
    ensures labels == map[] ==> sum == 14695981039346656037
    ensures labels != map[] ==>
              forall order :: Ascends(order, labels) ==>
                sum == HashOf(14695981039346656037, KeyStream(order, labels, addr))
  {
    hide Before, LessEq, KeyStream, HashOf, Joined;
    if |labels| == 0 { return OFFSET64; }
    forall order | Ascends(order, labels)
      ensures TaskIDOf(addr, labels) == HashOf(14695981039346656037, KeyStream(order, labels, addr))
    {
      TaskIDTold(addr, labels, order);
    }
    var labelNames: seq<bytes> := [];
    var remaining := labels.Keys;
    while remaining != {}
      invariant remaining <= labels.Keys && Distinct(labelNames)
      invariant forall k :: k in labelNames <==> k in labels && k !in remaining
      decreases |remaining|
    {
      var labelName :| labelName in remaining;
      labelNames := labelNames + [labelName];
      remaining := remaining - {labelName};
    }
    labelNames := SortStrings(labelNames);
    SortedUnique(labelNames, Names(labels));
    sum := HashLabels(labelNames, labels);
    ghost var done := LabelTokens(labelNames, labels);
    sum := HashToken(sum, ADDR, done);
    sum := HashToken(sum, addr, done + [ADDR]);
    assert done + [ADDR] + [addr] == Tokens(addr, labels);
  }

  method HashLabels(names: seq<bytes>, labels: map<bytes, bytes>) returns (sum: uint64)
    requires forall k :: k in names ==> k in labels
    ensures sum == HashOf(OFFSET64, Joined(LabelTokens(names, labels)))
  {
    hide HashOf;
    sum := OFFSET64;
    ghost var all := LabelTokens(names, labels);
    assert Joined(all[..0]) == [] && HashOf(OFFSET64, []) == OFFSET64 by { HashNothing(OFFSET64); }
    hide Joined;
    for i := 0 to |names|
      invariant sum == HashOf(OFFSET64, Joined(all[..2 * i]))
    {
      TokensAt(names, labels, i);
      sum := HashToken(sum, names[i], all[..2 * i]);
      sum := HashToken(sum, labels[names[i]], all[..2 * i + 1]);
    }
    assert all[..2 * |names|] == all;
  }

  lemma HashNothing(h: uint64)
    ensures HashOf(h, []) == h
  {
  }

  lemma TokensAt(names: seq<bytes>, labels: map<bytes, bytes>, i: nat)
    requires i < |names| && forall k :: k in names ==> k in labels
    ensures var all := LabelTokens(names, labels);
            && names[i] in labels
            && all[..2 * i] + [names[i]] == all[..2 * i + 1]
            && all[..2 * i + 1] + [labels[names[i]]] == all[..2 * (i + 1)]
  {
    assert names[i] in names;
  }

  // ---- what the key tells apart ----

  /** With labels, addresses of one length that differ in a single byte have different keys. */
  lemma AddressTold(a: bytes, b: bytes, labels: map<bytes, bytes>, i: nat)
    requires labels != map[] && |a| == |b| && i < |a| && a[i] != b[i]
    requires a[..i] == b[..i] && a[i + 1..] == b[i + 1..]
    ensures TaskIDOf(a, labels) != TaskIDOf(b, labels)
  {
    var p := LabelTokens(Names(labels), labels) + [ADDR];
    var pre := Joined(p);
    StreamSplits(a, labels);
    StreamSplits(b, labels);
    HashAppend(OFFSET64, pre, a + [SEPARATOR]);
    HashAppend(OFFSET64, pre, b + [SEPARATOR]);
    var s, t := a + [SEPARATOR], b + [SEPARATOR];
    assert s[..i] == a[..i] && t[..i] == b[..i];
    assert s[i + 1..] == a[i + 1..] + [SEPARATOR] && t[i + 1..] == b[i + 1..] + [SEPARATOR];
    OneByteDiffers(HashOf(OFFSET64, pre), s, t, i);
  }

  lemma StreamSplits(a: bytes, labels: map<bytes, bytes>)
    ensures Stream(a, labels)
         == Joined(LabelTokens(Names(labels), labels) + [ADDR]) + (a + [SEPARATOR])
  {
    var p := LabelTokens(Names(labels), labels) + [ADDR];
    assert p + [a] == Tokens(a, labels);
    JoinedOne(p, a);
  }

  /** Without labels the address plays no part. */
  lemma NoLabelsNoAddress(a: bytes, b: bytes)
    ensures TaskIDOf(a, map[]) == TaskIDOf(b, map[])
  {
  }

  /** Byte 255 does not occur in UTF-8. */
  predicate Plain(s: bytes) {
    SEPARATOR !in s
  }

  ghost predicate PlainLabels(labels: map<bytes, bytes>) {
    forall k :: k in labels ==> Plain(k) && Plain(labels[k])
  }

  lemma {:induction false} JoinedInjective(s: seq<bytes>, t: seq<bytes>)
    requires (forall x :: x in s ==> Plain(x)) && (forall x :: x in t ==> Plain(x))
    requires Joined(s) == Joined(t)
    ensures s == t
    decreases |s|
  {
    if s != [] && t != [] {
      assert s[0] in s && t[0] in t;
      FirstToken(s[0], Joined(s[1..]), t[0], Joined(t[1..]));
      JoinedInjective(s[1..], t[1..]);
    }
  }

  lemma FirstSeparator(x: bytes, p: bytes)
    requires Plain(x)
    ensures (x + [SEPARATOR] + p)[|x|] == SEPARATOR
    ensures forall i :: 0 <= i < |x| ==> (x + [SEPARATOR] + p)[i] != SEPARATOR
  {
  }

  lemma FirstToken(x: bytes, p: bytes, y: bytes, q: bytes)
    requires Plain(x) && Plain(y) && x + [SEPARATOR] + p == y + [SEPARATOR] + q
    ensures x == y && p == q
  {
    var s := x + [SEPARATOR] + p;
    FirstSeparator(x, p);
    FirstSeparator(y, q);
    assert x == s[..|x|] && y == s[..|y|];
    assert p == s[|x| + 1..] && q == s[|y| + 1..];
  }

  lemma TokensPlain(addr: bytes, labels: map<bytes, bytes>)
    requires PlainLabels(labels) && Plain(addr)
    ensures forall x :: x in Tokens(addr, labels) ==> Plain(x)
  {
    var names := Names(labels);
    var ts := Tokens(addr, labels);
    forall x | x in ts
      ensures Plain(x)
    {
      var i :| 0 <= i < |ts| && ts[i] == x;
      if i < 2 * |names| {
        assert names[i / 2] in names;
      }
    }
  }

  /** The stream determines both the label map and the address, even when a label is itself called "__addr__". */
  lemma StreamDetermines(a: bytes, l: map<bytes, bytes>, b: bytes, m: map<bytes, bytes>)
    requires PlainLabels(l) && PlainLabels(m) && Plain(a) && Plain(b)
    ensures Stream(a, l) == Stream(b, m) <==> a == b && l == m
  {
    if Stream(a, l) == Stream(b, m) {
      TokensPlain(a, l);
      TokensPlain(b, m);
      JoinedInjective(Tokens(a, l), Tokens(b, m));
      TokensDetermine(a, l, b, m);
    }
  }

  lemma TokensDetermine(a: bytes, l: map<bytes, bytes>, b: bytes, m: map<bytes, bytes>)
    requires Tokens(a, l) == Tokens(b, m)
    ensures a == b && l == m
  {
    var p, q := Names(l), Names(m);
    var ts := Tokens(a, l);
    assert |ts| == 2 * |p| + 2 == 2 * |q| + 2;
    assert ts[|ts| - 1] == a && Tokens(b, m)[|ts| - 1] == b;
    forall i | 0 <= i < |p|
      ensures p[i] == q[i] && l[p[i]] == m[q[i]]
    {
      assert p[i] in p && q[i] in q;
      assert ts[2 * i] == p[i] && Tokens(b, m)[2 * i] == q[i];
      assert ts[2 * i + 1] == l[p[i]] && Tokens(b, m)[2 * i + 1] == m[q[i]];
    }
    assert p == q;
    assert l.Keys == m.Keys;
    forall k | k in l
      ensures l[k] == m[k]
    {
      assert k in p;
    }
  }
}
