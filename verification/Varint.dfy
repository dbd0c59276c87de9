/** Base 128 varints: the writer, its size function and the decode loop. */
module Varint {
  import opened Base

  /** `bits.Len64`. */
  function BitLen(x: nat): nat {
    if x == 0 then 0 else 1 + BitLen(x / 2)
  }

  /** `sov`: the number of bytes the writer needs, from the bit length of `x | 1`. */
  function Sov(x: uint64): nat {
    (BitLen(if x % 2 == 0 then x + 1 else x) + 6) / 7
  }

  /** The base 128 form: seven bits a byte, least significant first. */
  function VarintBytes(v: nat): (b: bytes)
    ensures |b| >= 1
  {
    if v < 128 then [v] else [v % 128 + 128] + VarintBytes(v / 128)
  }

  /** Why a decoder stops before the end. All are errors that it returns, except the last: an index out of range
      is a run-time panic, from which it does not return. */
  datatype Error =
    | IntOverflow
    | UnexpectedEOF
    | InvalidLength
    | EndGroupForNonGroup
    | IllegalTag(fieldNum: int)
    | WrongWireType(wireType: nat, field: int)
    | UnexpectedEndOfGroup
    | IllegalWireType(wireTypeSeen: nat)
    | InvalidTime
    | IndexOutOfRange

  /** How a call ends that may panic. */
  datatype Outcome = Returned(err: Option<Error>) | Panicked

  function OutcomeOf(err: Option<Error>): Outcome {
    if err == Some(IndexOutOfRange) then Panicked else Returned(err)
  }

  datatype Read = Got(value: nat, n: nat) | Bad(err: Error)

  /** The bytes of one varint at the start of `s`, `k` bytes of it having been consumed: its value, not yet
      cut to 64 bits, and its size. Ten bytes is the limit (shift 63). */
  function RawVarint(s: bytes, k: nat): (r: Read)
    ensures r.Got? ==> 1 <= r.n <= |s| && k + r.n <= 10
    ensures r.Bad? ==> !r.err.IndexOutOfRange?
  {
    if k >= 10 then Bad(IntOverflow)
    else if s == [] then Bad(UnexpectedEOF)
    else if s[0] < 128 then Got(s[0], 1)
    else
      match RawVarint(s[1..], k + 1)
      case Got(v, n) => Got(s[0] - 128 + 128 * v, n + 1)
      case Bad(e) => Bad(e)
  }

  /** What the decode loop leaves in its 64-bit accumulator. */
  function Uvarint(s: bytes): (r: Read)
    ensures r.Got? ==> 1 <= r.n <= |s| && r.n <= 10 && r.value < TWO_64
    ensures r.Bad? ==> !r.err.IndexOutOfRange?
  {
    match RawVarint(s, 0)
    case Got(v, n) => Got(v % TWO_64, n)
    case Bad(e) => Bad(e)
  }

  // ---- size ----

  lemma BitLenShift(x: nat)
    ensures x >= 128 ==> BitLen(x) == 7 + BitLen(x / 128)
    ensures 1 <= x < 128 ==> 1 <= BitLen(x) <= 7
  {
    var a, b, c := x / 2, x / 4, x / 8;
    var d, e, f := x / 16, x / 32, x / 64;
    assert a / 2 == b && b / 2 == c && c / 2 == d && d / 2 == e && e / 2 == f && f / 2 == x / 128;
    assert BitLen(x) <= 1 + BitLen(a);
    assert BitLen(a) <= 1 + BitLen(b);
    assert BitLen(b) <= 1 + BitLen(c);
    assert BitLen(c) <= 1 + BitLen(d);
    assert BitLen(d) <= 1 + BitLen(e);
    assert BitLen(e) <= 1 + BitLen(f);
    assert BitLen(f) <= 1 + BitLen(x / 128);
  }

  /** Setting the low bit, as `sov` does, matters for zero only. */
  lemma BitLenOdd(x: nat)
    ensures x >= 1 ==> BitLen(if x % 2 == 0 then x + 1 else x) == BitLen(x)
    ensures x >= 128 ==> (if x % 2 == 0 then x + 1 else x) / 128 == x / 128
  {
  }

  lemma {:induction false} SovIsLength(v: uint64)
    ensures Sov(v) == |VarintBytes(v)|
  {
    hide BitLen;
    BitLenOdd(v);
    BitLenOdd(v / 128);
    BitLenShift(if v % 2 == 0 then v + 1 else v);
    if v >= 128 {
      SovIsLength(v / 128);
    }
  }

  /** No shorter byte string could hold the value: n bytes decode to less than 128^n. */
  lemma {:induction false} RawAtLeast(s: bytes, k: nat, v: nat)
    requires RawVarint(s, k).Got? && v <= RawVarint(s, k).value
    ensures |VarintBytes(v)| <= RawVarint(s, k).n
  {
    if s[0] >= 128 && v >= 128 {
      RawAtLeast(s[1..], k + 1, v / 128);
    }
  }

  lemma VarintMonotone(v: nat, w: nat)
    requires v <= w
    ensures |VarintBytes(v)| <= |VarintBytes(w)|
  {
    if v >= 128 {
      VarintMonotone(v / 128, w / 128);
    }
  }

  /** The writer is minimal: whatever bytes a reader takes for a varint, writing the value back needs no more. */
  lemma VarintMinimal(s: bytes)
    requires Uvarint(s).Got?
    ensures |VarintBytes(Uvarint(s).value)| <= Uvarint(s).n
  {
    RawAtLeast(s, 0, Uvarint(s).value);
  }

  // ---- round trip ----

  lemma {:induction false} RawOfBytes(v: nat, t: bytes, k: nat)
    requires k + |VarintBytes(v)| <= 10
    ensures RawVarint(VarintBytes(v) + t, k) == Got(v, |VarintBytes(v)|)
  {
    if v >= 128 {
      assert (VarintBytes(v) + t)[1..] == VarintBytes(v / 128) + t;
      RawOfBytes(v / 128, t, k + 1);
    }
  }

  lemma {:induction false} VarintBytesBound(v: nat, n: nat, bound: nat)
    requires n >= 1 && v < bound && bound == Pow128(n)
    ensures |VarintBytes(v)| <= n
  {
    if v >= 128 {
      assert n >= 2 && v / 128 < Pow128(n - 1);
      VarintBytesBound(v / 128, n - 1, Pow128(n - 1));
    }
  }

  function Pow128(n: nat): (p: nat)
    ensures p >= 1
  {
    if n == 0 then 1 else 128 * Pow128(n - 1)
  }

  lemma Pow128Ten()
    ensures Pow128(9) == TWO_63 && Pow128(10) == 128 * TWO_63
  {
    assert Pow128(1) == 128 && Pow128(2) == 128 * 128 && Pow128(3) == 0x20_0000;
    assert Pow128(4) == 0x1000_0000 && Pow128(5) == 0x8_0000_0000 && Pow128(6) == 0x400_0000_0000;
    assert Pow128(7) == 0x2_0000_0000_0000 && Pow128(8) == 0x100_0000_0000_0000;
  }

  /** Every uint64 is written in one to ten bytes and read back from exactly those bytes, whatever follows. */
  lemma VarintRoundTrip(v: uint64, t: bytes)
    ensures 1 <= |VarintBytes(v)| <= 10
    ensures Uvarint(VarintBytes(v) + t) == Got(v, |VarintBytes(v)|)
  {
    Pow128Ten();
    VarintBytesBound(v, 10, Pow128(10));
    RawOfBytes(v, t, 0);
  }

  /** A varint is read from its own bytes only. */
  lemma {:induction false} RawLocal(s: bytes, t: bytes, k: nat)
    requires RawVarint(s, k).Got?
    ensures RawVarint(s + t, k) == RawVarint(s, k)
  {
    if s[0] >= 128 {
      assert (s + t)[1..] == s[1..] + t;
      RawLocal(s[1..], t, k + 1);
    }
  }

  lemma {:induction false} RawPrefix(s: bytes, k: nat)
    requires RawVarint(s, k).Got?
    ensures RawVarint(s[..RawVarint(s, k).n], k) == RawVarint(s, k)
  {
    var n := RawVarint(s, k).n;
    if s[0] >= 128 {
      assert s[..n][1..] == s[1..][..n - 1];
      RawPrefix(s[1..], k + 1);
    }
  }

  lemma VarintLocal(s: bytes, t: bytes)
    requires Uvarint(s).Got?
    ensures Uvarint(s + t) == Uvarint(s)
    ensures Uvarint(s[..Uvarint(s).n]) == Uvarint(s)
  {
    RawLocal(s, t, 0);
    RawPrefix(s, 0);
  }

  // ---- the loops ----

  lemma WriteGroup(done: bytes, v: nat)
    ensures v < 128 ==> done + VarintBytes(v) == done + [v]
    ensures v >= 128 ==> done + VarintBytes(v) == done + [v % 128 + 128] + VarintBytes(v / 128)
    ensures v >= 128 ==> |VarintBytes(v)| == 1 + |VarintBytes(v / 128)|
  {
    if v >= 128 {
      Regroup(done, v % 128 + 128, VarintBytes(v / 128));
    }
  }

  lemma Regroup(a: bytes, b: byte, c: bytes)
    ensures a + ([b] + c) == a + [b] + c
  {
  }

  /** The writer: fills `dAtA[base..offset]` and nothing else. */
  method EncodeVarint(dAtA: array<byte>, offset: nat, v: uint64) returns (base: nat)
    requires Sov(v) <= offset <= dAtA.Length
    modifies dAtA
    ensures base == offset - Sov(v)
    ensures dAtA[base..offset] == VarintBytes(v)
    ensures dAtA[..base] == old(dAtA[..base]) && dAtA[offset..] == old(dAtA[offset..])
  {
    hide Sov, VarintBytes;
    SovIsLength(v);
    base := offset - Sov(v);
    var i, v := base, v as nat;
    ghost var v0, done: bytes := v, [];
    while v >= 128
      invariant base <= i && i + |VarintBytes(v)| == offset
      invariant done == dAtA[base..i] && done + VarintBytes(v) == VarintBytes(v0)
      invariant dAtA[..base] == old(dAtA[..base]) && dAtA[offset..] == old(dAtA[offset..])
    {
      WriteGroup(done, v);
      dAtA[i] := v % 128 + 128;
      i := i + 1;
      assert dAtA[base..i] == done + [dAtA[i - 1]];
      done := dAtA[base..i];
      v := v / 128;
    }
    WriteGroup(done, v);
    dAtA[i] := v;
    assert dAtA[base..offset] == done + [v];
  }

  /** The accumulator after one more group: the bits shifted past the 64th are lost. */
  function Accumulate(acc: nat, group: nat, p: nat): uint64 {
    (acc + group * p) % TWO_64
  }

  /** With `acc` accumulated from the `used` bytes before `rest`, the loop will end in `r`. */
  ghost predicate Heading(r: Read, rest: bytes, k: nat, used: nat, acc: nat) {
    r == match RawVarint(rest, k)
         case Got(v, n) => Got(Accumulate(acc, v, Pow128(k)), used + n)
         case Bad(e) => Bad(e)
  }

  lemma AccumulateStep(acc: nat, p: nat, b: nat, v: nat)
    ensures Accumulate(Accumulate(acc, b, p), v, 128 * p) == Accumulate(acc, b + 128 * v, p)
  {
    var x := acc + b * p;
    var y := v * (128 * p);
    assert (b + 128 * v) * p == b * p + y;
    ModDrop(x % TWO_64 + y, x / TWO_64);
  }

  lemma ModDrop(z: nat, q: nat)
    ensures (z + q * TWO_64) % TWO_64 == z % TWO_64
  {
  }

  lemma HeadingEnds(s: bytes, r: Read, rest: bytes, k: nat, used: nat, acc: nat)
    ensures Heading(Uvarint(s), s, 0, 0, 0)
    ensures Heading(r, rest, k, used, acc) && k >= 10 ==> r == Bad(IntOverflow)
    ensures Heading(r, rest, k, used, acc) && k < 10 && rest == [] ==> r == Bad(UnexpectedEOF)
  {
  }

  lemma HeadingStep(r: Read, rest: bytes, k: nat, used: nat, acc: nat)
    requires Heading(r, rest, k, used, acc) && k < 10 && rest != []
    ensures rest[0] < 128 ==> r == Got(Accumulate(acc, rest[0], Pow128(k)), used + 1)
    ensures rest[0] >= 128 ==> Heading(r, rest[1..], k + 1, used + 1, Accumulate(acc, rest[0] - 128, Pow128(k)))
  {
    if rest[0] >= 128 && RawVarint(rest[1..], k + 1).Got? {
      AccumulateStep(acc, Pow128(k), rest[0] - 128, RawVarint(rest[1..], k + 1).value);
    }
  }

  /** The i-th bit. */
  function Bit(x: nat, i: nat): nat {
    if i == 0 then x % 2 else Bit(x / 2, i - 1)
  }

  /** Inclusive or, bit by bit. */
  function Or(x: nat, y: nat): nat
    decreases x + y
  {
    if x == 0 && y == 0 then 0 else (if x % 2 == 1 || y % 2 == 1 then 1 else 0) + 2 * Or(x / 2, y / 2)
  }

  lemma {:induction false} OrBits(x: nat, y: nat, i: nat)
    ensures Bit(Or(x, y), i) == if Bit(x, i) == 1 || Bit(y, i) == 1 then 1 else 0
    decreases i
  {
    OrHalves(x, y);
    if i > 0 {
      OrBits(x / 2, y / 2, i - 1);
    }
  }

  lemma {:induction false} OrNothing(y: nat)
    ensures Or(0, y) == y
    decreases y
  {
    if y > 0 {
      OrNothing(y / 2);
    }
  }

  /** Or-ing bits above those already there adds them. */
  lemma {:induction false} OrIsSum(x: nat, g: nat, k: nat)
    requires x < ShiftLeft(k)
    ensures Or(x, g * ShiftLeft(k)) == x + g * ShiftLeft(k)
    decreases k
  {
    if k == 0 {
      OrNothing(g);
    } else {
      var y := g * ShiftLeft(k - 1);
      assert g * ShiftLeft(k) == 2 * y;
      OrIsSum(x / 2, g, k - 1);
    }
  }

  lemma {:induction false} PowAtMost(k: nat, n: nat)
    requires k <= n
    ensures Pow128(k) <= Pow128(n)
  {
    if k < n {
      PowAtMost(k, n - 1);
    }
  }

  /** One turn of the loop on 64-bit words: the group is shifted, what passes the 64th bit is lost, and the rest
      is or-ed into bits that are still clear. */
  lemma OrIsAccumulate(wire: nat, g: nat, k: nat)
    requires k < 10 && wire < Pow128(k) && g < 128
    ensures Or(wire, g * ShiftLeft(7 * k) % TWO_64) == Accumulate(wire, g, ShiftLeft(7 * k)) < Pow128(k + 1)
  {
    hide Or, ShiftLeft, Pow128;
    ShiftLeftIsPow(k);
    Pow128Ten();
    NextPow(k);
    if k < 9 {
      PowAtMost(k + 1, 9);
      LowGroup(wire, g, Pow128(k));
      OrIsSum(wire, g, 7 * k);
    } else {
      TopGroup(wire, g);
      OrIsSum(wire, g % 2, 7 * k);
    }
  }

  lemma NextPow(k: nat)
    ensures Pow128(k + 1) == 128 * Pow128(k)
  {
  }

  lemma LowGroup(wire: nat, g: nat, p: nat)
    requires wire < p && g < 128 && 128 * p <= TWO_63
    ensures g * p % TWO_64 == g * p && Accumulate(wire, g, p) == wire + g * p < 128 * p
  {
    assert g * p + p == (g + 1) * p <= 128 * p;
  }

  lemma TopGroup(wire: nat, g: nat)
    requires wire < TWO_63
    ensures g * TWO_63 % TWO_64 == g % 2 * TWO_63
    ensures Accumulate(wire, g, TWO_63) == wire + g % 2 * TWO_63 < TWO_64
  {
    ModDrop(g % 2 * TWO_63, g / 2);
    ModDrop(wire + g % 2 * TWO_63, g / 2);
  }

  /** One turn of the loop: what ends it, and what the accumulator holds after it. */
  lemma {:induction false} ReadTurn(r: Read, rest: bytes, k: nat, used: nat, wire: nat)
    requires Heading(r, rest, k, used, wire) && wire < Pow128(k)
    ensures 7 * k >= 64 ==> r == Bad(IntOverflow)
    ensures 7 * k < 64 && rest == [] ==> r == Bad(UnexpectedEOF)
    ensures 7 * k < 64 && rest != [] ==>
              var next := Or(wire, rest[0] % 128 * ShiftLeft(7 * k) % TWO_64);
              && next == Accumulate(wire, rest[0] % 128, Pow128(k)) < Pow128(k + 1)
              && (rest[0] < 128 ==> r == Got(next, used + 1))
              && (rest[0] >= 128 ==> Heading(r, rest[1..], k + 1, used + 1, next))
  {
    hide RawVarint, Uvarint, Heading, Accumulate, Or, Pow128, ShiftLeft;
    HeadingEnds([], r, rest, k, used, wire);
    if 7 * k < 64 && rest != [] {
      HeadingStep(r, rest, k, used, wire);
      ShiftLeftIsPow(k);
      OrIsAccumulate(wire, rest[0] % 128, k);
    }
  }

  lemma {:induction false} ReadStart(s: bytes)
    ensures Heading(Uvarint(s), s, 0, 0, 0) && Pow128(0) == 1
  {
    HeadingEnds(s, Bad(UnexpectedEOF), [], 0, 0, 0);
  }

  /** The shift loop that the generated code repeats in line wherever it reads a varint. */
  method ReadVarint(dAtA: bytes, start: nat) returns (r: Read)
    requires start <= |dAtA|
    ensures r == Uvarint(dAtA[start..])
  {
    hide RawVarint, Uvarint, Heading, Accumulate, Or, Pow128, ShiftLeft;
    var iNdEx, shift, wire: nat := start, 0, 0;
    ghost var k, all := 0, Uvarint(dAtA[start..]);
    ReadStart(dAtA[start..]);
    while true
      invariant start <= iNdEx <= |dAtA| && shift == 7 * k && wire < Pow128(k)
      invariant Heading(all, dAtA[iNdEx..], k, iNdEx - start, wire)
      decreases |dAtA| - iNdEx
    {
      ReadTurn(all, dAtA[iNdEx..], k, iNdEx - start, wire);
      if shift >= 64 { return Bad(IntOverflow); }
      if iNdEx >= |dAtA| { return Bad(UnexpectedEOF); }
      var b := dAtA[iNdEx];
      assert dAtA[iNdEx..][1..] == dAtA[iNdEx + 1..];
      iNdEx := iNdEx + 1;
      wire := Or(wire, b % 128 * ShiftLeft(shift) % TWO_64);
      if b < 128 { return Got(wire, iNdEx - start); }
      shift := shift + 7;
      k := k + 1;
    }
  }

  /** `1 << shift`. */
  function ShiftLeft(shift: nat): (p: nat)
    ensures p >= 1
  {
    if shift == 0 then 1 else 2 * ShiftLeft(shift - 1)
  }

  lemma {:induction false} ShiftLeftIsPow(k: nat)
    ensures ShiftLeft(7 * k) == Pow128(k)
  {
    if k > 0 {
      ShiftLeftIsPow(k - 1);
      var n := 7 * k;
      assert ShiftLeft(n) == 2 * ShiftLeft(n - 1);
      assert ShiftLeft(n - 1) == 2 * ShiftLeft(n - 2);
      assert ShiftLeft(n - 2) == 2 * ShiftLeft(n - 3);
      assert ShiftLeft(n - 3) == 2 * ShiftLeft(n - 4);
      assert ShiftLeft(n - 4) == 2 * ShiftLeft(n - 5);
      assert ShiftLeft(n - 5) == 2 * ShiftLeft(n - 6);
      assert ShiftLeft(n - 6) == 2 * ShiftLeft(n - 7);
    }
  }

  // ---- the loop on a 32-bit word ----

  /** The bits of the varint at the start of `s`, or of as much of it as there is before the loop gives up. */
  function Bits(s: bytes, k: nat): nat {
    if k >= 10 || s == [] then 0
    else if s[0] < 128 then s[0]
    else s[0] - 128 + 128 * Bits(s[1..], k + 1)
  }

  lemma {:induction false} BitsAreValue(s: bytes, k: nat)
    requires RawVarint(s, k).Got?
    ensures Bits(s, k) == RawVarint(s, k).value
  {
    if s[0] >= 128 {
      BitsAreValue(s[1..], k + 1);
    }
  }

  /** A 32-bit word that a whole varint was read into is its value, cut. */
  lemma {:induction false} WordOfVarint(s: bytes)
    requires Uvarint(s).Got?
    ensures ToInt32(Bits(s, 0)) == ToInt32(Uvarint(s).value)
  {
    BitsAreValue(s, 0);
    ModLow(Bits(s, 0));
  }

  /** The low `n` bits. */
  function Low(x: nat, n: nat): nat {
    if n == 0 then 0 else x % 2 + 2 * Low(x / 2, n - 1)
  }

  function High(x: nat, n: nat): nat {
    if n == 0 then x else High(x / 2, n - 1)
  }

  lemma TwiceProduct(m: nat, h: nat)
    ensures 2 * m * h == 2 * (m * h)
  {
  }

  lemma {:induction false} LowHigh(x: nat, n: nat)
    ensures x == ShiftLeft(n) * High(x, n) + Low(x, n) && Low(x, n) < ShiftLeft(n)
  {
    if n > 0 {
      LowHigh(x / 2, n - 1);
      TwiceProduct(ShiftLeft(n - 1), High(x / 2, n - 1));
    }
  }

  /** The low bits of an or are the or of the low bits. */
  lemma {:induction false} OrLow(x: nat, y: nat, n: nat)
    ensures Low(Or(x, y), n) == Or(Low(x, n), Low(y, n))
    decreases n
  {
    OrNothing(0);
    if n > 0 {
      OrHalves(x, y);
      OrHalves(Low(x, n), Low(y, n));
      OrLow(x / 2, y / 2, n - 1);
    }
  }

  lemma {:induction false} OrHalves(x: nat, y: nat)
    ensures Or(x, y) % 2 == (if x % 2 == 1 || y % 2 == 1 then 1 else 0) && Or(x, y) / 2 == Or(x / 2, y / 2)
  {
    if x == 0 && y == 0 {
      OrNothing(0);
    }
  }

  lemma LowWord(x: nat)
    ensures Low(x, 32) == x % TWO_32
  {
    hide Low, High, ShiftLeft;
    WordSize();
    LowHigh(x, 32);
  }

  lemma ModLow(x: nat)
    ensures x % TWO_64 % TWO_32 == x % TWO_32
  {
    assert x == x / TWO_64 * TWO_64 + x % TWO_64;
  }

  lemma WordSize()
    ensures ShiftLeft(32) == TWO_32
  {
    assert ShiftLeft(8) == 256 by {
      assert ShiftLeft(4) == 16;
    }
    assert ShiftLeft(16) == 256 * 256 by {
      assert ShiftLeft(12) == 16 * 256;
    }
    assert ShiftLeft(24) == 256 * 256 * 256 by {
      assert ShiftLeft(20) == 16 * 256 * 256;
    }
    assert ShiftLeft(28) == 16 * 256 * 256 * 256;
  }

  /** A turn on the 32-bit word does to it what the turn on 64 bits does to its low half. */
  lemma OrLowWord(wire: nat, x: nat)
    ensures Or(wire, x % TWO_64) % TWO_32 == Or(wire % TWO_32, x % TWO_32)
  {
    hide Or, Low;
    OrLow(wire, x % TWO_64, 32);
    LowWord(Or(wire, x % TWO_64));
    LowWord(wire);
    LowWord(x % TWO_64);
    ModLow(x);
  }

  /** What becomes of the accumulator on the way: it will hold the bits. */
  ghost predicate Gathering(s: bytes, rest: bytes, k: nat, acc: nat) {
    Accumulate(acc, Bits(rest, k), Pow128(k)) == Bits(s, 0) % TWO_64
  }

  lemma GatheringEnds(s: bytes, rest: bytes, k: nat, acc: nat)
    ensures Gathering(s, s, 0, 0)
    ensures Gathering(s, rest, k, acc) && (k >= 10 || rest == []) ==> acc % TWO_32 == Bits(s, 0) % TWO_32
  {
    ModLow(acc);
    ModLow(Bits(s, 0));
  }

  lemma BitsFirst(rest: bytes, k: nat)
    requires k < 10 && rest != []
    ensures Bits(rest, k) == if rest[0] < 128 then rest[0] else rest[0] - 128 + 128 * Bits(rest[1..], k + 1)
  {
  }

  lemma {:induction false} GatheringStep(s: bytes, rest: bytes, k: nat, acc: nat)
    requires Gathering(s, rest, k, acc) && k < 10 && rest != []
    ensures var next := Accumulate(acc, rest[0] % 128, Pow128(k));
            && (rest[0] < 128 ==> next % TWO_32 == Bits(s, 0) % TWO_32)
            && (rest[0] >= 128 ==> Gathering(s, rest[1..], k + 1, next))
  {
    hide Bits, Pow128, Accumulate;
    BitsFirst(rest, k);
    ModLow(Bits(s, 0));
    NextPow(k);
    if rest[0] >= 128 {
      AccumulateStep(acc, Pow128(k), rest[0] - 128, Bits(rest[1..], k + 1));
    }
  }

  /** The shift loop into a 32-bit word: what it holds, also when the loop gives up, and how the loop ends. */
  method ReadWord(dAtA: bytes, start: nat) returns (word: nat, r: Read)
    requires start <= |dAtA|
    ensures word == Bits(dAtA[start..], 0) % TWO_32
    ensures r == match Uvarint(dAtA[start..]) case Got(_, n) => Got(word, n) case Bad(e) => Bad(e)
  {
    hide RawVarint, Uvarint, Heading, Gathering, Accumulate, Or, Pow128, Bits, ShiftLeft;
    var iNdEx, shift := start, 0;
    word := 0;
    ghost var k, s := 0, dAtA[start..];
    ghost var wire: nat := 0;
    ReadStart(s);
    GatheringEnds(s, s, 0, 0);
    while true
      invariant start <= iNdEx <= |dAtA| && shift == 7 * k && wire < Pow128(k) && word == wire % TWO_32
      invariant Heading(Uvarint(s), dAtA[iNdEx..], k, iNdEx - start, wire) && Gathering(s, dAtA[iNdEx..], k, wire)
      decreases |dAtA| - iNdEx
    {
      ReadTurn(Uvarint(s), dAtA[iNdEx..], k, iNdEx - start, wire);
      GatheringEnds(s, dAtA[iNdEx..], k, wire);
      if shift >= 64 { return word, Bad(IntOverflow); }
      if iNdEx >= |dAtA| { return word, Bad(UnexpectedEOF); }
      var b := dAtA[iNdEx];
      assert dAtA[iNdEx..][1..] == dAtA[iNdEx + 1..];
      GatheringStep(s, dAtA[iNdEx..], k, wire);
      OrLowWord(wire, b % 128 * ShiftLeft(shift));
      iNdEx := iNdEx + 1;
      word := Or(word, b % 128 * ShiftLeft(shift) % TWO_32);
      wire := Accumulate(wire, b % 128, Pow128(k));
      if b < 128 { return word, Got(word, iNdEx - start); }
      shift := shift + 7;
      k := k + 1;
    }
  }
}
