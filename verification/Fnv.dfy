/** The 64-bit FNV-1a hash. */
module Fnv {
  import opened Base
  import opened Varint

  const OFFSET64: uint64 := 14695981039346656037
  const PRIME64: uint64 := 1099511628211

  /** Exclusive or, bit by bit. */
  function Xor(x: nat, y: nat): nat
    decreases x + y
  {
    if x == 0 && y == 0 then 0 else (if x % 2 == y % 2 then 0 else 1) + 2 * Xor(x / 2, y / 2)
  }

  /** One step: `h ^= b; h *= prime64` on 64 bits. */
  function HashStep(h: uint64, b: byte): uint64 {
    Xor(h, b) * PRIME64 % TWO_64
  }

  function HashOf(h: uint64, s: bytes): uint64
    decreases |s|
  {
    if s == [] then h else HashOf(HashStep(h, s[0]), s[1..])
  }

  method HashAdd(h0: uint64, s: bytes) returns (h: uint64)
    ensures h == HashOf(h0, s)
  {
    h := h0;
    assert s[0..] == s;
    for i := 0 to |s|
      invariant HashOf(h0, s) == HashOf(h, s[i..])
    {
      assert s[i..][1..] == s[i + 1..];
      var x := Xor(h, s[i]);
      h := x * PRIME64 % TWO_64;
    }
  }

  method HashAddByte(h0: uint64, b: byte) returns (h: uint64)
    ensures h == HashOf(h0, [b])
  {
    assert [b][1..] == [];
    var x := Xor(h0, b);
    h := x * PRIME64 % TWO_64;
  }

  lemma {:induction false} HashAppend(h: uint64, s: bytes, t: bytes)
    ensures HashOf(h, s + t) == HashOf(HashOf(h, s), t)
    decreases |s|
  {
    hide HashStep;
    if s == [] {
      assert s + t == t;
    } else {
      assert (s + t)[1..] == s[1..] + t;
      HashAppend(HashStep(h, s[0]), s[1..], t);
    }
  }

  // ---- every step can be undone ----

  /** The inverse of the prime modulo 2^64; the prime is odd. */
  const INVERSE: uint64 := 14886173955864302971
  const QUOTIENT: nat := 887285111055

  function UnStep(h: uint64, b: byte): nat {
    Xor(h * INVERSE % TWO_64, b)
  }

  lemma {:induction false} XorTwice(x: nat, y: nat)
    ensures Xor(Xor(x, y), y) == x
    decreases x + y
  {
    if x != 0 || y != 0 {
      XorTwice(x / 2, y / 2);
      var z := Xor(x, y);
      assert z % 2 == (if x % 2 == y % 2 then 0 else 1) && z / 2 == Xor(x / 2, y / 2);
    }
  }

  lemma {:induction false} XorBound(x: nat, y: nat, n: nat)
    requires x < ShiftLeft(n) && y < ShiftLeft(n)
    ensures Xor(x, y) < ShiftLeft(n)
  {
    if n > 0 {
      XorBound(x / 2, y / 2, n - 1);
    }
  }

  lemma XorWord(x: uint64, b: byte)
    ensures Xor(x, b) < TWO_64
  {
    ShiftLeftIsPow(9);
    Pow128Ten();
    assert ShiftLeft(64) == 2 * ShiftLeft(63) == TWO_64;
    XorBound(x, b, 64);
  }

  lemma ModUnique(x: int, h: int, k: int)
    requires 0 <= h < TWO_64 && x == h + k * TWO_64
    ensures x % TWO_64 == h
  {
  }

  lemma {:induction false} TimesInverse(h: uint64, p: uint64, q: uint64, k: nat)
    requires p * q == 1 + k * TWO_64
    ensures h * p % TWO_64 * q % TWO_64 == h
  {
    var u := h * p;
    var r := u % TWO_64;
    var d := u / TWO_64;
    assert u == d * TWO_64 + r;
    calc {
      r * q;
      (u - d * TWO_64) * q;
      u * q - d * TWO_64 * q;
      { Reassociate(h, p, q, d); }
      h * (p * q) - d * q * TWO_64;
      { Expand(h, k); }
      h + (h * k - d * q) * TWO_64;
    }
    ModUnique(r * q, h, h * k - d * q);
  }

  lemma Reassociate(h: int, p: int, q: int, d: int)
    ensures h * p * q - d * TWO_64 * q == h * (p * q) - d * q * TWO_64
  {
  }

  lemma Expand(h: int, k: int)
    ensures h * (1 + k * TWO_64) == h + h * k * TWO_64
  {
  }

  lemma PrimeInverse()
    ensures PRIME64 * INVERSE == 1 + QUOTIENT * TWO_64
  {
  }

  /** Each step is a bijection on 64-bit words. */
  lemma {:induction false} StepUndone(h: uint64, b: byte)
    ensures UnStep(HashStep(h, b), b) == h
    ensures UnStep(h, b) < TWO_64 && HashStep(UnStep(h, b), b) == h
  {
    hide Xor;
    PrimeInverse();
    XorWord(h, b);
    XorTwice(h, b);
    TimesInverse(Xor(h, b), PRIME64, INVERSE, QUOTIENT);
    var w := h * INVERSE % TWO_64;
    XorWord(w, b);
    XorTwice(w, b);
    TimesInverse(h, INVERSE, PRIME64, QUOTIENT);
  }

  /** So the hash of a given string, as a function of where it starts, is a bijection too. */
  lemma {:induction false} HashInjective(h: uint64, g: uint64, s: bytes)
    requires HashOf(h, s) == HashOf(g, s)
    ensures h == g
    decreases |s|
  {
    hide HashStep, UnStep;
    if s != [] {
      HashInjective(HashStep(h, s[0]), HashStep(g, s[0]), s[1..]);
      StepUndone(h, s[0]);
      StepUndone(g, s[0]);
    }
  }

  lemma {:induction false} HashSurjective(h: uint64, s: bytes) returns (g: uint64)
    ensures HashOf(g, s) == h
    decreases |s|
  {
    hide HashStep, UnStep;
    g := h;
    if s != [] {
      var m := HashSurjective(h, s[1..]);
      StepUndone(m, s[0]);
      g := UnStep(m, s[0]);
    }
  }

  /** Two strings that differ in exactly one byte never hash alike from the same start. */
  lemma {:induction false} OneByteDiffers(h: uint64, s: bytes, t: bytes, i: nat)
    requires |s| == |t| && i < |s| && s[i] != t[i]
    requires s[..i] == t[..i] && s[i + 1..] == t[i + 1..]
    ensures HashOf(h, s) != HashOf(h, t)
  {
    var a, c := s[..i], s[i + 1..];
    assert s == a + ([s[i]] + c) && t == a + ([t[i]] + c);
    HashAppend(h, a, [s[i]] + c);
    HashAppend(h, a, [t[i]] + c);
    var g := HashOf(h, a);
    HashOne(g, s[i], c);
    HashOne(g, t[i], c);
    if HashOf(h, s) == HashOf(h, t) {
      HashInjective(HashStep(g, s[i]), HashStep(g, t[i]), c);
      StepsDiffer(g, s[i], t[i]);
    }
  }

  lemma HashOne(g: uint64, b: byte, c: bytes)
    ensures HashOf(g, [b] + c) == HashOf(HashStep(g, b), c)
  {
    assert ([b] + c)[1..] == c;
  }

  lemma {:induction false} StepsDiffer(g: uint64, a: byte, b: byte)
    requires HashStep(g, a) == HashStep(g, b)
    ensures a == b
  {
    hide Xor;
    PrimeInverse();
    XorWord(g, a);
    XorWord(g, b);
    TimesInverse(Xor(g, a), PRIME64, INVERSE, QUOTIENT);
    TimesInverse(Xor(g, b), PRIME64, INVERSE, QUOTIENT);
    XorSame(g, a, b);
  }

  lemma {:induction false} XorSame(g: nat, a: nat, b: nat)
    requires Xor(g, a) == Xor(g, b)
    ensures a == b
    decreases g + a + b
  {
    if g != 0 || a != 0 || b != 0 {
      var x, y := Xor(g, a), Xor(g, b);
      assert x % 2 == y % 2 && x / 2 == y / 2;
      XorParts(g, a);
      XorParts(g, b);
      XorSame(g / 2, a / 2, b / 2);
    }
  }

  lemma XorParts(x: nat, y: nat)
    ensures Xor(x, y) % 2 == (if x % 2 == y % 2 then 0 else 1) && Xor(x, y) / 2 == Xor(x / 2, y / 2)
  {
  }

  // ---- what is published of the hash ----

  /** Exclusive or is the sum of the bits, each for itself. */
  lemma {:induction false} XorBits(x: nat, y: nat, i: nat)
    ensures Bit(Xor(x, y), i) == (Bit(x, i) + Bit(y, i)) % 2
    decreases i
  {
    XorParts(x, y);
    if i > 0 {
      XorBits(x / 2, y / 2, i - 1);
    }
  }

  lemma {:induction false} XorNothing(x: nat)
    ensures Xor(x, 0) == x
    decreases x
  {
    if x > 0 {
      XorNothing(x / 2);
    }
  }

  /** The high bits of a word are not touched by a byte. */
  lemma {:induction false} XorHigh(q: nat, l: nat, y: nat, n: nat)
    requires l < ShiftLeft(n) && y < ShiftLeft(n)
    ensures Xor(ShiftLeft(n) * q + l, y) == ShiftLeft(n) * q + Xor(l, y)
    decreases n
  {
    if n == 0 {
      XorNothing(q);
      XorNothing(0);
    } else {
      hide Xor, BitOf;
      TwiceProduct(ShiftLeft(n - 1), q);
      XorEven(ShiftLeft(n - 1) * q, l, y);
      XorHalf(l, y, l / 2, y / 2);
      XorHigh(q, l / 2, y / 2, n - 1);
    }
  }

  lemma XorEven(p: nat, l: nat, y: nat)
    ensures Xor(2 * p + l, y) == BitOf(l, y, 1) + 2 * Xor(p + l / 2, y / 2)
  {
    XorParts(2 * p + l, y);
  }

  function BitOf(l: nat, b: nat, i: nat): nat {
    if l % 2 == b % 2 then 0 else i
  }

  /** The exclusive or of two bytes, written out. */
  function ByteXor(l: nat, b: nat): nat {
    BitOf(l, b, 1) + BitOf(l / 2, b / 2, 2) + BitOf(l / 4, b / 4, 4) + BitOf(l / 8, b / 8, 8)
    + BitOf(l / 16, b / 16, 16) + BitOf(l / 32, b / 32, 32) + BitOf(l / 64, b / 64, 64) + BitOf(l / 128, b / 128, 128)
  }

  lemma XorHalf(l: nat, b: nat, l': nat, b': nat)
    requires l' == l / 2 && b' == b / 2
    ensures Xor(l, b) == BitOf(l, b, 1) + 2 * Xor(l', b')
  {
    XorParts(l, b);
  }

  lemma {:induction false} XorOfBytes(l: byte, b: byte)
    ensures Xor(l, b) == ByteXor(l, b)
  {
    hide Xor;
    XorHalf(l, b, l / 2, b / 2);
    XorHalf(l / 2, b / 2, l / 4, b / 4);
    XorHalf(l / 4, b / 4, l / 8, b / 8);
    XorHalf(l / 8, b / 8, l / 16, b / 16);
    XorHalf(l / 16, b / 16, l / 32, b / 32);
    XorHalf(l / 32, b / 32, l / 64, b / 64);
    XorHalf(l / 64, b / 64, l / 128, b / 128);
    XorHalf(l / 128, b / 128, 0, 0);
    XorNothing(0);
  }

  /** One step, with the exclusive or and the quotient of the product given. */
  lemma {:induction false} StepGives(h: uint64, b: byte, rest: bytes, x: uint64, k: nat, next: uint64)
    requires x / 256 == h / 256 && x % 256 == ByteXor(h % 256, b)
    requires x * 1099511628211 == k * 0x1_0000_0000_0000_0000 + next
    ensures HashOf(h, [b] + rest) == HashOf(next, rest)
  {
    hide Xor, ByteXor, HashOf;
    assert ShiftLeft(8) == 256 by {
      assert ShiftLeft(4) == 16;
    }
    XorHigh(h / 256, h % 256, b, 8);
    XorOfBytes(h % 256, b);
    assert Xor(h, b) == x;
    ModUnique(x * PRIME64, next, k);
    HashOne(h, b, rest);
  }

  /** The 64-bit FNV-1a hash of "a" is af63dc4c8601ec8c. */
  lemma {:induction false} HashOfA()
    ensures HashOf(OFFSET64, [0x61]) == 0xaf63dc4c8601ec8c
  {
    hide HashOf, HashStep, Xor;
    StepGives(0xcbf29ce484222325, 0x61, [], 0xcbf29ce484222344, 0xcbf29ce5de, 0xaf63dc4c8601ec8c);
    assert [0x61] + [] == [0x61];
    HashEnds(0xaf63dc4c8601ec8c);
  }

  /** And that of "foobar" is 85944171f73967e8. */
  lemma {:induction false} HashOfFoobar()
    ensures HashOf(OFFSET64, [0x66, 0x6f, 0x6f, 0x62, 0x61, 0x72]) == 0x85944171f73967e8
  {
    hide HashOf, HashStep, Xor;
    StepGives(0xcbf29ce484222325, 0x66, [0x6f, 0x6f, 0x62, 0x61, 0x72],
              0xcbf29ce484222343, 0xcbf29ce5de, 0xaf63db4c8601ead9);
    StepGives(0xaf63db4c8601ead9, 0x6f, [0x6f, 0x62, 0x61, 0x72],
              0xaf63db4c8601eab6, 0xaf63db4db0, 0x8985907b541d342);
    StepGives(0x8985907b541d342, 0x6f, [0x62, 0x61, 0x72],
              0x8985907b541d32d, 0x8985907c3, 0xdcb27518fed9d577);
    StepGives(0xdcb27518fed9d577, 0x62, [0x61, 0x72], 0xdcb27518fed9d515, 0xdcb2751a75, 0xdd120e790c2512af);
    StepGives(0xdd120e790c2512af, 0x61, [0x72], 0xdd120e790c2512ce, 0xdd120e7a83, 0xcac165afa2fef40a);
    StepGives(0xcac165afa2fef40a, 0x72, [], 0xcac165afa2fef478, 0xcac165b0fb, 0x85944171f73967e8);
    assert [0x66] + [0x6f, 0x6f, 0x62, 0x61, 0x72] == [0x66, 0x6f, 0x6f, 0x62, 0x61, 0x72];
    assert [0x6f] + [0x6f, 0x62, 0x61, 0x72] == [0x6f, 0x6f, 0x62, 0x61, 0x72];
    assert [0x6f] + [0x62, 0x61, 0x72] == [0x6f, 0x62, 0x61, 0x72];
    assert [0x62] + [0x61, 0x72] == [0x62, 0x61, 0x72];
    assert [0x61] + [0x72] == [0x61, 0x72] && [0x72] + [] == [0x72];
    HashEnds(0x85944171f73967e8);
  }

  lemma HashEnds(h: uint64)
    ensures HashOf(h, []) == h
  {
  }
}
