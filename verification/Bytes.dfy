/** Bytes, little-endian integers and the CRC-32 checksum (section 8 of RFC 1952). */
module Bytes {
  type byte = x: int | 0 <= x < 0x100
  type bytes = seq<byte>
  type u32 = x: int | 0 <= x < 0x1_0000_0000
  type i64 = x: int | -0x8000_0000_0000_0000 <= x < 0x8000_0000_0000_0000

  function Pow256(w: nat): (p: nat)
    ensures p > 0
  {
    if w == 0 then 1 else 256 * Pow256(w - 1)
  }

  /** The low w bytes of n, least significant first. */
  function LE(n: nat, w: nat): (s: bytes)
    ensures |s| == w
  {
    if w == 0 then [] else [n % 256] + LE(n / 256, w - 1)
  }

  function FromLE(s: bytes): nat {
    if s == [] then 0 else s[0] + 256 * FromLE(s[1..])
  }

  /** Reading gives back what was written, if it fits the width. */
  lemma {:induction false} FromLEofLE(n: nat, w: nat)
    requires n < Pow256(w)
    ensures FromLE(LE(n, w)) == n
  {
    if w > 0 {
      FromLEofLE(n / 256, w - 1);
      assert LE(n, w)[1..] == LE(n / 256, w - 1);
    }
  }

  lemma {:induction false} FromLEBound(s: bytes)
    ensures FromLE(s) < Pow256(|s|)
  {
    if s != [] {
      FromLEBound(s[1..]);
    }
  }

  lemma Pow256Values()
    ensures Pow256(2) == 0x1_0000 && Pow256(4) == 0x1_0000_0000 && Pow256(8) == 0x1_0000_0000_0000_0000
  {
    assert Pow256(1) == 256;
    assert Pow256(2) == 0x1_0000;
    assert Pow256(3) == 0x100_0000;
    assert Pow256(4) == 0x1_0000_0000;
    assert Pow256(5) == 256 * 0x1_0000_0000;
    assert Pow256(6) == 0x1_0000 * 0x1_0000_0000;
  }

  function Unsigned(x: i64): (n: nat)
    ensures n < 0x1_0000_0000_0000_0000
  {
    if x < 0 then x + 0x1_0000_0000_0000_0000 else x
  }

  function Signed(n: nat): i64
    requires n < 0x1_0000_0000_0000_0000
  {
    if n >= 0x8000_0000_0000_0000 then n - 0x1_0000_0000_0000_0000 else n
  }

  /** Chunks one after another. */
  function Flatten(chunks: seq<bytes>): bytes {
    if chunks == [] then [] else chunks[0] + Flatten(chunks[1..])
  }

  lemma {:induction false} FlattenSplit(chunks: seq<bytes>, i: nat)
    requires i <= |chunks|
    ensures Flatten(chunks) == Flatten(chunks[..i]) + Flatten(chunks[i..])
  {
    if i == 0 {
      assert chunks[0..] == chunks;
    } else {
      FlattenSplit(chunks[1..], i - 1);
      assert chunks[..i][1..] == chunks[1..][..i - 1] && chunks[1..][i - 1..] == chunks[i..];
    }
  }

  lemma FlattenOne(chunk: bytes)
    ensures Flatten([chunk]) == chunk
  {
    var one := [chunk];
    assert one[1..] == [];
  }

  /** Each chunk lies behind those before it. */
  lemma FlattenNext(chunks: seq<bytes>, i: nat)
    requires i < |chunks|
    ensures Flatten(chunks[..i + 1]) == Flatten(chunks[..i]) + chunks[i]
    ensures Flatten(chunks[..i + 1]) <= Flatten(chunks)
  {
    hide Flatten;
    var head := chunks[..i + 1];
    assert head[..i] == chunks[..i] && head[i..] == [chunks[i]];
    FlattenSplit(head, i);
    FlattenOne(chunks[i]);
    FlattenSplit(chunks, i + 1);
  }

  /** A list of byte strings without one of them. */
  function Without(list: seq<bytes>, x: bytes): (r: seq<bytes>)
    ensures forall y :: y in r <==> y in list && y != x
  {
    if list == [] then [] else (if list[0] == x then [] else [list[0]]) + Without(list[1..], x)
  }

  // --- checksum -----------------------------------------------------------------------

  function Pow2(n: nat): (p: nat)
    ensures p > 0
  {
    if n == 0 then 1 else 2 * Pow2(n - 1)
  }

  /** Bitwise exclusive or. */
  function Xor(a: nat, b: nat): nat
    decreases a + b
  {
    if a == 0 && b == 0 then 0 else (a + b) % 2 + 2 * Xor(a / 2, b / 2)
  }

  lemma {:induction false} XorBound(a: nat, b: nat, n: nat)
    requires a < Pow2(n) && b < Pow2(n)
    ensures Xor(a, b) < Pow2(n)
    decreases n
  {
    if n > 0 && (a != 0 || b != 0) {
      XorBound(a / 2, b / 2, n - 1);
    }
  }

  lemma Pow2Of32()
    ensures Pow2(32) == 0x1_0000_0000
  {
    assert Pow2(8) == 256;
    assert Pow2(16) == 0x1_0000;
    assert Pow2(24) == 0x100_0000;
  }

  function Xor32(a: u32, b: u32): u32 {
    Pow2Of32();
    XorBound(a, b, 32);
    Xor(a, b)
  }

  const POLYNOMIAL: u32 := 0xEDB8_8320
  const ALL_ONES: u32 := 0xFFFF_FFFF

  /** One bit of the polynomial division. */
  function ShiftBit(s: u32): u32 {
    if s % 2 == 1 then Xor32(s / 2, POLYNOMIAL) else s / 2
  }

  /** A running hasher fed one more byte. */
  function HashByte(s: u32, b: byte): u32 {
    ShiftBit(ShiftBit(ShiftBit(ShiftBit(ShiftBit(ShiftBit(ShiftBit(ShiftBit(Xor32(s, b)))))))))
  }

  function HashAll(s: u32, data: bytes): u32
    decreases |data|
  {
    if data == [] then s else HashAll(HashByte(s, data[0]), data[1..])
  }

  const HASH_START: u32 := ALL_ONES

  function Finish(s: u32): u32 {
    Xor32(s, ALL_ONES)
  }

  function Crc32(data: bytes): u32 {
    Finish(HashAll(HASH_START, data))
  }

  /** Feeding a hasher in two chunks is feeding it at once. */
  lemma {:induction false} HashConcat(s: u32, a: bytes, b: bytes)
    ensures HashAll(s, a + b) == HashAll(HashAll(s, a), b)
    decreases |a|
  {
    if a == [] {
      assert a + b == b;
    } else {
      assert (a + b)[1..] == a[1..] + b;
      HashConcat(HashByte(s, a[0]), a[1..], b);
    }
  }

  lemma XorParts(a: nat, b: nat)
    ensures Xor(a, b) == (a + b) % 2 + 2 * Xor(a / 2, b / 2)
  {
  }

  lemma Halves(a: nat, b: nat, high: nat)
    ensures var c := (a + b) % 2 + 2 * high; c / 2 == high && (c + b) % 2 == a % 2
  {
  }

  lemma {:induction false} XorTwice(a: nat, b: nat)
    ensures Xor(Xor(a, b), b) == a
    decreases a + b
  {
    hide Xor;
    XorParts(a, b);
    XorParts(Xor(a, b), b);
    Halves(a, b, Xor(a / 2, b / 2));
    if a != 0 || b != 0 {
      XorTwice(a / 2, b / 2);
    } else {
      XorZero();
    }
  }

  lemma XorZero()
    ensures Xor(0, 0) == 0
  {
  }

  lemma FinishTwice(s: u32)
    ensures Finish(Finish(s)) == s
  {
    XorTwice(s, ALL_ONES);
  }

  /** The checksum of some bytes behind those with the checksum `previous`. */
  function Crc32From(data: bytes, previous: u32): u32 {
    Finish(HashAll(Finish(previous), data))
  }

  /** Taken chunk by chunk the checksum is that of the whole, and from zero it is the plain one. */
  lemma ChecksumInChunks(a: bytes, b: bytes, previous: u32)
    ensures Crc32From(a + b, previous) == Crc32From(b, Crc32From(a, previous))
    ensures Crc32From(a, 0) == Crc32(a)
  {
    hide HashAll, Finish;
    HashConcat(Finish(previous), a, b);
    FinishTwice(HashAll(Finish(previous), a));
    FinishZero();
  }

  lemma FinishZero()
    ensures Finish(0) == HASH_START
  {
    FinishTwice(HASH_START);
    XorSelf(ALL_ONES);
  }

  lemma {:induction false} XorSelf(a: nat)
    ensures Xor(a, a) == 0
  {
    if a != 0 {
      XorSelf(a / 2);
    }
  }

  // --- a checksum worked out -----------------------------------------------------------------

  lemma {:induction false} XorNone(a: nat)
    ensures Xor(a, 0) == a == Xor(0, a)
  {
    if a != 0 {
      XorNone(a / 2);
    }
  }

  lemma OnesHalf(a: nat, p: nat)
    requires a < 2 * p
    ensures a / 2 < p && (2 * p - 1) / 2 == p - 1
    ensures (a + (2 * p - 1)) % 2 + 2 * (p - 1 - a / 2) == 2 * p - 1 - a
  {
  }

  /** Exclusive or with ones takes the complement. */
  lemma {:induction false} XorOnes(a: nat, n: nat)
    requires a < Pow2(n)
    ensures Xor(a, Pow2(n) - 1) == Pow2(n) - 1 - a
    decreases n
  {
    hide Xor;
    if n == 0 {
      XorZero();
    } else {
      OnesHalf(a, Pow2(n - 1));
      XorOnes(a / 2, n - 1);
      XorParts(a, Pow2(n) - 1);
    }
  }

  lemma TwiceMore(p: nat, h: nat)
    requires p > 0
    ensures (2 * p * h + 2 * p - 1) / 2 == p * h + p - 1 && (2 * p - 1) / 2 == p - 1 && (2 * p * h + 2 * p - 1 + (2 * p - 1)) % 2 == 0
    ensures 2 * (p * h) == 2 * p * h
  {
    var q := p * h;
    assert 2 * p * h == 2 * q;
    assert (2 * q + 2 * p - 1) / 2 == q + p - 1;
  }

  /** Ones clear ones, and leave what is above them. */
  lemma {:induction false} XorClears(h: nat, n: nat)
    ensures Pow2(n) * h + Pow2(n) - 1 >= 0 && Xor(Pow2(n) * h + Pow2(n) - 1, Pow2(n) - 1) == Pow2(n) * h
    decreases n
  {
    hide Xor;
    if n == 0 {
      XorNone(h);
    } else {
      var p := Pow2(n - 1);
      XorClears(h, n - 1);
      TwiceMore(p, h);
      XorParts(2 * p * h + 2 * p - 1, 2 * p - 1);
    }
  }

  /** A byte of ones shifts ones out. */
  lemma HashOnes(h: nat)
    requires h < 0x100_0000
    ensures HashByte(256 * h + 255, 0xFF) == h
  {
    hide Xor;
    assert Pow2(8) == 256;
    XorClears(h, 8);
    assert ShiftBit(256 * h) == 128 * h && ShiftBit(128 * h) == 64 * h && ShiftBit(64 * h) == 32 * h && ShiftBit(32 * h) == 16 * h;
    assert ShiftBit(16 * h) == 8 * h && ShiftBit(8 * h) == 4 * h && ShiftBit(4 * h) == 2 * h && ShiftBit(2 * h) == h;
  }

  /** The polynomial comes in when the last bit is shifted out. */
  lemma HashTopBit()
    ensures HashByte(0, 0x80) == 0xEDB8_8320
  {
    hide Xor;
    XorNone(0x80);
    XorNone(0xEDB8_8320);
    assert ShiftBit(0x80) == 0x40 && ShiftBit(0x40) == 0x20 && ShiftBit(0x20) == 0x10 && ShiftBit(0x10) == 8;
    assert ShiftBit(8) == 4 && ShiftBit(4) == 2 && ShiftBit(2) == 1 && ShiftBit(1) == 0xEDB8_8320;
  }

  /** The checksum of four bytes of ones, and with one bit more. */
  lemma CheckValues()
    ensures Crc32([0xFF, 0xFF, 0xFF, 0xFF]) == 0xFFFF_FFFF
    ensures Crc32([0xFF, 0xFF, 0xFF, 0xFF, 0x80]) == 0x1247_7CDF
  {
    hide HashByte, Xor;
    HashOnes(0xFF_FFFF);
    HashOnes(0xFFFF);
    HashOnes(0xFF);
    HashOnes(0);
    HashTopBit();
    XorNone(ALL_ONES);
    Pow2Of32();
    XorOnes(0xEDB8_8320, 32);
    var ones: bytes := [0xFF, 0xFF, 0xFF, 0xFF];
    HashFour(ALL_ONES, 0xFF, 0xFF, 0xFF, 0xFF);
    HashConcat(ALL_ONES, ones, [0x80]);
    HashOne(0, 0x80);
    assert ones + [0x80] == [0xFF, 0xFF, 0xFF, 0xFF, 0x80];
  }

  lemma HashOne(s: u32, a: byte)
    ensures HashAll(s, [a]) == HashByte(s, a)
  {
    hide HashByte;
    assert [a][1..] == [];
  }

  lemma HashFour(s: u32, a: byte, b: byte, c: byte, d: byte)
    ensures HashAll(s, [a, b, c, d]) == HashByte(HashByte(HashByte(HashByte(s, a), b), c), d)
  {
    hide HashAll, HashByte;
    assert [a, b, c, d] == [a] + [b] + [c] + [d];
    HashConcat(s, [a] + [b] + [c], [d]);
    HashConcat(s, [a] + [b], [c]);
    HashConcat(s, [a], [b]);
    HashOne(s, a);
    HashOne(HashByte(s, a), b);
    HashOne(HashByte(HashByte(s, a), b), c);
    HashOne(HashByte(HashByte(HashByte(s, a), b), c), d);
  }

  // --- numbers in bytes ------------------------------------------------------------------------

  /** Two, four and eight bytes as numbers, the first byte counting least. */
  function U16At(b: bytes, i: nat): int
    requires i + 2 <= |b|
  {
    (b[i] as int) + 0x100 * (b[i + 1] as int)
  }

  function U32At(b: bytes, i: nat): int
    requires i + 4 <= |b|
  {
    U16At(b, i) + 0x1_0000 * U16At(b, i + 2)
  }

  function U64At(b: bytes, i: nat): int
    requires i + 8 <= |b|
  {
    U32At(b, i) + 0x1_0000_0000 * U32At(b, i + 4)
  }

  lemma {:induction false} FromLEConcat(a: bytes, b: bytes)
    ensures FromLE(a + b) == FromLE(a) + Pow256(|a|) * FromLE(b)
  {
    if a == [] {
      assert a + b == b;
    } else {
      assert (a + b)[1..] == a[1..] + b;
      FromLEConcat(a[1..], b);
      assert Pow256(|a|) == 256 * Pow256(|a| - 1);
    }
  }

  lemma FromLEOne(a: byte)
    ensures FromLE([a]) == a
  {
    assert [a][1..] == [];
  }

  lemma Reads16(b: bytes, i: nat)
    requires i + 2 <= |b|
    ensures FromLE(b[i..i + 2]) == U16At(b, i)
  {
    assert b[i..i + 2] == [b[i]] + [b[i + 1]];
    FromLEConcat([b[i]], [b[i + 1]]);
    FromLEOne(b[i]);
    FromLEOne(b[i + 1]);
    assert Pow256(1) == 256;
  }

  lemma Reads32(b: bytes, i: nat)
    requires i + 4 <= |b|
    ensures FromLE(b[i..i + 4]) == U32At(b, i)
  {
    hide FromLE;
    assert b[i..i + 4] == b[i..i + 2] + b[i + 2..i + 4];
    FromLEConcat(b[i..i + 2], b[i + 2..i + 4]);
    Reads16(b, i);
    Reads16(b, i + 2);
    Pow256Values();
  }

  lemma Reads64(b: bytes, i: nat)
    requires i + 8 <= |b|
    ensures FromLE(b[i..i + 8]) == U64At(b, i)
  {
    hide FromLE;
    assert b[i..i + 8] == b[i..i + 4] + b[i + 4..i + 8];
    FromLEConcat(b[i..i + 4], b[i + 4..i + 8]);
    Reads32(b, i);
    Reads32(b, i + 4);
    Pow256Values();
  }

  /** The bytes of a number, read one by one. */
  lemma LittleEndian(b: bytes, i: nat, n: nat)
    ensures i + 2 <= |b| && n < 0x1_0000 && b[i..i + 2] == LE(n, 2) ==> U16At(b, i) == n
    ensures i + 4 <= |b| && n < 0x1_0000_0000 && b[i..i + 4] == LE(n, 4) ==> U32At(b, i) == n
    ensures i + 8 <= |b| && n < 0x1_0000_0000_0000_0000 && b[i..i + 8] == LE(n, 8) ==> U64At(b, i) == n
  {
    hide FromLE, LE, U16At, U32At, U64At;
    Pow256Values();
    if i + 2 <= |b| && n < 0x1_0000 && b[i..i + 2] == LE(n, 2) {
      Reads16(b, i);
      FromLEofLE(n, 2);
    }
    if i + 4 <= |b| && n < 0x1_0000_0000 && b[i..i + 4] == LE(n, 4) {
      Reads32(b, i);
      FromLEofLE(n, 4);
    }
    if i + 8 <= |b| && n < 0x1_0000_0000_0000_0000 && b[i..i + 8] == LE(n, 8) {
      Reads64(b, i);
      FromLEofLE(n, 8);
    }
  }
}
