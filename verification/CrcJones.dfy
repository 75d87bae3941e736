/**
  What `_crc64` (crc64.c) computes: the remainder of the message, read as a polynomial, modulo the
  Jones polynomial; and the check value that its test prints.
*/
module CrcJones {
  import opened Crc64
  import opened CrcPoly

  /** x^64 + x^63 + x^61 + ... + x^3 + 1. */
  const JONES: Poly :=
    {64} +
    {63, 61, 59, 58, 56, 55, 52, 49, 48} +
    {47, 46, 44, 41, 37, 36, 34, 32} +
    {31, 28, 26, 23, 22, 19, 16} +
    {13, 12, 10, 8, 7, 5, 3, 0}

  function TopBit(r: bv64): bool { r & MSB != 0 }

  function Moved(r: bv64): bv64 { r << 1 }

  /** The exponents of a register: bit i stands for x^i. */
  function Exponents(r: bv64): Poly { Highest(TopBit, Moved, r, 64) }

  /** The bits of a string of bytes as they are read, the lowest bit of each byte first. */
  function BitsOf(s: seq<bv8>): seq<bool> { if s == [] then [] else ByteBits(s[0]) + BitsOf(s[1..]) }

  function ByteBits(c: bv8): seq<bool> {
    [c & 0x01 != 0, c & 0x02 != 0, c & 0x04 != 0, c & 0x08 != 0, c & 0x10 != 0, c & 0x20 != 0, c & 0x40 != 0, c & 0x80 != 0]
  }

  lemma XorTop(a: bv64, b: bv64)
    ensures TopBit(Xor(a, b)) == (TopBit(a) != TopBit(b))
  {}

  lemma XorMoved(a: bv64, b: bv64)
    ensures Moved(Xor(a, b)) == Xor(Moved(a), Moved(b))
  {}

  lemma RegisterAddsAt(top: bv64 -> bool, next: bv64 -> bv64, xor: (bv64, bv64) -> bv64, a: bv64, b: bv64, c: bv64)
    requires c == xor(a, b) && top(c) == (top(a) != top(b)) && next(c) == xor(next(a), next(b))
    ensures AddsAt(top, next, xor, a, b, c)
  {}

  lemma RegisterAdds()
    ensures Adds(TopBit, Moved, Xor)
  {
    forall a, b ensures AddsAt(TopBit, Moved, Xor, a, b, Xor(a, b)) {
      XorTop(a, b);
      XorMoved(a, b);
      RegisterAddsAt(TopBit, Moved, Xor, a, b, Xor(a, b));
    }
  }

  function Run(r: bv64, bits: seq<bool>): bv64 { After(TopBit, Moved, Xor, POLY, r, bits) }

  lemma RunStep(r: bv64, bits: seq<bool>)
    requires bits != []
    ensures Run(r, bits) == Run(BitStep(r, bits[0]), bits[1..])
  {}

  lemma {:induction false} RunConcat(r: bv64, a: seq<bool>, b: seq<bool>)
    ensures Run(r, a + b) == Run(Run(r, a), b)
    decreases a
  {
    if a == [] {
      assert a + b == b;
    } else {
      assert (a + b)[0] == a[0] && (a + b)[1..] == a[1..] + b;
      RunStep(r, a);
      RunStep(r, a + b);
      RunConcat(BitStep(r, a[0]), a[1..], b);
    }
  }

  // Moving up brings zeros in, so that nothing is left after 64 turns.

  function Grow(m: bv64): bv64 { (m << 1) | 1 }

  predicate Clear(r: bv64, m: bv64) { r & m == 0 }

  lemma ClearStep(r: bv64, m: bv64)
    requires Clear(r, m)
    ensures Clear(Moved(r), Grow(m))
  {}

  lemma {:induction false} ClearBy(r: bv64, m: bv64, n: nat)
    requires Clear(r, m)
    ensures Clear(NextBy(Moved, r, n), NextBy(Grow, m, n))
    decreases n
  {
    if n > 0 {
      ClearStep(r, m);
      ClearBy(Moved(r), Grow(m), n - 1);
    }
  }

  lemma ByFour<R>(next: R -> R, r: R, r1: R, r2: R, r3: R, r4: R, n: nat)
    requires n >= 4 && r1 == next(r) && r2 == next(r1) && r3 == next(r2) && r4 == next(r3)
    ensures NextBy(next, r, n) == NextBy(next, r4, n - 4)
  {
    assert NextBy(next, r, n) == NextBy(next, r1, n - 1) == NextBy(next, r2, n - 2) == NextBy(next, r3, n - 3);
  }

  lemma GrowFirst(n: nat)
    requires n >= 16
    ensures NextBy(Grow, 0x0000000000000000, n) == NextBy(Grow, 0x000000000000ffff, n - 16)
  {
    ByFour(Grow, 0x0000000000000000, 0x0000000000000001, 0x0000000000000003, 0x0000000000000007, 0x000000000000000f, n);
    ByFour(Grow, 0x000000000000000f, 0x000000000000001f, 0x000000000000003f, 0x000000000000007f, 0x00000000000000ff, n - 4);
    ByFour(Grow, 0x00000000000000ff, 0x00000000000001ff, 0x00000000000003ff, 0x00000000000007ff, 0x0000000000000fff, n - 8);
    ByFour(Grow, 0x0000000000000fff, 0x0000000000001fff, 0x0000000000003fff, 0x0000000000007fff, 0x000000000000ffff, n - 12);
  }

  lemma GrowSecond(n: nat)
    requires n >= 16
    ensures NextBy(Grow, 0x000000000000ffff, n) == NextBy(Grow, 0x00000000ffffffff, n - 16)
  {
    ByFour(Grow, 0x000000000000ffff, 0x000000000001ffff, 0x000000000003ffff, 0x000000000007ffff, 0x00000000000fffff, n);
    ByFour(Grow, 0x00000000000fffff, 0x00000000001fffff, 0x00000000003fffff, 0x00000000007fffff, 0x0000000000ffffff, n - 4);
    ByFour(Grow, 0x0000000000ffffff, 0x0000000001ffffff, 0x0000000003ffffff, 0x0000000007ffffff, 0x000000000fffffff, n - 8);
    ByFour(Grow, 0x000000000fffffff, 0x000000001fffffff, 0x000000003fffffff, 0x000000007fffffff, 0x00000000ffffffff, n - 12);
  }

  lemma GrowThird(n: nat)
    requires n >= 16
    ensures NextBy(Grow, 0x00000000ffffffff, n) == NextBy(Grow, 0x0000ffffffffffff, n - 16)
  {
    ByFour(Grow, 0x00000000ffffffff, 0x00000001ffffffff, 0x00000003ffffffff, 0x00000007ffffffff, 0x0000000fffffffff, n);
    ByFour(Grow, 0x0000000fffffffff, 0x0000001fffffffff, 0x0000003fffffffff, 0x0000007fffffffff, 0x000000ffffffffff, n - 4);
    ByFour(Grow, 0x000000ffffffffff, 0x000001ffffffffff, 0x000003ffffffffff, 0x000007ffffffffff, 0x00000fffffffffff, n - 8);
    ByFour(Grow, 0x00000fffffffffff, 0x00001fffffffffff, 0x00003fffffffffff, 0x00007fffffffffff, 0x0000ffffffffffff, n - 12);
  }

  lemma GrowLast(n: nat)
    requires n >= 16
    ensures NextBy(Grow, 0x0000ffffffffffff, n) == NextBy(Grow, 0xffffffffffffffff, n - 16)
  {
    ByFour(Grow, 0x0000ffffffffffff, 0x0001ffffffffffff, 0x0003ffffffffffff, 0x0007ffffffffffff, 0x000fffffffffffff, n);
    ByFour(Grow, 0x000fffffffffffff, 0x001fffffffffffff, 0x003fffffffffffff, 0x007fffffffffffff, 0x00ffffffffffffff, n - 4);
    ByFour(Grow, 0x00ffffffffffffff, 0x01ffffffffffffff, 0x03ffffffffffffff, 0x07ffffffffffffff, 0x0fffffffffffffff, n - 8);
    ByFour(Grow, 0x0fffffffffffffff, 0x1fffffffffffffff, 0x3fffffffffffffff, 0x7fffffffffffffff, 0xffffffffffffffff, n - 12);
  }

  lemma GrowAll()
    ensures NextBy(Grow, 0, 64) == 0xffffffffffffffff
  {
    GrowFirst(64);
    GrowSecond(48);
    GrowThird(32);
    GrowLast(16);
  }

  lemma ClearAll(r: bv64)
    ensures Clear(r, 0) && (Clear(r, 0xffffffffffffffff) ==> !TopBit(r))
  {}

  lemma MovedOut(r: bv64)
    ensures !TopBit(NextBy(Moved, r, 64))
  {
    ClearAll(r);
    ClearBy(r, 0, 64);
    GrowAll();
    ClearAll(NextBy(Moved, r, 64));
  }

  // The constant.

  lemma NextBits(r: bv64, r1: bv64, r2: bv64, r3: bv64, r4: bv64, n: nat, a: bool, b: bool, c: bool, d: bool)
    requires n >= 4 && r1 == r << 1 && r2 == r1 << 1 && r3 == r2 << 1 && r4 == r3 << 1
    requires a == (r & MSB != 0) && b == (r1 & MSB != 0) && c == (r2 & MSB != 0) && d == (r3 & MSB != 0)
    ensures Highest(TopBit, Moved, r, n) == Four(n, a, b, c, d) + Highest(TopBit, Moved, r4, n - 4)
  {
    NextFour(TopBit, Moved, r, r1, r2, r3, r4, n, a, b, c, d);
  }

  lemma Poly64()
    ensures Highest(TopBit, Moved, 0xad93d23594c935a9, 64) == Four(64, true, false, true, false) + Highest(TopBit, Moved, 0xd93d23594c935a90, 60)
  { NextBits(0xad93d23594c935a9, 0x5b27a46b29926b52, 0xb64f48d65324d6a4, 0x6c9e91aca649ad48, 0xd93d23594c935a90, 64, true, false, true, false); }

  lemma Poly60()
    ensures Highest(TopBit, Moved, 0xd93d23594c935a90, 60) == Four(60, true, true, false, true) + Highest(TopBit, Moved, 0x93d23594c935a900, 56)
  { NextBits(0xd93d23594c935a90, 0xb27a46b29926b520, 0x64f48d65324d6a40, 0xc9e91aca649ad480, 0x93d23594c935a900, 60, true, true, false, true); }

  lemma Poly56()
    ensures Highest(TopBit, Moved, 0x93d23594c935a900, 56) == Four(56, true, false, false, true) + Highest(TopBit, Moved, 0x3d23594c935a9000, 52)
  { NextBits(0x93d23594c935a900, 0x27a46b29926b5200, 0x4f48d65324d6a400, 0x9e91aca649ad4800, 0x3d23594c935a9000, 56, true, false, false, true); }

  lemma Poly52()
    ensures Highest(TopBit, Moved, 0x3d23594c935a9000, 52) == Four(52, false, false, true, true) + Highest(TopBit, Moved, 0xd23594c935a90000, 48)
  { NextBits(0x3d23594c935a9000, 0x7a46b29926b52000, 0xf48d65324d6a4000, 0xe91aca649ad48000, 0xd23594c935a90000, 52, false, false, true, true); }

  lemma Poly48()
    ensures Highest(TopBit, Moved, 0xd23594c935a90000, 48) == Four(48, true, true, false, true) + Highest(TopBit, Moved, 0x23594c935a900000, 44)
  { NextBits(0xd23594c935a90000, 0xa46b29926b520000, 0x48d65324d6a40000, 0x91aca649ad480000, 0x23594c935a900000, 48, true, true, false, true); }

  lemma Poly44()
    ensures Highest(TopBit, Moved, 0x23594c935a900000, 44) == Four(44, false, false, true, false) + Highest(TopBit, Moved, 0x3594c935a9000000, 40)
  { NextBits(0x23594c935a900000, 0x46b29926b5200000, 0x8d65324d6a400000, 0x1aca649ad4800000, 0x3594c935a9000000, 44, false, false, true, false); }

  lemma Poly40()
    ensures Highest(TopBit, Moved, 0x3594c935a9000000, 40) == Four(40, false, false, true, true) + Highest(TopBit, Moved, 0x594c935a90000000, 36)
  { NextBits(0x3594c935a9000000, 0x6b29926b52000000, 0xd65324d6a4000000, 0xaca649ad48000000, 0x594c935a90000000, 40, false, false, true, true); }

  lemma Poly36()
    ensures Highest(TopBit, Moved, 0x594c935a90000000, 36) == Four(36, false, true, false, true) + Highest(TopBit, Moved, 0x94c935a900000000, 32)
  { NextBits(0x594c935a90000000, 0xb29926b520000000, 0x65324d6a40000000, 0xca649ad480000000, 0x94c935a900000000, 36, false, true, false, true); }

  lemma Poly32()
    ensures Highest(TopBit, Moved, 0x94c935a900000000, 32) == Four(32, true, false, false, true) + Highest(TopBit, Moved, 0x4c935a9000000000, 28)
  { NextBits(0x94c935a900000000, 0x29926b5200000000, 0x5324d6a400000000, 0xa649ad4800000000, 0x4c935a9000000000, 32, true, false, false, true); }

  lemma Poly28()
    ensures Highest(TopBit, Moved, 0x4c935a9000000000, 28) == Four(28, false, true, false, false) + Highest(TopBit, Moved, 0xc935a90000000000, 24)
  { NextBits(0x4c935a9000000000, 0x9926b52000000000, 0x324d6a4000000000, 0x649ad48000000000, 0xc935a90000000000, 28, false, true, false, false); }

  lemma Poly24()
    ensures Highest(TopBit, Moved, 0xc935a90000000000, 24) == Four(24, true, true, false, false) + Highest(TopBit, Moved, 0x935a900000000000, 20)
  { NextBits(0xc935a90000000000, 0x926b520000000000, 0x24d6a40000000000, 0x49ad480000000000, 0x935a900000000000, 24, true, true, false, false); }

  lemma Poly20()
    ensures Highest(TopBit, Moved, 0x935a900000000000, 20) == Four(20, true, false, false, true) + Highest(TopBit, Moved, 0x35a9000000000000, 16)
  { NextBits(0x935a900000000000, 0x26b5200000000000, 0x4d6a400000000000, 0x9ad4800000000000, 0x35a9000000000000, 20, true, false, false, true); }

  lemma Poly16()
    ensures Highest(TopBit, Moved, 0x35a9000000000000, 16) == Four(16, false, false, true, true) + Highest(TopBit, Moved, 0x5a90000000000000, 12)
  { NextBits(0x35a9000000000000, 0x6b52000000000000, 0xd6a4000000000000, 0xad48000000000000, 0x5a90000000000000, 16, false, false, true, true); }

  lemma Poly12()
    ensures Highest(TopBit, Moved, 0x5a90000000000000, 12) == Four(12, false, true, false, true) + Highest(TopBit, Moved, 0xa900000000000000, 8)
  { NextBits(0x5a90000000000000, 0xb520000000000000, 0x6a40000000000000, 0xd480000000000000, 0xa900000000000000, 12, false, true, false, true); }

  lemma Poly8()
    ensures Highest(TopBit, Moved, 0xa900000000000000, 8) == Four(8, true, false, true, false) + Highest(TopBit, Moved, 0x9000000000000000, 4)
  { NextBits(0xa900000000000000, 0x5200000000000000, 0xa400000000000000, 0x4800000000000000, 0x9000000000000000, 8, true, false, true, false); }

  lemma Poly4()
    ensures Highest(TopBit, Moved, 0x9000000000000000, 4) == Four(4, true, false, false, true) + Highest(TopBit, Moved, 0x0000000000000000, 0)
  { NextBits(0x9000000000000000, 0x2000000000000000, 0x4000000000000000, 0x8000000000000000, 0x0000000000000000, 4, true, false, false, true); }

  lemma SumFirst(h0: Poly, h1: Poly, h2: Poly, h3: Poly, h4: Poly)
    requires h0 == Four(64, true, false, true, false) + h1 && h1 == Four(60, true, true, false, true) + h2 && h2 == Four(56, true, false, false, true) + h3 && h3 == Four(52, false, false, true, true) + h4
    ensures h0 == {63, 61, 59, 58, 56, 55, 52, 49, 48} + h4
  {}

  lemma PolyFirst()
    ensures Highest(TopBit, Moved, 0xad93d23594c935a9, 64) == {63, 61, 59, 58, 56, 55, 52, 49, 48} + Highest(TopBit, Moved, 0xd23594c935a90000, 48)
  {
    Poly64();
    Poly60();
    Poly56();
    Poly52();
    SumFirst(Highest(TopBit, Moved, 0xad93d23594c935a9, 64), Highest(TopBit, Moved, 0xd93d23594c935a90, 60), Highest(TopBit, Moved, 0x93d23594c935a900, 56), Highest(TopBit, Moved, 0x3d23594c935a9000, 52), Highest(TopBit, Moved, 0xd23594c935a90000, 48));
  }

  lemma SumSecond(h0: Poly, h1: Poly, h2: Poly, h3: Poly, h4: Poly)
    requires h0 == Four(48, true, true, false, true) + h1 && h1 == Four(44, false, false, true, false) + h2 && h2 == Four(40, false, false, true, true) + h3 && h3 == Four(36, false, true, false, true) + h4
    ensures h0 == {47, 46, 44, 41, 37, 36, 34, 32} + h4
  {}

  lemma PolySecond()
    ensures Highest(TopBit, Moved, 0xd23594c935a90000, 48) == {47, 46, 44, 41, 37, 36, 34, 32} + Highest(TopBit, Moved, 0x94c935a900000000, 32)
  {
    Poly48();
    Poly44();
    Poly40();
    Poly36();
    SumSecond(Highest(TopBit, Moved, 0xd23594c935a90000, 48), Highest(TopBit, Moved, 0x23594c935a900000, 44), Highest(TopBit, Moved, 0x3594c935a9000000, 40), Highest(TopBit, Moved, 0x594c935a90000000, 36), Highest(TopBit, Moved, 0x94c935a900000000, 32));
  }

  lemma SumThird(h0: Poly, h1: Poly, h2: Poly, h3: Poly, h4: Poly)
    requires h0 == Four(32, true, false, false, true) + h1 && h1 == Four(28, false, true, false, false) + h2 && h2 == Four(24, true, true, false, false) + h3 && h3 == Four(20, true, false, false, true) + h4
    ensures h0 == {31, 28, 26, 23, 22, 19, 16} + h4
  {}

  lemma PolyThird()
    ensures Highest(TopBit, Moved, 0x94c935a900000000, 32) == {31, 28, 26, 23, 22, 19, 16} + Highest(TopBit, Moved, 0x35a9000000000000, 16)
  {
    Poly32();
    Poly28();
    Poly24();
    Poly20();
    SumThird(Highest(TopBit, Moved, 0x94c935a900000000, 32), Highest(TopBit, Moved, 0x4c935a9000000000, 28), Highest(TopBit, Moved, 0xc935a90000000000, 24), Highest(TopBit, Moved, 0x935a900000000000, 20), Highest(TopBit, Moved, 0x35a9000000000000, 16));
  }

  lemma SumLast(h0: Poly, h1: Poly, h2: Poly, h3: Poly, h4: Poly)
    requires h0 == Four(16, false, false, true, true) + h1 && h1 == Four(12, false, true, false, true) + h2 && h2 == Four(8, true, false, true, false) + h3 && h3 == Four(4, true, false, false, true) + h4
    ensures h0 == {13, 12, 10, 8, 7, 5, 3, 0} + h4
  {}

  lemma PolyLast()
    ensures Highest(TopBit, Moved, 0x35a9000000000000, 16) == {13, 12, 10, 8, 7, 5, 3, 0} + Highest(TopBit, Moved, 0x0000000000000000, 0)
  {
    Poly16();
    Poly12();
    Poly8();
    Poly4();
    SumLast(Highest(TopBit, Moved, 0x35a9000000000000, 16), Highest(TopBit, Moved, 0x5a90000000000000, 12), Highest(TopBit, Moved, 0xa900000000000000, 8), Highest(TopBit, Moved, 0x9000000000000000, 4), Highest(TopBit, Moved, 0x0000000000000000, 0));
  }

  lemma WithTop(a: Poly, b: Poly, c: Poly, d: Poly, n: nat)
    requires n !in a && n !in b && n !in c && n !in d
    ensures Plus(a + (b + (c + d)), {n}) == {n} + a + b + c + d
  {}

  lemma JonesIs(a: Poly, b: Poly, c: Poly, d: Poly)
    requires a == {63, 61, 59, 58, 56, 55, 52, 49, 48} && b == {47, 46, 44, 41, 37, 36, 34, 32}
    requires c == {31, 28, 26, 23, 22, 19, 16} && d == {13, 12, 10, 8, 7, 5, 3, 0}
    ensures Plus(a + (b + (c + d)), {64}) == JONES
  {
    WithTop(a, b, c, d, 64);
  }

  /** The constant holds the exponents below 64. */
  lemma PolyIsJones()
    ensures Plus(Exponents(POLY), {64}) == JONES
  {
    PolyFirst();
    PolySecond();
    PolyThird();
    PolyLast();
    JonesIs({63, 61, 59, 58, 56, 55, 52, 49, 48}, {47, 46, 44, 41, 37, 36, 34, 32},
            {31, 28, 26, 23, 22, 19, 16}, {13, 12, 10, 8, 7, 5, 3, 0});
  }

  lemma JonesDegree()
    ensures 64 in JONES && Below(JONES, 65)
  {}

  // ----- Bytes ---------------------------------------------------------------------------------------------

  lemma BitRead(c: bv8, n: nat)
    requires 0 < n <= 8
    ensures ByteBits(c)[8 - n] == (c & MaskAt(n) != 0)
  {}

  lemma {:induction false} TurnsRun(crc: bv64, c: bv8, n: nat)
    requires n <= 8
    ensures ByteStep(crc, c, MaskAt(n), n) == Run(crc, ByteBits(c)[8 - n..])
    decreases n
  {
    if n > 0 {
      MaskSteps(n);
      BitRead(c, n);
      var bits := ByteBits(c)[8 - n..];
      assert bits[1..] == ByteBits(c)[8 - (n - 1)..];
      RunStep(crc, bits);
      ByteStepTurn(crc, c, MaskAt(n), n);
      TurnsRun(BitStep(crc, bits[0]), c, n - 1);
    }
  }

  lemma {:induction false} RawRuns(crc: bv64, s: seq<bv8>)
    ensures CrcRaw(crc, s) == Run(crc, BitsOf(s))
    decreases s
  {
    if s != [] {
      TurnsRun(crc, s[0], 8);
      assert ByteBits(s[0])[0..] == ByteBits(s[0]);
      RunConcat(crc, ByteBits(s[0]), BitsOf(s[1..]));
      RawRuns(ByteStep(crc, s[0], 1, 8), s[1..]);
    }
  }

  // ----- The remainder ---------------------------------------------------------------------------------------

  lemma RegisterDivides(crc: bv64, bits: seq<bool>)
    ensures IsRemainder(Dividend(Exponents(crc), bits, 64), JONES, Exponents(Run(crc, bits)))
  {
    RegisterAdds();
    forall x {:trigger NextBy(Moved, x, 64)} ensures !TopBit(NextBy(Moved, x, 64)) { MovedOut(x); }
    PolyIsJones();
    var q := AfterDivides(TopBit, Moved, Xor, POLY, crc, bits, 64, JONES);
  }

  /**
    The register after a string of bytes is the remainder modulo the Jones polynomial of the old register followed by
    the bits of the string, each byte read from its lowest bit; and there is only one such remainder.
  */
  lemma RegisterIsRemainder(crc: bv64, s: seq<bv8>)
    ensures var d := Dividend(Exponents(crc), BitsOf(s), 64);
      && IsRemainder(d, JONES, Exponents(CrcRaw(crc, s))) && Below(Exponents(CrcRaw(crc, s)), 64)
      && forall r :: Below(r, 64) && IsRemainder(d, JONES, r) ==> r == Exponents(CrcRaw(crc, s))
  {
    RawRuns(crc, s);
    RegisterDivides(crc, BitsOf(s));
    HighestBelow(TopBit, Moved, CrcRaw(crc, s), 64);
    JonesDegree();
    OnlyRemainder(Dividend(Exponents(crc), BitsOf(s), 64), JONES, Exponents(CrcRaw(crc, s)), 64);
  }

  // ----- The check value ----------------------------------------------------------------------------------------

  lemma EightSteps(r0: bv64, r1: bv64, r2: bv64, r3: bv64, r4: bv64, r5: bv64, r6: bv64, r7: bv64, r8: bv64, c: bv8)
    requires r1 == BitStep(r0, c & 1 != 0) && r2 == BitStep(r1, c & 2 != 0) && r3 == BitStep(r2, c & 4 != 0)
    requires r4 == BitStep(r3, c & 8 != 0) && r5 == BitStep(r4, c & 16 != 0) && r6 == BitStep(r5, c & 32 != 0)
    requires r7 == BitStep(r6, c & 64 != 0) && r8 == BitStep(r7, c & 128 != 0)
    ensures ByteStep(r0, c, 1, 8) == r8
  {
    ByteStepTurn(r0, c, 1, 8);
    ByteStepTurn(r1, c, 2, 7);
    ByteStepTurn(r2, c, 4, 6);
    ByteStepTurn(r3, c, 8, 5);
    ByteStepTurn(r4, c, 16, 4);
    ByteStepTurn(r5, c, 32, 3);
    ByteStepTurn(r6, c, 64, 2);
    ByteStepTurn(r7, c, 128, 1);
  }

  lemma Byte1()
    ensures ByteStep(0x0000000000000000, 0x31, 1, 8) == 0x5f9cef95218e83bf
  {
    EightSteps(0x0000000000000000, 0xad93d23594c935a9, 0xf6b4765ebd5b5efb, 0x40fb3e88ee7f885f, 0x81f67d11dcff10be,
               0x03ecfa23b9fe217c, 0xaa4a2672e7357751, 0xf9079ed05aa3db0b, 0x5f9cef95218e83bf, 0x31);
  }

  lemma Byte2()
    ensures ByteStep(0x5f9cef95218e83bf, 0x32, 1, 8) == 0x69b7195c8a26c087
  {
    EightSteps(0x5f9cef95218e83bf, 0xbf39df2a431d077e, 0x7e73be54863a0efc, 0xfce77ca90c741df8, 0x545d2b678c210e59,
               0x052984fa8c8b291b, 0xa7c0dbc08ddf679f, 0xe21265b48f77fa97, 0x69b7195c8a26c087, 0x32);
  }

  lemma Byte3()
    ensures ByteStep(0x69b7195c8a26c087, 0x33, 1, 8) == 0x358d9e2281df3dab
  {
    EightSteps(0x69b7195c8a26c087, 0x7efde08c8084b4a7, 0x5068132c95c05ce7, 0xa0d026592b80b9ce, 0xec339e87c3c84635,
               0xd8673d0f87908c6a, 0xb0ce7a1f0f2118d4, 0xcc0f260b8a8b0401, 0x358d9e2281df3dab, 0x33);
  }

  lemma Byte4()
    ensures ByteStep(0x358d9e2281df3dab, 0x34, 1, 8) == 0x0f84a5b3ba3c9ac2
  {
    EightSteps(0x358d9e2281df3dab, 0x6b1b3c4503be7b56, 0xd636788a077cf6ac, 0xac6cf1140ef9ed58, 0xf54a301d893aef19,
               0xea94603b1275de32, 0xd528c07624ebbc64, 0x07c252d9dd1e4d61, 0x0f84a5b3ba3c9ac2, 0x34);
  }

  lemma Byte5()
    ensures ByteStep(0x0f84a5b3ba3c9ac2, 0x35, 1, 8) == 0xb07e39c4c8a1ae0f
  {
    EightSteps(0x0f84a5b3ba3c9ac2, 0xb29a9952e0b0002d, 0xc8a6e09055a935f3, 0x914dc120ab526be6, 0x8f085074c26de265,
               0x1e10a0e984dbc4ca, 0x91b293e69d7ebc3d, 0x8ef6f5f8ae344dd3, 0xb07e39c4c8a1ae0f, 0x35);
  }

  lemma Byte6()
    ensures ByteStep(0xb07e39c4c8a1ae0f, 0x36, 1, 8) == 0xc092d54da49095c5
  {
    EightSteps(0xb07e39c4c8a1ae0f, 0xcd6fa1bc058a69b7, 0x9adf43780b14d36e, 0x35be86f01629a6dc, 0x6b7d0de02c534db8,
               0x7b69c9f5cc6faed9, 0x5b4041de0c16681b, 0xb68083bc182cd036, 0xc092d54da49095c5, 0x36);
  }

  lemma Byte7()
    ensures ByteStep(0xc092d54da49095c5, 0x37, 1, 8) == 0xa2b58c246cb241e2
  {
    EightSteps(0xc092d54da49095c5, 0x8125aa9b49212b8a, 0x024b553692425714, 0xa9057858b04d9b81, 0xff992284f45202ab,
               0xff324509e8a40556, 0xfe648a13d1480aac, 0x515ac612365920f1, 0xa2b58c246cb241e2, 0x37);
  }

  lemma Byte8()
    ensures ByteStep(0xa2b58c246cb241e2, 0x38, 1, 8) == 0x43b617a8cd043792
  {
    EightSteps(0xa2b58c246cb241e2, 0xe8f8ca7d4dadb66d, 0x7c6246cf0f925973, 0xf8c48d9e1f24b2e6, 0xf1891b3c3e4965cc,
               0xe31236787c92cb98, 0xc6246cf0f9259730, 0x21db0bd466821bc9, 0x43b617a8cd043792, 0x38);
  }

  lemma Byte9()
    ensures ByteStep(0x43b617a8cd043792, 0x39, 1, 8) == 0x539b1d23289b6397
  {
    EightSteps(0x43b617a8cd043792, 0x2afffd640ec15a8d, 0x55fffac81d82b51a, 0xabfff5903b056a34, 0x57ffeb20760ad468,
               0x026c047578dc9d79, 0xa94bdadf65700f5b, 0xff04678b5e292b1f, 0x539b1d23289b6397, 0x39);
  }

  function Digits(): seq<bv8> { [0x31, 0x32, 0x33, 0x34, 0x35, 0x36, 0x37, 0x38, 0x39] }

  lemma RawOf(crc: bv64, s: seq<bv8>, next: bv64)
    requires s != [] && ByteStep(crc, s[0], 1, 8) == next
    ensures CrcRaw(crc, s) == CrcRaw(next, s[1..])
  {}

  lemma DigitsRaw()
    ensures CrcRaw(0, Digits()) == 0x539b1d23289b6397
  {
    var s := Digits();
    Byte1();
    Byte2();
    Byte3();
    Byte4();
    Byte5();
    Byte6();
    Byte7();
    Byte8();
    Byte9();
    RawOf(0, s, 0x5f9cef95218e83bf);
    RawOf(0x5f9cef95218e83bf, s[1..], 0x69b7195c8a26c087);
    RawOf(0x69b7195c8a26c087, s[2..], 0x358d9e2281df3dab);
    RawOf(0x358d9e2281df3dab, s[3..], 0x0f84a5b3ba3c9ac2);
    RawOf(0x0f84a5b3ba3c9ac2, s[4..], 0xb07e39c4c8a1ae0f);
    RawOf(0xb07e39c4c8a1ae0f, s[5..], 0xc092d54da49095c5);
    RawOf(0xc092d54da49095c5, s[6..], 0xa2b58c246cb241e2);
    RawOf(0xa2b58c246cb241e2, s[7..], 0x43b617a8cd043792);
    RawOf(0x43b617a8cd043792, s[8..], 0x539b1d23289b6397);
  }

  lemma ReflectedValue()
    ensures Reflect(0x539b1d23289b6397) == 0xe9c6d914c4b8d9ca
  {}

  /** The checksum of "123456789". */
  lemma CheckValue()
    ensures BitwiseCrc64(0, [0x31, 0x32, 0x33, 0x34, 0x35, 0x36, 0x37, 0x38, 0x39]) == 0xe9c6d914c4b8d9ca
  {
    DigitsRaw();
    ReflectedValue();
  }
}
