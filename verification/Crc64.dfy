/**
  CRC-64 (Jones polynomial): the slice-by-8 table code of crcspeed.c against the
  bit-by-bit definition of crc64.c.

  `CrcRaw` is the bit-by-bit register update, most significant bit first.
  `Reflect` mirrors a 64-bit word, so `Reflect(CrcRaw(c, s))` is what `_crc64`
  returns. The table code works on the mirrored register; one zero-input step of
  it is `Shift`, which is linear over GF(2). Everything about tables, words and
  byte orders follows from that linearity.

  The one-line wrappers (`Xor`, `Half`, `Wide`, ...) name single machine
  operations, so that lemmas can speak about them as functions.
*/
module Crc64 {

  const POLY: bv64 := 0xad93d23594c935a9
  const RPOLY: bv64 := 0x95ac9329ac4bc9b5
  const MSB: bv64 := 0x8000000000000000

  function Xor(a: bv64, b: bv64): bv64 { a ^ b }
  function Half(a: bv64): bv64 { a >> 1 }
  function Wide(c: bv8): bv64 { c as bv64 }
  function Low(x: bv64): bv8 { (x & 0xff) as bv8 }
  function High(x: bv64): bv64 { x & 0xffffffffffffff00 }
  function Up(x: bv64): bv64 { x << 8 }
  function Down(x: bv64): bv64 { x >> 8 }

  /** A byte as a table index. */
  function Index(b: bv8): (i: nat)
    ensures i < 256
  {
    b as int
  }

  // ----- The bit-by-bit definition ------------------------------------------

  /** One turn of the inner loop of `_crc64`, for one input bit. */
  function BitStep(crc: bv64, inBit: bool): bv64 {
    if ((crc & MSB) != 0) != inBit then Xor(crc << 1, POLY) else crc << 1
  }

  /** The remaining n turns of the inner loop, with mask i. */
  function ByteStep(crc: bv64, c: bv8, i: bv8, n: nat): bv64
    decreases n
  {
    if n == 0 then crc else ByteStep(BitStep(crc, c & i != 0), c, i << 1, n - 1)
  }

  function CrcRaw(crc: bv64, s: seq<bv8>): bv64
    decreases s
  {
    if s == [] then crc else CrcRaw(ByteStep(crc, s[0], 1, 8), s[1..])
  }

  /** The mirror image of a 64-bit word. */
  function Reflect(x: bv64): bv64 {
    var a := ((x >> 1) & 0x5555555555555555) | ((x & 0x5555555555555555) << 1);
    var b := ((a >> 2) & 0x3333333333333333) | ((a & 0x3333333333333333) << 2);
    var c := ((b >> 4) & 0x0f0f0f0f0f0f0f0f) | ((b & 0x0f0f0f0f0f0f0f0f) << 4);
    var d := ((c >> 8) & 0x00ff00ff00ff00ff) | ((c & 0x00ff00ff00ff00ff) << 8);
    var e := ((d >> 16) & 0x0000ffff0000ffff) | ((d & 0x0000ffff0000ffff) << 16);
    (e >> 32) | (e << 32)
  }

  /** The value `_crc64(crc, s)` returns. */
  function BitwiseCrc64(crc: bv64, s: seq<bv8>): bv64 { Reflect(CrcRaw(crc, s)) }

  // ----- Algebra of exclusive or --------------------------------------------

  lemma XorComm(a: bv64, b: bv64) ensures Xor(a, b) == Xor(b, a) {}

  lemma XorZero(a: bv64) ensures Xor(a, 0) == a && Xor(0, a) == a {}

  lemma XorAssocInner(a: bv64, b: bv64, c: bv64) ensures Xor(a ^ b, c) == Xor(a, b ^ c) {}

  lemma XorAssoc(a: bv64, b: bv64, c: bv64)
    ensures Xor(Xor(a, b), c) == Xor(a, Xor(b, c))
  {
    XorAssocInner(a, b, c);
  }

  lemma XorHalf(a: bv64, b: bv64) ensures Half(Xor(a, b)) == Xor(Half(a), Half(b)) {}

  // ----- The mirrored register ----------------------------------------------

  lemma ReflectXor(a: bv64, b: bv64) ensures Reflect(Xor(a, b)) == Xor(Reflect(a), Reflect(b)) {}

  lemma ReflectShift(a: bv64) ensures Reflect(a << 1) == Half(Reflect(a)) {}

  lemma ReflectTop(a: bv64) ensures (Reflect(a) & 1 == 1) == (a & MSB != 0) {}

  lemma ReflectPoly() ensures Reflect(POLY) == RPOLY && Reflect(0) == 0 {}

  lemma ReflectInvolutive(a: bv64) ensures Reflect(Reflect(a)) == a {}

  /** One zero-input step of the mirrored register. */
  function Shift(r: bv64): bv64 { if r & 1 == 1 then Xor(Half(r), RPOLY) else Half(r) }

  function MirrorStep(r: bv64, inBit: bool): bv64 {
    if (r & 1 == 1) != inBit then Xor(Half(r), RPOLY) else Half(r)
  }

  /** n input bits of c, least significant first, into the mirrored register. */
  function Feed(r: bv64, c: bv8, n: nat): bv64
    decreases n
  {
    if n == 0 then r else Feed(MirrorStep(r, c & 1 != 0), c >> 1, n - 1)
  }

  lemma StepReflects(crc: bv64, b: bool)
    ensures Reflect(BitStep(crc, b)) == MirrorStep(Reflect(crc), b)
  {
    ReflectXor(crc << 1, POLY);
    ReflectShift(crc);
    ReflectTop(crc);
    ReflectPoly();
  }

  lemma MaskShift(c: bv8, i: bv8) ensures (c & (i << 1) != 0) == ((c >> 1) & i != 0) {}

  lemma {:induction false} ByteStepShift(crc: bv64, c: bv8, i: bv8, n: nat)
    ensures ByteStep(crc, c, i << 1, n) == ByteStep(crc, c >> 1, i, n)
    decreases n
  {
    if n != 0 {
      MaskShift(c, i);
      ByteStepShift(BitStep(crc, c & (i << 1) != 0), c, i << 1, n - 1);
    }
  }

  lemma {:induction false} ByteReflects(crc: bv64, c: bv8, n: nat)
    ensures Reflect(ByteStep(crc, c, 1, n)) == Feed(Reflect(crc), c, n)
    decreases n
  {
    if n != 0 {
      var next := BitStep(crc, c & 1 != 0);
      StepReflects(crc, c & 1 != 0);
      ByteStepShift(next, c, 1, n - 1);
      ByteReflects(next, c >> 1, n - 1);
    }
  }

  // ----- Linearity ----------------------------------------------------------

  lemma ShiftXorEven(a: bv64, b: bv64)
    requires a & 1 != 1 && b & 1 != 1
    ensures Shift(Xor(a, b)) == Xor(Shift(a), Shift(b))
  {
    XorHalf(a, b);
  }

  lemma ShiftXorOdd(a: bv64, b: bv64)
    requires a & 1 == 1 && b & 1 == 1
    ensures Shift(Xor(a, b)) == Xor(Shift(a), Shift(b))
  {
    XorHalf(a, b);
  }

  lemma ShiftXorMixed(a: bv64, b: bv64)
    requires a & 1 == 1 && b & 1 != 1
    ensures Shift(Xor(a, b)) == Xor(Shift(a), Shift(b))
  {
    XorHalf(a, b);
  }

  lemma ShiftXor(a: bv64, b: bv64)
    ensures Shift(Xor(a, b)) == Xor(Shift(a), Shift(b))
  {
    if a & 1 == 1 {
      if b & 1 == 1 { ShiftXorOdd(a, b); } else { ShiftXorMixed(a, b); }
    } else {
      if b & 1 == 1 {
        ShiftXorMixed(b, a);
        XorComm(a, b);
        XorComm(Shift(a), Shift(b));
      } else {
        ShiftXorEven(a, b);
      }
    }
  }

  function Steps(n: nat, r: bv64): bv64 { if n == 0 then r else Steps(n - 1, Shift(r)) }

  lemma {:induction false} StepsXor(n: nat, a: bv64, b: bv64)
    ensures Steps(n, Xor(a, b)) == Xor(Steps(n, a), Steps(n, b))
  {
    if n != 0 {
      ShiftXor(a, b);
      StepsXor(n - 1, Shift(a), Shift(b));
    }
  }

  lemma {:induction false} StepsAdd(m: nat, n: nat, r: bv64)
    ensures Steps(m + n, r) == Steps(n, Steps(m, r))
  {
    if m != 0 { StepsAdd(m - 1, n, Shift(r)); }
  }

  // ----- One input byte is one exclusive or and eight zero-input steps --------

  function ShrBy(c: bv8, n: nat): bv8
    decreases n
  {
    if n == 0 then c else ShrBy(c >> 1, n - 1)
  }

  lemma FlipLow(r: bv64)
    ensures Half(Xor(r, 1)) == Half(r)
    ensures (Xor(r, 1) & 1 == 1) == (r & 1 != 1)
  {}

  lemma MirrorStepIsShift(r: bv64, b: bv8)
    requires b == 0 || b == 1
    ensures MirrorStep(r, b != 0) == Shift(Xor(r, Wide(b)))
  {
    if b == 0 { XorZero(r); } else { FlipLow(r); }
  }

  lemma SplitBit(r: bv64, c: bv8)
    ensures Xor(r, Wide(c)) == Xor(Xor(r, Wide(c & 1)), Wide(c & 0xfe))
    ensures c & 1 == 0 || c & 1 == 1
  {}

  lemma EvenByte(c: bv8) ensures Shift(Wide(c & 0xfe)) == Wide(c >> 1) {}

  lemma {:induction false} FeedSteps(r: bv64, c: bv8, n: nat)
    ensures Steps(n, Xor(r, Wide(c))) == Xor(Feed(r, c, n), Wide(ShrBy(c, n)))
    decreases n
  {
    if n != 0 {
      SplitBit(r, c);
      MirrorStepIsShift(r, c & 1);
      ShiftXor(Xor(r, Wide(c & 1)), Wide(c & 0xfe));
      EvenByte(c);
      FeedSteps(MirrorStep(r, c & 1 != 0), c >> 1, n - 1);
    }
  }

  lemma ShrOut(c: bv8)
    ensures ShrBy(c, 8) == 0
  {
    assert ShrBy(c, 8) == ShrBy(c >> 4, 4) == ShrBy(c >> 8, 0);
  }

  lemma FeedIsSteps(r: bv64, c: bv8)
    ensures Feed(r, c, 8) == Steps(8, Xor(r, Wide(c)))
  {
    FeedSteps(r, c, 8);
    ShrOut(c);
    XorZero(Feed(r, c, 8));
  }

  /** The mirrored register after a byte string. */
  function Fold(r: bv64, s: seq<bv8>): bv64
    decreases s
  {
    if s == [] then r else Fold(Steps(8, Xor(r, Wide(s[0]))), s[1..])
  }

  /** Mirroring turns the bit-by-bit register into the byte-wise one. */
  lemma {:induction false} CrcReflects(crc: bv64, s: seq<bv8>)
    ensures Reflect(CrcRaw(crc, s)) == Fold(Reflect(crc), s)
    decreases s
  {
    if s != [] {
      ByteReflects(crc, s[0], 8);
      FeedIsSteps(Reflect(crc), s[0]);
      CrcReflects(ByteStep(crc, s[0], 1, 8), s[1..]);
    }
  }

  lemma {:induction false} FoldConcat(r: bv64, s: seq<bv8>, t: seq<bv8>)
    ensures Fold(r, s + t) == Fold(Fold(r, s), t)
    decreases s
  {
    if s == [] {
      assert s + t == t;
    } else {
      assert (s + t)[1..] == s[1..] + t;
      FoldConcat(Steps(8, Xor(r, Wide(s[0]))), s[1..], t);
    }
  }

  /** Checksums compose over concatenation, through the mirrored register. */
  lemma CrcConcat(crc: bv64, s: seq<bv8>, t: seq<bv8>)
    ensures BitwiseCrc64(crc, s + t) == BitwiseCrc64(Reflect(BitwiseCrc64(crc, s)), t)
  {
    CrcReflects(crc, s + t);
    CrcReflects(crc, s);
    FoldConcat(Reflect(crc), s, t);
    CrcReflects(CrcRaw(crc, s), t);
    ReflectInvolutive(CrcRaw(crc, s));
  }

  // ----- Tables ---------------------------------------------------------------

  /** Entry n of row k: the byte n followed by k zero bytes. */
  function T(k: nat, n: bv8): bv64 { Steps(8 * (k + 1), Wide(n)) }

  /** What a table step does with the entry it looked up. */
  function ByTable(entry: bv64, crc: bv64): bv64 { Xor(entry, Down(crc)) }

  lemma StepsHigh(r: bv64)
    requires r & 0xff == 0
    ensures Steps(8, r) == Down(r)
  {
    assert Shift(r) == r >> 1;
    assert Shift(r >> 1) == r >> 2;
    assert Shift(r >> 2) == r >> 3;
    assert Shift(r >> 3) == r >> 4;
    assert Shift(r >> 4) == r >> 5;
    assert Shift(r >> 5) == r >> 6;
    assert Shift(r >> 6) == r >> 7;
    assert Shift(r >> 7) == r >> 8;
    assert Steps(8, r) == Steps(6, r >> 2) == Steps(4, r >> 4) == Steps(2, r >> 6) == Steps(0, r >> 8);
  }

  lemma SplitLow(x: bv64)
    ensures x == Xor(Wide(Low(x)), High(x))
    ensures High(x) & 0xff == 0
    ensures Down(High(x)) == Down(x)
  {}

  lemma StepsByTable(x: bv64)
    ensures Steps(8, x) == ByTable(T(0, Low(x)), x)
  {
    SplitLow(x);
    StepsXor(8, Wide(Low(x)), High(x));
    StepsHigh(High(x));
  }

  lemma NextTable(k: nat, n: bv8)
    ensures T(k + 1, n) == ByTable(T(0, Low(T(k, n))), T(k, n))
  {
    StepsAdd(8 * (k + 1), 8, Wide(n));
    StepsByTable(T(k, n));
  }

  lemma Slice(k: nat, x: bv64)
    ensures Steps(8 * (k + 1), x) == Xor(T(k, Low(x)), Steps(8 * k, Down(x)))
  {
    StepsAdd(8, 8 * k, x);
    StepsByTable(x);
    StepsXor(8 * k, T(0, Low(x)), Down(x));
    StepsAdd(8, 8 * k, Wide(Low(x)));
  }

  // ----- Words ------------------------------------------------------------------

  function Join(rest: bv64, b: bv8): bv64 { (rest << 8) | Wide(b) }

  /** A little-endian load of up to eight bytes. */
  function LoadLE(s: seq<bv8>): bv64
    requires |s| <= 8
  {
    if s == [] then 0 else Join(LoadLE(s[1..]), s[0])
  }

  function Ones(k: nat): bv64 { if k == 0 then 0 else Join(Ones(k - 1), 0xff) }

  predicate Fits(x: bv64, m: bv64) { x & !m == 0 }

  lemma JoinFits(x: bv64, m: bv64, b: bv8)
    requires Fits(x, m)
    ensures Fits(Join(x, b), Join(m, 0xff))
  {}

  lemma {:induction false} LoadFits(s: seq<bv8>)
    requires |s| <= 8
    ensures Fits(LoadLE(s), Ones(|s|))
  {
    if s != [] {
      LoadFits(s[1..]);
      JoinFits(LoadLE(s[1..]), Ones(|s| - 1), s[0]);
    }
  }

  lemma UpDown(x: bv64, m: bv64)
    requires Fits(x, m) && m & 0xff00000000000000 == 0
    ensures Down(Up(x)) == x
  {}

  lemma OnesTop(k: nat)
    requires k <= 7
    ensures Ones(k) & 0xff00000000000000 == 0
  {
    assert Ones(1) == 0xff;
    assert Ones(2) == 0xffff;
    assert Ones(3) == 0xffffff;
    assert Ones(4) == 0xffffffff;
    assert Ones(5) == 0xffffffffff;
    assert Ones(6) == 0xffffffffffff;
    assert Ones(7) == 0xffffffffffffff;
  }

  lemma JoinXor(rest: bv64, b: bv8)
    ensures Join(rest, b) == Xor(Wide(b), Up(rest))
    ensures Up(rest) & 0xff == 0
  {}

  /** Up to eight bytes at once: one exclusive or with the loaded word. */
  lemma {:induction false} FoldWord(r: bv64, s: seq<bv8>)
    requires |s| <= 8
    ensures Fold(r, s) == Steps(8 * |s|, Xor(r, LoadLE(s)))
    decreases s
  {
    if s == [] {
      XorZero(r);
    } else {
      var rest := LoadLE(s[1..]);
      var head := Xor(r, Wide(s[0]));
      LoadFits(s[1..]);
      OnesTop(|s| - 1);
      UpDown(rest, Ones(|s| - 1));
      JoinXor(rest, s[0]);
      XorAssoc(r, Wide(s[0]), Up(rest));
      StepsXor(8, head, Up(rest));
      StepsHigh(Up(rest));
      StepsAdd(8, 8 * (|s| - 1), Xor(r, LoadLE(s)));
      FoldWord(Steps(8, head), s[1..]);
    }
  }

  /** Left-to-right exclusive or of k lookups, row k - 1 first. */
  function Gather(tab: (nat, bv8) -> bv64, acc: bv64, k: nat, x: bv64): bv64
    decreases k
  {
    if k == 0 then acc else Gather(tab, Xor(acc, tab(k - 1, Low(x))), k - 1, Down(x))
  }

  function DownBy(x: bv64, k: nat): bv64
    decreases k
  {
    if k == 0 then x else DownBy(Down(x), k - 1)
  }

  lemma {:induction false} StepsGather(acc: bv64, k: nat, x: bv64)
    ensures Xor(acc, Steps(8 * k, x)) == Xor(Gather(T, acc, k, x), DownBy(x, k))
    decreases k
  {
    if k != 0 {
      Slice(k - 1, x);
      XorAssoc(acc, T(k - 1, Low(x)), Steps(8 * (k - 1), Down(x)));
      StepsGather(Xor(acc, T(k - 1, Low(x))), k - 1, Down(x));
    }
  }

  lemma DownTwice(x: bv64)
    ensures Down(x) == x >> 8 && Down(x >> 8) == x >> 16 && Down(x >> 16) == x >> 24 && Down(x >> 24) == x >> 32
  {}

  lemma DownAgain(x: bv64)
    ensures Down(x >> 32) == x >> 40 && Down(x >> 40) == x >> 48 && Down(x >> 48) == x >> 56 && Down(x >> 56) == 0
  {}

  lemma DownOut(x: bv64)
    ensures DownBy(x, 8) == 0
  {
    DownTwice(x);
    DownAgain(x);
    assert DownBy(x, 8) == DownBy(x >> 16, 6) == DownBy(x >> 32, 4) == DownBy(x >> 48, 2);
  }

  lemma SliceEight(x: bv64)
    ensures Steps(64, x) == Gather(T, 0, 8, x)
  {
    StepsGather(0, 8, x);
    DownOut(x);
    XorZero(Steps(64, x));
    XorZero(Gather(T, 0, 8, x));
  }

  /** The chain of eight exclusive ors, as C associates it. */
  function Xor8(a: bv64, b: bv64, c: bv64, d: bv64, e: bv64, f: bv64, g: bv64, h: bv64): bv64 {
    Xor(Xor(Xor(Xor(Xor(Xor(Xor(a, b), c), d), e), f), g), h)
  }

  lemma GatherEight(tab: (nat, bv8) -> bv64, x: bv64)
    ensures Gather(tab, 0, 8, x) == LookupEight(tab, x)
  {
    DownTwice(x);
    DownAgain(x);
    XorZero(tab(7, Low(x)));
    var b := Xor(tab(7, Low(x)), tab(6, Low(x >> 8)));
    var d := Xor(Xor(b, tab(5, Low(x >> 16))), tab(4, Low(x >> 24)));
    var f := Xor(Xor(d, tab(3, Low(x >> 32))), tab(2, Low(x >> 40)));
    assert Gather(tab, 0, 8, x) == Gather(tab, b, 6, x >> 16);
    assert Gather(tab, b, 6, x >> 16) == Gather(tab, d, 4, x >> 32);
    assert Gather(tab, d, 4, x >> 32) == Gather(tab, f, 2, x >> 48);
  }

  // ----- The reflection loop -------------------------------------------------------

  function Push(ret: bv64, data: bv64): bv64 { (ret << 1) | (data & 1) }

  /** n turns of the loop of `crc_reflect`. */
  function ReflectLoop(data: bv64, ret: bv64, n: nat): bv64
    decreases n
  {
    if n == 0 then ret else ReflectLoop(data >> 1, Push(ret, data), n - 1)
  }

  // Shifts by the powers of two that the doubling argument needs.
  function Shr(x: bv64, m: nat): bv64 {
    if m == 1 then x >> 1 else if m == 2 then x >> 2 else if m == 4 then x >> 4 else
    if m == 8 then x >> 8 else if m == 16 then x >> 16 else if m == 32 then x >> 32 else 0
  }

  function Shl(x: bv64, m: nat): bv64 {
    if m == 1 then x << 1 else if m == 2 then x << 2 else if m == 4 then x << 4 else
    if m == 8 then x << 8 else if m == 16 then x << 16 else if m == 32 then x << 32 else 0
  }

  /** ret followed by the top m bits of r. */
  function Cat(ret: bv64, r: bv64, m: nat): bv64 {
    if m == 1 then (ret << 1) | (r >> 63) else if m == 2 then (ret << 2) | (r >> 62) else
    if m == 4 then (ret << 4) | (r >> 60) else if m == 8 then (ret << 8) | (r >> 56) else
    if m == 16 then (ret << 16) | (r >> 48) else if m == 32 then (ret << 32) | (r >> 32) else r
  }

  lemma ReflectShr1(x: bv64) ensures Reflect(x >> 1) == Reflect(x) << 1 {}

  lemma Double1(x: bv64, ret: bv64, r: bv64)
    ensures Shr(Shr(x, 1), 1) == Shr(x, 2)
    ensures Cat(Cat(ret, r, 1), Shl(r, 1), 1) == Cat(ret, r, 2)
  {}

  lemma ReflectShr2(x: bv64) ensures Reflect(x >> 2) == Reflect(x) << 2 {}

  lemma Double2(x: bv64, ret: bv64, r: bv64)
    ensures Shr(Shr(x, 2), 2) == Shr(x, 4)
    ensures Cat(Cat(ret, r, 2), Shl(r, 2), 2) == Cat(ret, r, 4)
  {}

  lemma ReflectShr4(x: bv64) ensures Reflect(x >> 4) == Reflect(x) << 4 {}

  lemma Double4(x: bv64, ret: bv64, r: bv64)
    ensures Shr(Shr(x, 4), 4) == Shr(x, 8)
    ensures Cat(Cat(ret, r, 4), Shl(r, 4), 4) == Cat(ret, r, 8)
  {}

  lemma ReflectShr8(x: bv64) ensures Reflect(x >> 8) == Reflect(x) << 8 {}

  lemma Double8(x: bv64, ret: bv64, r: bv64)
    ensures Shr(Shr(x, 8), 8) == Shr(x, 16)
    ensures Cat(Cat(ret, r, 8), Shl(r, 8), 8) == Cat(ret, r, 16)
  {}

  lemma ReflectShr16(x: bv64) ensures Reflect(x >> 16) == Reflect(x) << 16 {}

  lemma Double16(x: bv64, ret: bv64, r: bv64)
    ensures Shr(Shr(x, 16), 16) == Shr(x, 32)
    ensures Cat(Cat(ret, r, 16), Shl(r, 16), 16) == Cat(ret, r, 32)
  {}

  lemma ReflectShr32(x: bv64) ensures Reflect(x >> 32) == Reflect(x) << 32 {}

  lemma Double32(x: bv64, ret: bv64, r: bv64)
    ensures Shr(Shr(x, 32), 32) == Shr(x, 64)
    ensures Cat(Cat(ret, r, 32), Shl(r, 32), 32) == Cat(ret, r, 64)
  {}

  lemma Double(x: bv64, ret: bv64, m: nat)
    requires m in {1, 2, 4, 8, 16, 32}
    ensures Reflect(Shr(x, m)) == Shl(Reflect(x), m)
    ensures Shr(Shr(x, m), m) == Shr(x, 2 * m)
    ensures Cat(Cat(ret, Reflect(x), m), Shl(Reflect(x), m), m) == Cat(ret, Reflect(x), 2 * m)
  {
    match m
    case 1 => ReflectShr1(x); Double1(x, ret, Reflect(x));
    case 2 => ReflectShr2(x); Double2(x, ret, Reflect(x));
    case 4 => ReflectShr4(x); Double4(x, ret, Reflect(x));
    case 8 => ReflectShr8(x); Double8(x, ret, Reflect(x));
    case 16 => ReflectShr16(x); Double16(x, ret, Reflect(x));
    case _ => ReflectShr32(x); Double32(x, ret, Reflect(x));
  }

  lemma PushIsCat(ret: bv64, x: bv64) ensures Push(ret, x) == Cat(ret, Reflect(x), 1) {}

  lemma {:induction false} ReflectTurns(x: bv64, ret: bv64, n: nat, m: nat)
    requires m in {1, 2, 4, 8, 16, 32, 64}
    ensures ReflectLoop(x, ret, n + m) == ReflectLoop(Shr(x, m), Cat(ret, Reflect(x), m), n)
    decreases m
  {
    if m == 1 {
      PushIsCat(ret, x);
    } else {
      var h := m / 2;
      ReflectTurns(x, ret, n + h, h);
      ReflectTurns(Shr(x, h), Cat(ret, Reflect(x), h), n, h);
      Double(x, ret, h);
    }
  }

  /** The loop of `crc_reflect` over 64 bits is the mirror image. */
  lemma ReflectLoopIsReflect(x: bv64)
    ensures ReflectLoop(x, 0, 64) == Reflect(x)
  {
    ReflectTurns(x, 0, 0, 64);
  }

  method CrcReflect(word: bv64, dataLen: nat) returns (ret: bv64)
    ensures ret == ReflectLoop(word, 0, if dataLen == 0 then 1 else dataLen)
    ensures dataLen == 64 ==> ret == Reflect(word)
  {
    var data := word;
    ret := data & 1;
    assert ret == Push(0, data);
    var i := 1;
    while i < dataLen
      invariant 1 <= i <= dataLen || (i == 1 && dataLen == 0)
      invariant dataLen >= 1 ==> ReflectLoop(data >> 1, ret, dataLen - i) == ReflectLoop(word, 0, dataLen)
      invariant dataLen == 0 ==> ret == Push(0, word)
    {
      data := data >> 1;
      ret := (ret << 1) | (data & 1);
      i := i + 1;
    }
    if dataLen == 64 { ReflectLoopIsReflect(word); }
  }

  // ----- _crc64 ---------------------------------------------------------------------

  /** The mask of the bit loop when n turns remain. */
  function MaskAt(n: nat): bv8 {
    if n == 8 then 1 else if n == 7 then 2 else if n == 6 then 4 else if n == 5 then 8 else
    if n == 4 then 16 else if n == 3 then 32 else if n == 2 then 64 else if n == 1 then 128 else 0
  }

  lemma MaskSteps(n: nat)
    requires n <= 8
    ensures MaskAt(n) & 0xff == MaskAt(n)
    ensures MaskAt(n) == 0 <==> n == 0
    ensures n > 0 ==> MaskAt(n - 1) == MaskAt(n) << 1
  {}

  method BitwiseBit(crc: bv64, c: bv8, i: bv8) returns (r: bv64)
    ensures r == BitStep(crc, c & i != 0)
  {
    var bit := crc & MSB != 0;
    if c & i != 0 {
      bit := !bit;
    }
    r := crc << 1;
    if bit {
      r := r ^ POLY;
    }
  }

  lemma ByteStepTurn(crc: bv64, c: bv8, i: bv8, n: nat)
    requires n > 0
    ensures ByteStep(crc, c, i, n) == ByteStep(BitStep(crc, c & i != 0), c, i << 1, n - 1)
  {}

  method BitwiseTurn(crc: bv64, c: bv8, i: bv8, ghost n: nat) returns (crc': bv64, i': bv8)
    requires 0 < n <= 8 && i == MaskAt(n)
    ensures i' == MaskAt(n - 1) && i' & 0xff == i' && (i' == 0 <==> n == 1)
    ensures ByteStep(crc', c, i', n - 1) == ByteStep(crc, c, i, n)
  {
    MaskSteps(n);
    MaskSteps(n - 1);
    ByteStepTurn(crc, c, i, n);
    crc' := BitwiseBit(crc, c, i);
    i' := i << 1;
  }

  method BitwiseByte(init: bv64, c: bv8) returns (crc: bv64)
    ensures crc == ByteStep(init, c, 1, 8)
  {
    crc := init;
    var i: bv8 := 1;
    ghost var n: nat := 8;
    MaskSteps(8);
    while i & 0xff != 0
      invariant n <= 8 && i == MaskAt(n) && i & 0xff == i && (i == 0 <==> n == 0)
      invariant ByteStep(crc, c, i, n) == ByteStep(init, c, 1, 8)
      decreases n
    {
      crc, i := BitwiseTurn(crc, c, i, n);
      n := n - 1;
    }
  }

  method Bitwise(init: bv64, data: seq<bv8>) returns (r: bv64)
    ensures r == BitwiseCrc64(init, data)
  {
    var crc := init;
    for offset := 0 to |data|
      invariant CrcRaw(crc, data[offset..]) == CrcRaw(init, data)
    {
      crc := BitwiseByte(crc, data[offset]);
      assert data[offset..][1..] == data[offset + 1..];
    }
    r := CrcReflect(crc, 64);
  }

  // ----- Little-endian tables and lookup ----------------------------------------------

  /** The first rows of the table hold f. */
  ghost predicate Holds(t: array2<bv64>, f: (nat, bv8) -> bv64, rows: nat)
    reads t
  {
    t.Length0 == 8 && t.Length1 == 256 && rows <= 8 &&
    forall k: nat, n: bv8 :: k < rows ==> t[k, Index(n)] == f(k, n)
  }

  lemma TableZero(v: bv8)
    ensures BitwiseCrc64(0, [v]) == T(0, v)
  {
    CrcReflects(0, [v]);
    ReflectPoly();
    XorZero(Wide(v));
    assert [v][1..] == [];
    assert Fold(0, [v]) == Fold(Steps(8, Xor(0, Wide(v))), []);
  }

  lemma IndexOfByte(n: nat) requires n < 256 ensures Index(n as bv8) == n {}

  lemma ByteOfIndex(v: bv8) ensures Index(v) as bv8 == v {}

  lemma ByteIndex(n: nat)
    requires n < 256
    ensures Index(n as bv8) == n
    ensures forall v: bv8 :: Index(v) == n ==> v == n as bv8
  {
    forall v: bv8 ensures Index(v) == n ==> v == n as bv8 { ByteOfIndex(v); }
    IndexOfByte(n);
  }

  /** Each row follows from the one before by one table step. */
  ghost predicate ChainedAt(f: (nat, bv8) -> bv64, k: nat, n: bv8) {
    f(k + 1, n) == ByTable(f(0, Low(f(k, n))), f(k, n))
  }

  ghost predicate Chained(f: (nat, bv8) -> bv64) { forall k: nat, n: bv8 :: ChainedAt(f, k, n) }

  method LittleInit(table: array2<bv64>)
    requires table.Length0 == 8 && table.Length1 == 256
    modifies table
    ensures Holds(table, T, 8)
  {
    for n := 0 to 256
      invariant forall v: bv8 :: Index(v) < n ==> table[0, Index(v)] == T(0, v)
    {
      var v := n as bv8;
      table[0, n] := Bitwise(0, [v]);
      TableZero(v);
      ByteIndex(n);
    }
    forall k: nat, n: bv8 ensures ChainedAt(T, k, n) { NextTable(k, n); }
    FillColumns(table, T);
  }

  method FillColumns(table: array2<bv64>, ghost f: (nat, bv8) -> bv64)
    requires Holds(table, f, 1) && Chained(f)
    modifies table
    ensures Holds(table, f, 8)
  {
    for n := 0 to 256
      invariant Holds(table, f, 1)
      invariant forall k: nat, v: bv8 :: k < 8 && Index(v) < n ==> table[k, Index(v)] == f(k, v)
    {
      ByteIndex(n);
      FillColumn(table, f, n, n as bv8);
    }
  }

  method FillColumn(table: array2<bv64>, ghost f: (nat, bv8) -> bv64, n: nat, ghost v: bv8)
    requires Holds(table, f, 1) && Chained(f) && n < 256 && Index(v) == n
    modifies table
    ensures Holds(table, f, 1)
    ensures forall k, m :: 0 <= k < 8 && 0 <= m < 256 && m != n ==> table[k, m] == old(table[k, m])
    ensures forall k: nat :: k < 8 ==> table[k, n] == f(k, v)
  {
    var crc := table[0, n];
    for k := 1 to 8
      invariant crc == f(k - 1, v)
      invariant Holds(table, f, 1)
      invariant forall j, m :: 0 <= j < 8 && 0 <= m < 256 && m != n ==> table[j, m] == old(table[j, m])
      invariant forall j: nat :: j < k ==> table[j, n] == f(j, v)
    {
      assert ChainedAt(f, k - 1, v);
      crc := ByTable(table[0, Index(Low(crc))], crc);
      table[k, n] := crc;
    }
  }

  lemma FoldByte(r: bv64, s: seq<bv8>, i: nat)
    requires i < |s|
    ensures var x := Xor(r, Wide(s[i])); Fold(r, s[i..]) == Fold(ByTable(T(0, Low(x)), x), s[i + 1..])
  {
    StepsByTable(Xor(r, Wide(s[i])));
    assert s[i..][1..] == s[i + 1..];
  }

  lemma FoldEight(r: bv64, s: seq<bv8>, i: nat)
    requires i + 8 <= |s|
    ensures Fold(r, s[i..]) == Fold(Steps(64, Xor(r, LoadLE(s[i..i + 8]))), s[i + 8..])
  {
    assert s[i..] == s[i..i + 8] + s[i + 8..];
    FoldConcat(r, s[i..i + 8], s[i + 8..]);
    FoldWord(r, s[i..i + 8]);
  }

  lemma ByTableIgnoresLow(e: bv64, r: bv64, b: bv8)
    ensures ByTable(e, Xor(r, Wide(b))) == ByTable(e, r)
  {}

  method ByteLookup(table: array2<bv64>, crc: bv64, buf: seq<bv8>, next: nat) returns (r: bv64)
    requires Holds(table, T, 8) && next < |buf|
    ensures Fold(r, buf[next + 1..]) == Fold(crc, buf[next..])
  {
    var index := Low(Xor(crc, Wide(buf[next])));
    r := ByTable(table[0, Index(index)], crc);
    ByTableIgnoresLow(table[0, Index(index)], crc, buf[next]);
    FoldByte(crc, buf, next);
  }

  /** The eight lookups of the little-endian word step. */
  function LookupEight(tab: (nat, bv8) -> bv64, x: bv64): bv64 {
    Xor8(
      tab(7, Low(x)), tab(6, Low(x >> 8)), tab(5, Low(x >> 16)), tab(4, Low(x >> 24)),
      tab(3, Low(x >> 32)), tab(2, Low(x >> 40)), tab(1, Low(x >> 48)), tab(0, Low(x >> 56)))
  }

  method LookupWord(table: array2<bv64>, ghost tab: (nat, bv8) -> bv64, x: bv64) returns (r: bv64)
    requires Holds(table, tab, 8)
    ensures r == LookupEight(tab, x)
  {
    r := Xor8(
      table[7, Index(Low(x))], table[6, Index(Low(x >> 8))],
      table[5, Index(Low(x >> 16))], table[4, Index(Low(x >> 24))],
      table[3, Index(Low(x >> 32))], table[2, Index(Low(x >> 40))],
      table[1, Index(Low(x >> 48))], table[0, Index(Low(x >> 56))]);
  }

  method WordLookup(table: array2<bv64>, crc: bv64, buf: seq<bv8>, next: nat) returns (r: bv64)
    requires Holds(table, T, 8) && next + 8 <= |buf|
    ensures Fold(r, buf[next + 8..]) == Fold(crc, buf[next..])
  {
    var x := Xor(crc, LoadLE(buf[next..next + 8]));
    r := LookupWord(table, T, x);
    GatherEight(T, x);
    SliceEight(x);
    FoldEight(crc, buf, next);
  }

  /** `crcspeed64little` on a buffer starting at address addr. */
  method SpeedLittle(table: array2<bv64>, init: bv64, addr: nat, buf: seq<bv8>) returns (crc: bv64)
    requires Holds(table, T, 8)
    ensures crc == BitwiseCrc64(Reflect(init), buf)
  {
    crc := init;
    var next := 0;
    while next < |buf| && (addr + next) % 8 != 0
      invariant next <= |buf|
      invariant Fold(crc, buf[next..]) == Fold(init, buf)
    {
      crc := ByteLookup(table, crc, buf, next);
      next := next + 1;
    }
    while |buf| - next >= 8
      invariant next <= |buf|
      invariant Fold(crc, buf[next..]) == Fold(init, buf)
    {
      crc := WordLookup(table, crc, buf, next);
      next := next + 8;
    }
    while next < |buf|
      invariant next <= |buf|
      invariant Fold(crc, buf[next..]) == Fold(init, buf)
    {
      crc := ByteLookup(table, crc, buf, next);
      next := next + 1;
    }
    CrcReflects(Reflect(init), buf);
    ReflectInvolutive(init);
  }

  // ----- Big-endian tables and lookup -------------------------------------------------

  /** `rev8`: the bytes of a word in reverse order. */
  function Rev8(a: bv64): bv64 {
    var b := ((a >> 8) & 0x00ff00ff00ff00ff) | ((a & 0x00ff00ff00ff00ff) << 8);
    var c := ((b >> 16) & 0x0000ffff0000ffff) | ((b & 0x0000ffff0000ffff) << 16);
    (c >> 32) | (c << 32)
  }

  function Top(x: bv64): bv8 { (x >> 56) as bv8 }

  lemma Rev8Xor(a: bv64, b: bv64) ensures Rev8(Xor(a, b)) == Xor(Rev8(a), Rev8(b)) {}

  lemma Rev8Facts(a: bv64)
    ensures Rev8(Rev8(a)) == a
    ensures Rev8(Down(a)) == Up(Rev8(a))
    ensures Top(Rev8(a)) == Low(a)
    ensures Rev8(0) == 0
  {}

  lemma Rev8Bytes(y: bv64)
    ensures Low(Rev8(y)) == Low(y >> 56)
    ensures Low(Rev8(y) >> 8) == Low(y >> 48)
    ensures Low(Rev8(y) >> 16) == Low(y >> 40)
    ensures Low(Rev8(y) >> 24) == Low(y >> 32)
    ensures Low(Rev8(y) >> 32) == Low(y >> 24)
    ensures Low(Rev8(y) >> 40) == Low(y >> 16)
    ensures Low(Rev8(y) >> 48) == Low(y >> 8)
    ensures Top(Rev8(y)) == Low(y)
  {}

  function RevT(k: nat, n: bv8): bv64 { Rev8(T(k, n)) }

  /** A big-endian load. */
  function LoadBE(s: seq<bv8>): bv64 {
    if s == [] then 0 else Join(LoadBE(s[..|s| - 1]), s[|s| - 1])
  }

  lemma JoinReversed(a: bv8, b: bv8, c: bv8, d: bv8, e: bv8, f: bv8, g: bv8, h: bv8)
    ensures Rev8(Join(Join(Join(Join(Join(Join(Join(Join(0, h), g), f), e), d), c), b), a))
         == Join(Join(Join(Join(Join(Join(Join(Join(0, a), b), c), d), e), f), g), h)
  {}

  lemma UnfoldLE(s: seq<bv8>)
    requires |s| == 8
    ensures LoadLE(s) == Join(Join(Join(Join(Join(Join(Join(Join(0, s[7]), s[6]), s[5]), s[4]), s[3]), s[2]), s[1]), s[0])
  {
    assert LoadLE(s[7..]) == Join(0, s[7]) by { assert s[7..][1..] == []; }
    assert LoadLE(s[6..]) == Join(LoadLE(s[7..]), s[6]) by { assert s[6..][1..] == s[7..]; }
    assert LoadLE(s[4..]) == Join(Join(LoadLE(s[6..]), s[5]), s[4]) by { assert s[4..][1..] == s[5..] && s[5..][1..] == s[6..]; }
    assert LoadLE(s[2..]) == Join(Join(LoadLE(s[4..]), s[3]), s[2]) by { assert s[2..][1..] == s[3..] && s[3..][1..] == s[4..]; }
    assert LoadLE(s) == Join(Join(LoadLE(s[2..]), s[1]), s[0]) by { assert s[1..][1..] == s[2..]; }
  }

  lemma UnfoldBE(s: seq<bv8>)
    requires |s| == 8
    ensures LoadBE(s) == Join(Join(Join(Join(Join(Join(Join(Join(0, s[0]), s[1]), s[2]), s[3]), s[4]), s[5]), s[6]), s[7])
  {
    assert LoadBE(s[..1]) == Join(0, s[0]) by { assert s[..1][..0] == []; }
    assert LoadBE(s[..2]) == Join(LoadBE(s[..1]), s[1]) by { assert s[..2][..1] == s[..1]; }
    assert LoadBE(s[..4]) == Join(Join(LoadBE(s[..2]), s[2]), s[3]) by { assert s[..4][..3] == s[..3] && s[..3][..2] == s[..2]; }
    assert LoadBE(s[..6]) == Join(Join(LoadBE(s[..4]), s[4]), s[5]) by { assert s[..6][..5] == s[..5] && s[..5][..4] == s[..4]; }
    assert LoadBE(s) == Join(Join(LoadBE(s[..6]), s[6]), s[7]) by { assert s[..7][..6] == s[..6]; }
  }

  lemma LoadReversed(s: seq<bv8>)
    requires |s| == 8
    ensures LoadBE(s) == Rev8(LoadLE(s))
  {
    UnfoldLE(s);
    UnfoldBE(s);
    JoinReversed(s[0], s[1], s[2], s[3], s[4], s[5], s[6], s[7]);
  }

  /** Left-to-right exclusive or of k lookups, row 0 first. */
  function Scatter(tab: (nat, bv8) -> bv64, base: bv64, k: nat, y: bv64): bv64
    decreases k
  {
    if k == 0 then base else Xor(Scatter(tab, base, k - 1, Down(y)), tab(k - 1, Low(y)))
  }

  lemma {:induction false} StepsScatter(k: nat, y: bv64)
    ensures Rev8(Steps(8 * k, y)) == Scatter(RevT, Rev8(DownBy(y, k)), k, y)
    decreases k
  {
    if k != 0 {
      var rest, entry := Steps(8 * (k - 1), Down(y)), T(k - 1, Low(y));
      Slice(k - 1, y);
      XorComm(entry, rest);
      Rev8Xor(rest, entry);
      StepsScatter(k - 1, Down(y));
    }
  }

  lemma ScatterEight(tab: (nat, bv8) -> bv64, y: bv64)
    ensures Scatter(tab, 0, 8, y) == BigLookupEight(tab, Rev8(y))
  {
    DownTwice(y);
    DownAgain(y);
    Rev8Bytes(y);
    XorZero(tab(0, Low(y >> 56)));
    assert Scatter(tab, 0, 2, y >> 48) == Xor(tab(0, Low(y >> 56)), tab(1, Low(y >> 48)));
    assert Scatter(tab, 0, 4, y >> 32) == Xor(Xor(Scatter(tab, 0, 2, y >> 48), tab(2, Low(y >> 40))), tab(3, Low(y >> 32)));
    assert Scatter(tab, 0, 6, y >> 16) == Xor(Xor(Scatter(tab, 0, 4, y >> 32), tab(4, Low(y >> 24))), tab(5, Low(y >> 16)));
  }

  lemma BigEight(y: bv64)
    ensures Rev8(Steps(64, y)) == Scatter(RevT, 0, 8, y)
  {
    StepsScatter(8, y);
    DownOut(y);
    Rev8Facts(y);
  }

  method BigInit(table: array2<bv64>)
    requires table.Length0 == 8 && table.Length1 == 256
    modifies table
    ensures Holds(table, RevT, 8)
  {
    LittleInit(table);
    for k := 0 to 8
      invariant forall j: nat, v: bv8 :: j < 8 ==> table[j, Index(v)] == if j < k then RevT(j, v) else T(j, v)
    {
      for n := 0 to 256
        invariant forall j: nat, v: bv8 :: j < 8 ==>
          table[j, Index(v)] == if j < k || (j == k && Index(v) < n) then RevT(j, v) else T(j, v)
      {
        ByteIndex(n);
        table[k, n] := Rev8(table[k, n]);
      }
    }
  }

  lemma BigByte(r: bv64, b: bv8)
    ensures Top(Rev8(r)) ^ b == Low(Xor(r, Wide(b)))
    ensures Up(Rev8(r)) == Rev8(Down(r))
  {}

  lemma BigByTable(entry: bv64, r: bv64, b: bv8)
    ensures Xor(Rev8(entry), Up(Rev8(r))) == Rev8(ByTable(entry, Xor(r, Wide(b))))
  {
    BigByte(r, b);
    ByTableIgnoresLow(entry, r, b);
    Rev8Xor(entry, Down(r));
  }

  method Lookup(table: array2<bv64>, ghost tab: (nat, bv8) -> bv64, b: bv8) returns (r: bv64)
    requires Holds(table, tab, 8)
    ensures r == tab(0, b)
  {
    r := table[0, Index(b)];
  }

  method BigByteLookup(table: array2<bv64>, crc: bv64, ghost r: bv64, buf: seq<bv8>, next: nat)
    returns (crc': bv64, ghost r': bv64)
    requires Holds(table, RevT, 8) && next < |buf|
    requires crc == Rev8(r)
    ensures crc' == Rev8(r')
    ensures Fold(r', buf[next + 1..]) == Fold(r, buf[next..])
  {
    var entry := Lookup(table, RevT, Top(crc) ^ buf[next]);
    crc' := Xor(entry, Up(crc));
    ghost var x := Xor(r, Wide(buf[next]));
    BigByte(r, buf[next]);
    BigByTable(T(0, Low(x)), r, buf[next]);
    r' := ByTable(T(0, Low(x)), x);
    FoldByte(r, buf, next);
  }

  /** The eight lookups of the big-endian word step. */
  function BigLookupEight(tab: (nat, bv8) -> bv64, x: bv64): bv64 {
    Xor8(
      tab(0, Low(x)), tab(1, Low(x >> 8)), tab(2, Low(x >> 16)), tab(3, Low(x >> 24)),
      tab(4, Low(x >> 32)), tab(5, Low(x >> 40)), tab(6, Low(x >> 48)), tab(7, Top(x)))
  }

  method BigLookupWord(table: array2<bv64>, ghost tab: (nat, bv8) -> bv64, x: bv64) returns (r: bv64)
    requires Holds(table, tab, 8)
    ensures r == BigLookupEight(tab, x)
  {
    r := Xor8(
      table[0, Index(Low(x))], table[1, Index(Low(x >> 8))],
      table[2, Index(Low(x >> 16))], table[3, Index(Low(x >> 24))],
      table[4, Index(Low(x >> 32))], table[5, Index(Low(x >> 40))],
      table[6, Index(Low(x >> 48))], table[7, Index(Top(x))]);
  }

  method BigWordLookup(table: array2<bv64>, crc: bv64, ghost r: bv64, buf: seq<bv8>, next: nat)
    returns (crc': bv64, ghost r': bv64)
    requires Holds(table, RevT, 8) && next + 8 <= |buf|
    requires crc == Rev8(r)
    ensures crc' == Rev8(r')
    ensures Fold(r', buf[next + 8..]) == Fold(r, buf[next..])
  {
    var word := buf[next..next + 8];
    crc' := BigLookupWord(table, RevT, Xor(crc, LoadBE(word)));
    ghost var y := Xor(r, LoadLE(word));
    LoadReversed(word);
    Rev8Xor(r, LoadLE(word));
    ScatterEight(RevT, y);
    BigEight(y);
    r' := Steps(64, y);
    FoldEight(r, buf, next);
  }

  /** `crcspeed64big`: byte-reversed tables and big-endian loads give the same value. */
  method SpeedBig(table: array2<bv64>, init: bv64, addr: nat, buf: seq<bv8>) returns (result: bv64)
    requires Holds(table, RevT, 8)
    ensures result == BitwiseCrc64(Reflect(init), buf)
  {
    ghost var r := init;
    var crc := Rev8(init);
    var next := 0;
    while next < |buf| && (addr + next) % 8 != 0
      invariant next <= |buf| && crc == Rev8(r)
      invariant Fold(r, buf[next..]) == Fold(init, buf)
    {
      crc, r := BigByteLookup(table, crc, r, buf, next);
      next := next + 1;
    }
    while |buf| - next >= 8
      invariant next <= |buf| && crc == Rev8(r)
      invariant Fold(r, buf[next..]) == Fold(init, buf)
    {
      crc, r := BigWordLookup(table, crc, r, buf, next);
      next := next + 8;
    }
    while next < |buf|
      invariant next <= |buf| && crc == Rev8(r)
      invariant Fold(r, buf[next..]) == Fold(init, buf)
    {
      crc, r := BigByteLookup(table, crc, r, buf, next);
      next := next + 1;
    }
    result := Rev8(crc);
    Rev8Facts(r);
    CrcReflects(Reflect(init), buf);
    ReflectInvolutive(init);
  }

  /** `crc64_init` followed by `crc64`, on either byte order. */
  method Crc64Native(littleEndian: bool, init: bv64, addr: nat, buf: seq<bv8>) returns (crc: bv64)
    ensures crc == BitwiseCrc64(Reflect(init), buf)
  {
    var table := new bv64[8, 256];
    if littleEndian {
      LittleInit(table);
      crc := SpeedLittle(table, init, addr, buf);
    } else {
      BigInit(table);
      crc := SpeedBig(table, init, addr, buf);
    }
  }
}
