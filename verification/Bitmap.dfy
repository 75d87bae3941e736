/** Strings as arrays of bits, the first bit being the most significant bit of the first byte. */
module Bitmap {
  import opened Collections

  function Bit(b: bv8, i: nat): bool
    requires i < 8
  {
    if i == 0 then b & 0x80 != 0
    else if i == 1 then b & 0x40 != 0
    else if i == 2 then b & 0x20 != 0
    else if i == 3 then b & 0x10 != 0
    else if i == 4 then b & 0x08 != 0
    else if i == 5 then b & 0x04 != 0
    else if i == 6 then b & 0x02 != 0
    else b & 0x01 != 0
  }

  predicate BitAt(s: seq<bv8>, i: nat)
    requires i < 8 * |s|
  {
    Bit(s[i / 8], i % 8)
  }

  /** The number of set bits in the positions from lo up to, not including, hi. */
  function Count(s: seq<bv8>, lo: nat, hi: nat): nat
    requires lo <= hi <= 8 * |s|
    decreases hi - lo
  {
    if lo == hi then 0 else One(BitAt(s, lo)) + Count(s, lo + 1, hi)
  }

  lemma {:induction false} CountSplit(s: seq<bv8>, lo: nat, mid: nat, hi: nat)
    requires lo <= mid <= hi <= 8 * |s|
    ensures Count(s, lo, hi) == Count(s, lo, mid) + Count(s, mid, hi)
    decreases mid - lo
  {
    if lo < mid { CountSplit(s, lo + 1, mid, hi); }
  }

  /** The set bits of one byte. */
  function Ones(b: bv8): nat {
    One(Bit(b, 0)) + One(Bit(b, 1)) + One(Bit(b, 2)) + One(Bit(b, 3)) + One(Bit(b, 4)) + One(Bit(b, 5)) + One(Bit(b, 6)) + One(Bit(b, 7))
  }

  /** The set bits of a byte in front of its bit k. */
  function OnesBefore(b: bv8, k: nat): nat
    requires k <= 8
  {
    if k == 0 then 0 else OnesBefore(b, k - 1) + One(Bit(b, k - 1))
  }

  lemma OnesBeforeAll(b: bv8)
    ensures OnesBefore(b, 8) == Ones(b)
  {
    assert OnesBefore(b, 1) == One(Bit(b, 0));
    assert OnesBefore(b, 2) == OnesBefore(b, 1) + One(Bit(b, 1));
    assert OnesBefore(b, 3) == OnesBefore(b, 2) + One(Bit(b, 2));
    assert OnesBefore(b, 4) == OnesBefore(b, 3) + One(Bit(b, 3));
    assert OnesBefore(b, 5) == OnesBefore(b, 4) + One(Bit(b, 4));
    assert OnesBefore(b, 6) == OnesBefore(b, 5) + One(Bit(b, 5));
    assert OnesBefore(b, 7) == OnesBefore(b, 6) + One(Bit(b, 6));
  }

  lemma {:induction false} CountInByte(s: seq<bv8>, i: nat, k: nat)
    requires i < |s| && k <= 8
    ensures Count(s, 8 * i, 8 * i + k) == OnesBefore(s[i], k)
  {
    if k > 0 {
      CountInByte(s, i, k - 1);
      CountSplit(s, 8 * i, 8 * i + k - 1, 8 * i + k);
      assert (8 * i + k - 1) / 8 == i && (8 * i + k - 1) % 8 == k - 1;
      assert Count(s, 8 * i + k, 8 * i + k) == 0;
    }
  }

  lemma CountByte(s: seq<bv8>, i: nat)
    requires i < |s|
    ensures Count(s, 8 * i, 8 * i + 8) == Ones(s[i])
  {
    CountInByte(s, i, 8);
    OnesBeforeAll(s[i]);
  }

  // ----- Edge masks ----------------------------------------------------------------------------

  /** The bits of a byte in front of bit k; C computes in int. */
  function FirstNegMask(k: nat): bv8
    requires k < 8
  {
    (!(((1 as bv16) << (8 - k)) - 1) & 0xFF) as bv8
  }

  /** The bits of a byte after bit k. */
  function LastNegMask(k: nat): bv8
    requires k < 8
  {
    (((1 as bv16) << (7 - k)) - 1) as bv8
  }

  lemma FirstNegMaskIs(k: nat)
    requires k < 8
    ensures FirstNegMask(k) == [0, 0x80, 0xC0, 0xE0, 0xF0, 0xF8, 0xFC, 0xFE][k]
  {}

  lemma LastNegMaskIs(k: nat)
    requires k < 8
    ensures LastNegMask(k) == [0x7F, 0x3F, 0x1F, 0x0F, 0x07, 0x03, 0x01, 0][k]
  {}

  lemma FirstNegMaskBit(k: nat, i: nat)
    requires k < 8 && i < 8
    ensures Bit(FirstNegMask(k), i) <==> i < k
    ensures FirstNegMask(k) == 0 <==> k == 0
  {
    FirstNegMaskIs(k);
  }

  lemma LastNegMaskBit(k: nat, i: nat)
    requires k < 8 && i < 8
    ensures Bit(LastNegMask(k), i) <==> i > k
    ensures LastNegMask(k) == 0 <==> k == 7
  {
    LastNegMaskIs(k);
  }

  lemma BitAnd(x: bv8, y: bv8, i: nat)
    requires i < 8
    ensures Bit(x & y, i) <==> Bit(x, i) && Bit(y, i)
  {}

  lemma BitOr(x: bv8, y: bv8, i: nat)
    requires i < 8
    ensures Bit(x | y, i) <==> Bit(x, i) || Bit(y, i)
  {}

  lemma BitNot(x: bv8, i: nat)
    requires i < 8
    ensures Bit(!x, i) <==> !Bit(x, i)
  {}

  /** x has the bits of b in front of bit k, and no others. */
  ghost predicate InFront(x: bv8, b: bv8, k: nat) { forall i :: 0 <= i < 8 ==> (Bit(x, i) <==> Bit(b, i) && i < k) }

  /** x has the bits of b after bit k, and no others. */
  ghost predicate After(x: bv8, b: bv8, k: nat) { forall i :: 0 <= i < 8 ==> (Bit(x, i) <==> Bit(b, i) && i > k) }

  lemma MaskInFront(b: bv8, k: nat)
    requires k < 8
    ensures InFront(b & FirstNegMask(k), b, k)
  {
    forall i | 0 <= i < 8 ensures Bit(b & FirstNegMask(k), i) <==> Bit(b, i) && i < k {
      FirstNegMaskBit(k, i);
      BitAnd(b, FirstNegMask(k), i);
    }
  }

  lemma MaskAfter(b: bv8, k: nat)
    requires k < 8
    ensures After(b & LastNegMask(k), b, k)
  {
    forall i | 0 <= i < 8 ensures Bit(b & LastNegMask(k), i) <==> Bit(b, i) && i > k {
      LastNegMaskBit(k, i);
      BitAnd(b, LastNegMask(k), i);
    }
  }

  lemma {:induction false} OnesInFront(x: bv8, b: bv8, k: nat, n: nat)
    requires k < 8 && n <= 8 && InFront(x, b, k)
    ensures OnesBefore(x, n) == OnesBefore(b, if n <= k then n else k)
  {
    if n > 0 { OnesInFront(x, b, k, n - 1); }
  }

  lemma {:induction false} OnesAfter(x: bv8, b: bv8, k: nat, n: nat)
    requires k < 8 && n <= 8 && After(x, b, k)
    ensures OnesBefore(x, n) == if n <= k + 1 then 0 else OnesBefore(b, n) - OnesBefore(b, k + 1)
  {
    if n > 0 { OnesAfter(x, b, k, n - 1); }
  }
}
