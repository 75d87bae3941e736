/** Counting set bits: `redisPopcount` and BITCOUNT (bitops.c). */
module Popcount {
  import opened Bitmap

  // ----- The word-parallel sum -------------------------------------------------------------

  /** The three folding steps on one 32-bit word. */
  function Pairs(x: bv32): bv32 { x - ((x >> 1) & 0x55555555) }

  function Nibbles(x: bv32): bv32 { (x & 0x33333333) + ((x >> 2) & 0x33333333) }

  function Lanes(x: bv32): bv32 { (x + (x >> 4)) & 0x0F0F0F0F }

  /** Each byte of the result holds the number of set bits of that byte. */
  function LaneSums(x: bv32): bv32 {
    (x & 0x01010101) + ((x >> 1) & 0x01010101) + ((x >> 2) & 0x01010101) + ((x >> 3) & 0x01010101)
    + ((x >> 4) & 0x01010101) + ((x >> 5) & 0x01010101) + ((x >> 6) & 0x01010101) + ((x >> 7) & 0x01010101)
  }

  lemma FoldIsLaneSums(x: bv32)
    ensures Lanes(Nibbles(Pairs(x))) == LaneSums(x)
  {}

  /** A 32-bit load; the byte order does not matter for counting. */
  function Load(a: bv8, b: bv8, c: bv8, d: bv8): bv32 {
    (a as bv32) | ((b as bv32) << 8) | ((c as bv32) << 16) | ((d as bv32) << 24)
  }

  function ByteSum(x: bv8): bv8 {
    (x & 1) + ((x >> 1) & 1) + ((x >> 2) & 1) + ((x >> 3) & 1) + ((x >> 4) & 1) + ((x >> 5) & 1) + ((x >> 6) & 1) + ((x >> 7) & 1)
  }

  lemma LaneSumsOfLoad(a: bv8, b: bv8, c: bv8, d: bv8)
    ensures LaneSums(Load(a, b, c, d)) == Load(ByteSum(a), ByteSum(b), ByteSum(c), ByteSum(d))
  {}

  lemma ByteSumIsOnes(x: bv8)
    ensures ByteSum(x) <= 8 && ByteSum(x) as nat == Ones(x)
  {}

  lemma LoadValue(a: bv8, b: bv8, c: bv8, d: bv8)
    requires a <= 8 && b <= 8 && c <= 8 && d <= 8
    ensures Load(a, b, c, d) as nat == a as nat + 0x100 * (b as nat) + 0x10000 * (c as nat) + 0x1000000 * (d as nat)
  {}

  lemma FoldValue(a: bv8, b: bv8, c: bv8, d: bv8)
    ensures Lanes(Nibbles(Pairs(Load(a, b, c, d)))) as nat == Ones(a) + 0x100 * Ones(b) + 0x10000 * Ones(c) + 0x1000000 * Ones(d)
  {
    FoldIsLaneSums(Load(a, b, c, d));
    LaneSumsOfLoad(a, b, c, d);
    ByteSumIsOnes(a); ByteSumIsOnes(b); ByteSumIsOnes(c); ByteSumIsOnes(d);
    LoadValue(ByteSum(a), ByteSum(b), ByteSum(c), ByteSum(d));
  }

  /** One 32-bit word, folded to four byte counts. */
  method FoldBytes(x: bv8, y: bv8, z: bv8, t: bv8) returns (w: nat)
    ensures w == OnesBefore(x, 8) + 0x100 * OnesBefore(y, 8) + 0x10000 * OnesBefore(z, 8) + 0x1000000 * OnesBefore(t, 8)
  {
    var aux := Load(x, y, z, t);
    FoldValue(x, y, z, t);
    aux := Pairs(aux);
    aux := Nibbles(aux);
    w := Lanes(aux) as nat;
    OnesBeforeAll(x); OnesBeforeAll(y); OnesBeforeAll(z); OnesBeforeAll(t);
  }

  lemma WrapAround(low: nat, high: nat)
    requires low < 0x1_0000_0000
    ensures (low + high * 0x1_0000_0000) % 0x1_0000_0000 == low
  {}

  lemma TopByte(total: nat, rest: nat)
    requires rest < 0x1000000
    ensures (total * 0x1000000 + rest) / 0x1000000 == total
  {}

  /** The multiplication gathers the four lanes in the top byte. Seven words make lanes of at most 56, so the
      total, at most 224, fits there and nothing carries into it. */
  lemma GatherLanes(a: nat, b: nat, c: nat, d: nat)
    requires a <= 56 && b <= 56 && c <= 56 && d <= 56
    ensures Gather(a + 0x100 * b + 0x10000 * c + 0x1000000 * d) == a + b + c + d
  {
    var rest := (a + b + c) * 0x10000 + (a + b) * 0x100 + a;
    var high := (b + c + d) + 0x100 * (c + d) + 0x10000 * d;
    WrapAround((a + b + c + d) * 0x1000000 + rest, high);
    TopByte(a + b + c + d, rest);
  }

  /** `x * 0x01010101 >> 24` on an unsigned 32-bit integer. */
  function Gather(x: nat): nat { x * 0x01010101 % 0x1_0000_0000 / 0x1000000 }

  // The bit counts of the bytes, as numbers.

  function Sum(c: seq<nat>): nat { if c == [] then 0 else Sum(c[..|c| - 1]) + c[|c| - 1] }

  /** The counts of the bytes in lane j of n words. */
  function LaneTotal(c: seq<nat>, j: nat, n: nat): nat
    requires 4 * n <= |c| && j < 4
  {
    if n == 0 then 0 else LaneTotal(c, j, n - 1) + c[4 * (n - 1) + j]
  }

  function Packed(c: seq<nat>, k: nat): nat
    requires 4 * (k + 1) <= |c|
  {
    c[4 * k] + 0x100 * c[4 * k + 1] + 0x10000 * c[4 * k + 2] + 0x1000000 * c[4 * k + 3]
  }

  function PackedTotal(c: seq<nat>, n: nat): nat
    requires 4 * n <= |c|
  {
    if n == 0 then 0 else PackedTotal(c, n - 1) + Packed(c, n - 1)
  }

  lemma {:induction false} LaneBound(c: seq<nat>, j: nat, n: nat)
    requires 4 * n <= |c| && j < 4 && forall i :: 0 <= i < |c| ==> c[i] <= 8
    ensures LaneTotal(c, j, n) <= 8 * n
  {
    if n > 0 { LaneBound(c, j, n - 1); }
  }

  lemma {:induction false} PackedTotalValue(c: seq<nat>, n: nat)
    requires 4 * n <= |c|
    ensures PackedTotal(c, n) ==
            LaneTotal(c, 0, n) + 0x100 * LaneTotal(c, 1, n) + 0x10000 * LaneTotal(c, 2, n) + 0x1000000 * LaneTotal(c, 3, n)
  {
    if n > 0 { PackedTotalValue(c, n - 1); }
  }

  lemma SumStep(c: seq<nat>, i: nat)
    requires i < |c|
    ensures Sum(c[..i + 1]) == Sum(c[..i]) + c[i]
  {
    assert c[..i + 1][..i] == c[..i];
  }

  lemma {:induction false} LanesSum(c: seq<nat>, n: nat)
    requires 4 * n <= |c|
    ensures LaneTotal(c, 0, n) + LaneTotal(c, 1, n) + LaneTotal(c, 2, n) + LaneTotal(c, 3, n) == Sum(c[..4 * n])
  {
    if n > 0 {
      var k := 4 * (n - 1);
      LanesSum(c, n - 1);
      SumStep(c, k); SumStep(c, k + 1); SumStep(c, k + 2); SumStep(c, k + 3);
    }
  }

  /** Seven words at a time give the sum of 28 bytes. */
  lemma SevenWords(c: seq<nat>)
    requires |c| == 28 && forall i :: 0 <= i < 28 ==> c[i] <= 8
    ensures Gather(PackedTotal(c, 7) % 0x1_0000_0000) == Sum(c)
  {
    PackedTotalValue(c, 7);
    LanesSum(c, 7);
    assert c[..28] == c;
    LaneBound(c, 0, 7); LaneBound(c, 1, 7); LaneBound(c, 2, 7); LaneBound(c, 3, 7);
    GatherLanes(LaneTotal(c, 0, 7), LaneTotal(c, 1, 7), LaneTotal(c, 2, 7), LaneTotal(c, 3, 7));
  }

  /** The set bits of byte i. */
  function ByteCount(s: seq<bv8>, i: nat): nat
    requires i < |s|
  {
    OnesBefore(s[i], 8)
  }

  ghost predicate CountsFrom(s: seq<bv8>, i: nat, c: seq<nat>) {
    i + |c| <= |s| && forall j :: 0 <= j < |c| ==> c[j] == ByteCount(s, i + j)
  }

  lemma {:induction false} CountIsSum(s: seq<bv8>, i: nat, c: seq<nat>)
    requires CountsFrom(s, i, c)
    ensures Count(s, 8 * i, 8 * (i + |c|)) == Sum(c)
    decreases |c|
  {
    if c != [] {
      var n := |c| - 1;
      CountIsSum(s, i, c[..n]);
      CountSplit(s, 8 * i, 8 * (i + n), 8 * (i + n) + 8);
      CountInByte(s, i + n, 8);
      assert c[n] == ByteCount(s, i + n);
    }
  }

  // ----- redisPopcount -------------------------------------------------------------------------

  /** The byte table, by its two halves. */
  function BitsInByte(b: bv8): nat { Half(b >> 4) + Half(b & 15) }

  function Half(b: bv8): nat { [0, 1, 1, 2, 1, 2, 2, 3, 1, 2, 2, 3, 2, 3, 3, 4][(b & 15) as nat] }

  lemma TableIsOnes(b: bv8)
    ensures BitsInByte(b) == Ones(b)
  {}

  method CountOne(s: seq<bv8>, i: nat, bits: nat) returns (bits': nat)
    requires i < |s| && bits == Count(s, 0, 8 * i)
    ensures bits' == Count(s, 0, 8 * (i + 1))
  {
    TableIsOnes(s[i]);
    CountByte(s, i);
    CountSplit(s, 0, 8 * i, 8 * (i + 1));
    bits' := bits + BitsInByte(s[i]);
  }

  method FoldWord(s: seq<bv8>, i: nat) returns (w: nat, ghost a: nat, ghost b: nat, ghost c: nat, ghost d: nat)
    requires i + 4 <= |s|
    ensures w == a + 0x100 * b + 0x10000 * c + 0x1000000 * d && a <= 8 && b <= 8 && c <= 8 && d <= 8
    ensures a == ByteCount(s, i) && b == ByteCount(s, i + 1) && c == ByteCount(s, i + 2) && d == ByteCount(s, i + 3)
  {
    w := FoldBytes(s[i], s[i + 1], s[i + 2], s[i + 3]);
    a, b, c, d := ByteCount(s, i), ByteCount(s, i + 1), ByteCount(s, i + 2), ByteCount(s, i + 3);
    OnesBeforeBound(s[i], 8); OnesBeforeBound(s[i + 1], 8); OnesBeforeBound(s[i + 2], 8); OnesBeforeBound(s[i + 3], 8);
  }

  lemma {:induction false} OnesBeforeBound(b: bv8, k: nat)
    requires k <= 8
    ensures OnesBefore(b, k) <= k
  {
    if k > 0 { OnesBeforeBound(b, k - 1); }
  }

  method SumSeven(s: seq<bv8>, i: nat) returns (sum: nat, ghost counts: seq<nat>)
    requires i + 28 <= |s|
    ensures |counts| == 28 && CountsFrom(s, i, counts) && (forall j :: 0 <= j < 28 ==> counts[j] <= 8)
    ensures sum == PackedTotal(counts, 7)
  {
    sum, counts := 0, [];
    for k: nat := 0 to 7
      invariant |counts| == 4 * k && CountsFrom(s, i, counts) && (forall j :: 0 <= j < |counts| ==> counts[j] <= 8)
      invariant sum == PackedTotal(counts, k)
    {
      ghost var a, b, c, d;
      var w;
      w, a, b, c, d := FoldWord(s, i + 4 * k);
      PackedMore(counts, k, a, b, c, d);
      counts := counts + [a, b, c, d];
      sum := sum + w;
    }
  }

  /** Seven words at once. */
  method CountSeven(s: seq<bv8>, i: nat, bits: nat) returns (bits': nat)
    requires i + 28 <= |s| && bits == Count(s, 0, 8 * i)
    ensures bits' == Count(s, 0, 8 * (i + 28))
  {
    ghost var counts;
    var sum;
    sum, counts := SumSeven(s, i);
    SevenWords(counts);
    CountIsSum(s, i, counts);
    CountSplit(s, 0, 8 * i, 8 * (i + 28));
    bits' := bits + Gather(sum % 0x1_0000_0000);
  }

  lemma PackedMore(counts: seq<nat>, k: nat, a: nat, b: nat, c: nat, d: nat)
    requires |counts| == 4 * k
    ensures PackedTotal(counts + [a, b, c, d], k + 1) == PackedTotal(counts, k) + a + 0x100 * b + 0x10000 * c + 0x1000000 * d
  {
    PackedPrefix(counts, [a, b, c, d], k);
  }

  lemma {:induction false} PackedPrefix(x: seq<nat>, y: seq<nat>, n: nat)
    requires 4 * n <= |x|
    ensures PackedTotal(x + y, n) == PackedTotal(x, n)
  {
    if n > 0 { PackedPrefix(x, y, n - 1); }
  }

  /** The number of set bits of a string that starts at any address. */
  method RedisPopcount(s: seq<bv8>, address: nat) returns (bits: nat)
    ensures bits == Count(s, 0, 8 * |s|)
  {
    bits := 0;
    var i: nat := 0;
    while (address + i) % 4 != 0 && i < |s|
      invariant i <= |s| && bits == Count(s, 0, 8 * i)
      decreases |s| - i
    {
      bits := CountOne(s, i, bits);
      i := i + 1;
    }
    while |s| - i >= 28
      invariant i <= |s| && bits == Count(s, 0, 8 * i)
      decreases |s| - i
    {
      bits := CountSeven(s, i, bits);
      i := i + 28;
    }
    while i < |s|
      invariant i <= |s| && bits == Count(s, 0, 8 * i)
      decreases |s| - i
    {
      bits := CountOne(s, i, bits);
      i := i + 1;
    }
  }
}
