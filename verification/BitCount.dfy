/** BITCOUNT over a range of bytes or bits (bitops.c, `bitcountCommand`). */
module BitCount {
  import opened Bitmap
  import opened Popcount

  datatype Range = Whole | Between(start: int, end: int, isBit: bool)

  /** A position given from the start, or from the end when negative. */
  function Resolve(total: nat, x: int): nat { if x >= 0 then x else if total + x >= 0 then total + x else 0 }

  /** Whether the range covers bit i of a string of len bytes. Two negative bounds in the wrong order cover nothing. */
  predicate Covers(range: Range, len: nat, i: nat) {
    match range
    case Whole => true
    case Between(start, end, isBit) =>
      var total, at := if isBit then 8 * len else len, if isBit then i else i / 8;
      !(start < 0 && end < 0 && start > end) && Resolve(total, start) <= at <= Resolve(total, end)
  }

  /** A bound counts from the start; a negative one from the end, and not further than to the start. */
  lemma BoundMeans(total: nat, x: int)
    ensures x >= 0 ==> Resolve(total, x) == x
    ensures 0 - total <= x < 0 ==> Resolve(total, x) - total == x
    ensures x < 0 - total ==> Resolve(total, x) == 0
  {}

  /** Counting in bytes, a bit is covered with its byte; counting in bits, alone. From the first bound to the second. */
  lemma CoversMeans(start: nat, end: nat, len: nat, i: nat)
    ensures Covers(Between(start, end, true), len, i) <==> start <= i <= end
    ensures Covers(Between(start, end, false), len, i) <==> 8 * start <= i < 8 * end + 8
    ensures Covers(Whole, len, i)
    ensures 0 < start <= len && 0 < end <= len ==>
      (Covers(Between(0 - start, 0 - end, false), len, i) <==> end <= start && 8 * (len - start) <= i < 8 * (len - end) + 8)
  {}

  ghost function SetBits(s: seq<bv8>, range: Range): set<nat> {
    set i: nat | i < 8 * |s| && Covers(range, |s|, i) && BitAt(s, i)
  }

  ghost function SetBitsIn(s: seq<bv8>, lo: nat, hi: nat): set<nat> {
    set i: nat | i < 8 * |s| && lo <= i < hi && BitAt(s, i)
  }

  lemma SetBitsStep(s: seq<bv8>, lo: nat, hi: nat)
    requires lo < hi <= 8 * |s|
    ensures SetBitsIn(s, lo, hi) == if BitAt(s, lo) then SetBitsIn(s, lo + 1, hi) + {lo} else SetBitsIn(s, lo + 1, hi)
  {}

  lemma {:induction false} CountIsCardinality(s: seq<bv8>, lo: nat, hi: nat)
    requires lo <= hi <= 8 * |s|
    ensures Count(s, lo, hi) == |SetBitsIn(s, lo, hi)|
    decreases hi - lo
  {
    if lo == hi {
      assert SetBitsIn(s, lo, hi) == {};
    } else {
      CountIsCardinality(s, lo + 1, hi);
      SetBitsStep(s, lo, hi);
      assert lo !in SetBitsIn(s, lo + 1, hi);
    }
  }

  // ----- Parts of a string ------------------------------------------------------------------------

  lemma {:induction false} CountSlice(s: seq<bv8>, a: nat, b: nat, lo: nat)
    requires a <= b <= |s| && lo <= 8 * (b - a)
    ensures Count(s[a..b], lo, 8 * (b - a)) == Count(s, 8 * a + lo, 8 * b)
    decreases 8 * (b - a) - lo
  {
    if lo < 8 * (b - a) {
      CountSlice(s, a, b, lo + 1);
      assert (8 * a + lo) / 8 == a + lo / 8 && (8 * a + lo) % 8 == lo % 8;
    }
  }

  /** The set bits of byte q in front of its bit r. */
  lemma CountInFront(s: seq<bv8>, q: nat, r: nat, x: bv8)
    requires q < |s| && r < 8 && InFront(x, s[q], r)
    ensures OnesBefore(x, 8) == Count(s, 8 * q, 8 * q + r)
  {
    OnesInFront(x, s[q], r, 8);
    CountInByte(s, q, r);
  }

  /** The set bits of byte q after its bit r. */
  lemma CountAfter(s: seq<bv8>, q: nat, r: nat, x: bv8)
    requires q < |s| && r < 8 && After(x, s[q], r)
    ensures OnesBefore(x, 8) == Count(s, 8 * q + r + 1, 8 * q + 8)
  {
    OnesAfter(x, s[q], r, 8);
    CountInByte(s, q, r + 1);
    CountInByte(s, q, 8);
    CountSplit(s, 8 * q, 8 * q + r + 1, 8 * q + 8);
  }

  lemma CountTwo(x: bv8, y: bv8)
    ensures Count([x, y], 0, 16) == OnesBefore(x, 8) + OnesBefore(y, 8)
  {
    CountInByte([x, y], 0, 8);
    CountInByte([x, y], 1, 8);
    CountSplit([x, y], 0, 8, 16);
  }

  lemma NoBits(k: nat)
    requires k <= 8
    ensures OnesBefore(0, k) == 0
  {
    if k > 0 { NoBits(k - 1); }
  }

  // ----- The command -----------------------------------------------------------------------------

  /** Counts whole bytes and takes away the bits of the edge bytes that are outside. */
  method CountBits(s: seq<bv8>, address: nat, start: nat, end: nat) returns (count: int)
    requires start <= end < 8 * |s|
    ensures count == Count(s, start, end + 1)
  {
    var first, firstBit, last, lastBit := start / 8, start % 8, end / 8, end % 8;
    count := CountBytes(s, address, first, last);
    var outside := EdgeBits(s, first, firstBit, last, lastBit);
    CountSplit(s, 8 * first, start, 8 * last + 8);
    CountSplit(s, start, end + 1, 8 * last + 8);
    count := count - outside;
  }

  method CountBytes(s: seq<bv8>, address: nat, first: nat, last: nat) returns (count: nat)
    requires first <= last < |s|
    ensures count == Count(s, 8 * first, 8 * last + 8)
  {
    count := RedisPopcount(s[first..last + 1], address + first);
    CountSlice(s, first, last + 1, 0);
  }

  /** The set bits in front of the first bit and after the last bit, which may be in the same byte. */
  method EdgeBits(s: seq<bv8>, first: nat, firstBit: nat, last: nat, lastBit: nat) returns (outside: nat)
    requires first < |s| && firstBit < 8 && last < |s| && lastBit < 8
    ensures outside == Count(s, 8 * first, 8 * first + firstBit) + Count(s, 8 * last + lastBit + 1, 8 * last + 8)
  {
    var firstMask, lastMask := FirstNegMask(firstBit), LastNegMask(lastBit);
    MaskInFront(s[first], firstBit);
    MaskAfter(s[last], lastBit);
    var before, after := s[first] & firstMask, s[last] & lastMask;
    CountInFront(s, first, firstBit, before);
    CountAfter(s, last, lastBit, after);
    outside := MaskedOnes(before, firstMask, after, lastMask);
  }

  method MaskedOnes(before: bv8, firstMask: bv8, after: bv8, lastMask: bv8) returns (outside: nat)
    requires (firstMask == 0 ==> before == 0) && (lastMask == 0 ==> after == 0)
    ensures outside == OnesBefore(before, 8) + OnesBefore(after, 8)
  {
    NoBits(8);
    outside := 0;
    if firstMask != 0 || lastMask != 0 {
      var firstLast := [if firstMask != 0 then before else 0, if lastMask != 0 then after else 0];
      outside := RedisPopcount(firstLast, 0);
      CountTwo(firstLast[0], firstLast[1]);
    }
  }

  /** The clamped bounds cover what the range covers. */
  lemma RangeIs(s: seq<bv8>, range: Range, total: nat, from: int, to: int)
    requires range.Between? && !(range.start < 0 && range.end < 0 && range.start > range.end)
    requires total == if range.isBit then 8 * |s| else |s|
    requires from == Resolve(total, range.start)
    requires to == if Resolve(total, range.end) >= total then total - 1 else Resolve(total, range.end)
    ensures from > to ==> SetBits(s, range) == {}
    ensures from <= to ==>
      SetBits(s, range) == SetBitsIn(s, if range.isBit then from else 8 * from, if range.isBit then to + 1 else 8 * to + 8)
  {}

  /** BITCOUNT counts the set bits the range covers, each once. */
  method BitCountCommand(s: seq<bv8>, address: nat, range: Range) returns (count: int)
    ensures count == |SetBits(s, range)|
  {
    match range
    case Whole =>
      count := RedisPopcount(s, address);
      CountIsCardinality(s, 0, 8 * |s|);
      assert SetBits(s, range) == SetBitsIn(s, 0, 8 * |s|);
    case Between(start, end, isBit) =>
      if start < 0 && end < 0 && start > end {
        assert SetBits(s, range) == {};
        return 0;
      }
      var total := if isBit then 8 * |s| else |s|;
      var from, to := start, end;
      if from < 0 { from := total + from; }
      if to < 0 { to := total + to; }
      if from < 0 { from := 0; }
      if to < 0 { to := 0; }
      if to >= total { to := total - 1; }
      RangeIs(s, range, total, from, to);
      if from > to { return 0; }
      if isBit {
        count := CountBits(s, address, from, to);
      } else {
        count := CountBytes(s, address, from, to);
      }
      CountIsCardinality(s, if isBit then from else 8 * from, if isBit then to + 1 else 8 * to + 8);
  }

  // ----- Negative bounds in the wrong order ----------------------------------------------------------

  /** The set bits between the two bounds, each clamped to the string. */
  ghost function BetweenBounds(s: seq<bv8>, start: int, end: int, isBit: bool): set<nat> {
    var total := if isBit then 8 * |s| else |s|;
    set i: nat | i < 8 * |s| && Resolve(total, start) <= (if isBit then i else i / 8) <= Resolve(total, end) && BitAt(s, i)
  }

  /** The first byte, or for BIT the first bit, has a set bit. */
  ghost predicate FirstIsSet(s: seq<bv8>, isBit: bool) {
    exists i: nat :: i < 8 * |s| && i < (if isBit then 1 else 8) && BitAt(s, i)
  }

  /** BITCOUNT counts the set bits between the clamped bounds, except that it counts nothing when both bounds are
      negative, in the wrong order, and reach back to or beyond the start: then a set bit in the first unit is missed. */
  lemma ReversedBounds(s: seq<bv8>, start: int, end: int, isBit: bool)
    ensures var total := if isBit then 8 * |s| else |s|;
      |SetBits(s, Between(start, end, isBit))| == |BetweenBounds(s, start, end, isBit)| <==>
      !(start < 0 && end < 0 && start > end && total + start <= 0 && FirstIsSet(s, isBit))
  {
    var total := if isBit then 8 * |s| else |s|;
    var counted, between := SetBits(s, Between(start, end, isBit)), BetweenBounds(s, start, end, isBit);
    if start < 0 && end < 0 && start > end {
      assert counted == {};
      if total + start <= 0 {
        if FirstIsSet(s, isBit) {
          var i: nat :| i < 8 * |s| && i < (if isBit then 1 else 8) && BitAt(s, i);
          assert i in between;
        } else {
          assert between == {};
        }
      } else {
        assert between == {};
      }
    } else {
      assert counted == between;
    }
  }

  /** One byte of ones, from -5 to -10: nothing is counted, though both bounds are clamped to that byte. */
  lemma ReversedExample()
    ensures |SetBits([0xFF], Between(-5, -10, false))| == 0
    ensures forall i: nat :: i < 8 ==> i in BetweenBounds([0xFF], -5, -10, false)
  {
    var s: seq<bv8> := [0xFF];
    assert SetBits(s, Between(-5, -10, false)) == {};
    forall i: nat | i < 8 ensures i in BetweenBounds(s, -5, -10, false) {
      AllOnes(i);
      assert BitAt(s, i) && Resolve(1, -5) == 0 == Resolve(1, -10);
    }
  }

  lemma AllOnes(i: nat)
    requires i < 8
    ensures Bit(0xFF, i)
  {}
}
