/** BITPOS over a range of bytes or bits (bitops.c, `bitposCommand`). */
module BitPos {
  import opened Collections
  import opened Bitmap
  import opened BitSearch
  import opened BitCount

  // ----- Parts of a search --------------------------------------------------------------------

  lemma {:induction false} FirstBitSplit(s: seq<bv8>, lo: nat, mid: nat, hi: nat, bit: bool)
    requires lo <= mid <= hi <= 8 * |s|
    ensures FirstBit(s, lo, mid, bit) < mid ==> FirstBit(s, lo, hi, bit) == FirstBit(s, lo, mid, bit)
    ensures FirstBit(s, lo, mid, bit) == mid ==> FirstBit(s, lo, hi, bit) == FirstBit(s, mid, hi, bit)
    decreases mid - lo
  {
    if lo < mid && BitAt(s, lo) != bit { FirstBitSplit(s, lo + 1, mid, hi, bit); }
  }

  lemma FirstBitUnique(s: seq<bv8>, lo: nat, hi: nat, bit: bool, r: nat)
    requires lo <= r <= hi <= 8 * |s| && (r < hi ==> BitAt(s, r) == bit) && forall i :: lo <= i < r ==> BitAt(s, i) != bit
    ensures FirstBit(s, lo, hi, bit) == r
  {
    FirstBitSkip(s, lo, r, hi, bit);
  }

  /** Searching a slice is searching that part of the string. */
  lemma SliceSearch(s: seq<bv8>, a: nat, b: nat, bit: bool)
    requires a <= b <= |s|
    ensures var r := FirstBit(s, 8 * a, 8 * b, bit);
      Position(s[a..b], bit) == if r < 8 * b then r - 8 * a else if bit then -1 else 8 * (b - a)
  {
    var part, r := s[a..b], FirstBit(s, 8 * a, 8 * b, bit);
    forall i | 0 <= i < 8 * (b - a) ensures BitAt(part, i) == BitAt(s, 8 * a + i) {
      assert (8 * a + i) / 8 == a + i / 8 && (8 * a + i) % 8 == i % 8;
    }
    FirstBitIs(s, 8 * a, 8 * b, bit);
    FirstBitUnique(part, 0, 8 * (b - a), bit, r - 8 * a);
  }

  /** x has the bits lo to hi of b, and the other bit elsewhere. */
  ghost predicate Masked(x: bv8, b: bv8, lo: nat, hi: nat, bit: bool) {
    forall i :: 0 <= i < 8 ==> Bit(x, i) == if lo <= i <= hi then Bit(b, i) else !bit
  }

  lemma MaskedBit(s: seq<bv8>, q: nat, lo: nat, hi: nat, x: bv8, bit: bool, i: nat)
    requires q < |s| && lo <= hi < 8 && Masked(x, s[q], lo, hi, bit) && i < 8
    ensures BitAt([x], i) == if lo <= i <= hi then BitAt(s, 8 * q + i) else !bit
  {
    assert (8 * q + i) / 8 == q && (8 * q + i) % 8 == i;
    assert Bit(x, i) == if lo <= i <= hi then Bit(s[q], i) else !bit;
  }

  /** Searching a masked byte is searching the bits that were left in. */
  lemma MaskedSearch(s: seq<bv8>, q: nat, lo: nat, hi: nat, x: bv8, bit: bool)
    requires q < |s| && lo <= hi < 8 && Masked(x, s[q], lo, hi, bit)
    ensures var r := FirstBit(s, 8 * q + lo, 8 * q + hi + 1, bit);
      Position([x], bit) == if r < 8 * q + hi + 1 then r - 8 * q else if bit then -1 else 8
  {
    var r := FirstBit(s, 8 * q + lo, 8 * q + hi + 1, bit);
    FirstBitIs(s, 8 * q + lo, 8 * q + hi + 1, bit);
    MaskedFirst(s, q, lo, hi, x, bit, r);
  }

  lemma MaskedFirst(s: seq<bv8>, q: nat, lo: nat, hi: nat, x: bv8, bit: bool, r: nat)
    requires q < |s| && lo <= hi < 8 && Masked(x, s[q], lo, hi, bit) && 8 * q + lo <= r <= 8 * q + hi + 1
    requires r < 8 * q + hi + 1 ==> BitAt(s, r) == bit
    requires forall i :: 8 * q + lo <= i < r ==> BitAt(s, i) != bit
    ensures FirstBit([x], 0, 8, bit) == if r < 8 * q + hi + 1 then r - 8 * q else 8
  {
    var e := if r < 8 * q + hi + 1 then r - 8 * q else 8;
    forall i | 0 <= i < e ensures BitAt([x], i) != bit { MaskedBit(s, q, lo, hi, x, bit, i); }
    if e < 8 { MaskedBit(s, q, lo, hi, x, bit, e); }
    FirstBitUnique([x], 0, 8, bit, e);
  }

  // ----- Masking the edge bytes -------------------------------------------------------------------

  /** Takes the bits in front of bit k out of the search. */
  function MaskFirst(b: bv8, k: nat, bit: bool): bv8
    requires k < 8
  {
    if bit then b & !FirstNegMask(k) else b | FirstNegMask(k)
  }

  /** Takes the bits after bit k out of the search. */
  function MaskLast(b: bv8, k: nat, bit: bool): bv8
    requires k < 8
  {
    if bit then b & !LastNegMask(k) else b | LastNegMask(k)
  }

  lemma MaskFirstBit(b: bv8, k: nat, bit: bool, i: nat)
    requires k < 8 && i < 8
    ensures Bit(MaskFirst(b, k, bit), i) == if i < k then !bit else Bit(b, i)
  {
    var m := FirstNegMask(k);
    FirstNegMaskBit(k, i);
    BitNot(m, i);
    BitAnd(b, !m, i);
    BitOr(b, m, i);
  }

  lemma MaskLastBit(b: bv8, k: nat, bit: bool, i: nat)
    requires k < 8 && i < 8
    ensures Bit(MaskLast(b, k, bit), i) == if i > k then !bit else Bit(b, i)
  {
    var m := LastNegMask(k);
    LastNegMaskBit(k, i);
    BitNot(m, i);
    BitAnd(b, !m, i);
    BitOr(b, m, i);
  }

  lemma MaskFirstIs(b: bv8, k: nat, bit: bool)
    requires k < 8
    ensures Masked(MaskFirst(b, k, bit), b, k, 7, bit)
  {
    forall i | 0 <= i < 8 ensures Bit(MaskFirst(b, k, bit), i) == if k <= i <= 7 then Bit(b, i) else !bit { MaskFirstBit(b, k, bit, i); }
  }

  lemma MaskLastIs(b: bv8, k: nat, bit: bool)
    requires k < 8
    ensures Masked(MaskLast(b, k, bit), b, 0, k, bit)
  {
    forall i | 0 <= i < 8 ensures Bit(MaskLast(b, k, bit), i) == if 0 <= i <= k then Bit(b, i) else !bit { MaskLastBit(b, k, bit, i); }
  }

  lemma MaskBothIs(b: bv8, k: nat, l: nat, bit: bool)
    requires k <= l < 8
    ensures Masked(MaskLast(MaskFirst(b, k, bit), l, bit), b, k, l, bit)
  {
    var x := MaskFirst(b, k, bit);
    forall i | 0 <= i < 8 ensures Bit(MaskLast(x, l, bit), i) == if k <= i <= l then Bit(b, i) else !bit {
      MaskFirstBit(b, k, bit, i);
      MaskLastBit(x, l, bit, i);
    }
  }

  // ----- The three-part search --------------------------------------------------------------------

  /** Where a search of the bits lo up to hi stands: pos counts from byte start, and bytes are left. */
  ghost predicate Answers(s: seq<bv8>, lo: nat, hi: nat, bit: bool, pos: int, start: nat, bytes: nat)
    requires lo <= hi <= 8 * |s|
  {
    var r := FirstBit(s, lo, hi, bit);
    if r < hi then pos != -1 && pos + 8 * start == r && pos < 8 * bytes
    else pos == if bit then -1 else 8 * bytes
  }

  /** Searches bits firstBit of byte first to lastBit of byte last: a masked first byte, whole bytes, a masked
      last byte, with the early exits between them. */
  method SearchRange(s: seq<bv8>, address: nat, first: nat, firstBit: nat, last: nat, lastBit: nat, bit: bool)
    returns (pos: int, start: nat, bytes: nat)
    requires first <= last < |s| && firstBit < 8 && lastBit < 8 && (first == last ==> firstBit <= lastBit)
    ensures start + bytes == last + 1
    ensures Answers(s, 8 * first + firstBit, 8 * last + lastBit + 1, bit, pos, start, bytes)
  {
    start, bytes := first, last - first + 1;
    FirstNegMaskBit(firstBit, 0);
    if FirstNegMask(firstBit) != 0 {
      pos := FirstByte(s, first, firstBit, last, lastBit, bit);
      if first < last { FirstBitSplit(s, 8 * first + firstBit, 8 * first + 8, 8 * last + lastBit + 1, bit); }
      if bytes == 1 || (pos != -1 && pos != 8) { return; }
      start := start + 1;
    }
    pos, start, bytes := SearchRest(s, address, start, last, lastBit, bit);
  }

  /** The whole bytes, then the last byte if it is masked. */
  method SearchRest(s: seq<bv8>, address: nat, from: nat, last: nat, lastBit: nat, bit: bool)
    returns (pos: int, start: nat, bytes: nat)
    requires from <= last < |s| && lastBit < 8
    ensures start + bytes == last + 1
    ensures Answers(s, 8 * from, 8 * last + lastBit + 1, bit, pos, start, bytes)
  {
    start, bytes := from, last - from + 1;
    LastNegMaskBit(lastBit, 0);
    var whole := bytes - if LastNegMask(lastBit) != 0 then 1 else 0;
    if whole > 0 {
      pos := WholeBytes(s, address, start, whole, last, lastBit, bit);
      if bytes == whole || (pos != -1 && pos != 8 * whole) { return; }
      start, bytes := start + whole, bytes - whole;
    }
    pos := LastByte(s, last, lastBit, bit);
  }

  method WholeBytes(s: seq<bv8>, address: nat, from: nat, whole: nat, last: nat, lastBit: nat, bit: bool) returns (pos: int)
    requires 0 < whole && from + whole <= last + 1 <= |s| && lastBit < 8 && (from + whole == last + 1 ==> lastBit == 7)
    ensures var lo, hi := 8 * from, 8 * last + lastBit + 1;
      && (from + whole == last + 1 ==> Answers(s, lo, hi, bit, pos, from, whole))
      && (pos != -1 && pos != 8 * whole ==> Answers(s, lo, hi, bit, pos, from, whole))
      && (pos == -1 || pos == 8 * whole ==> FirstBit(s, lo, hi, bit) == FirstBit(s, 8 * (from + whole), hi, bit))
  {
    pos := RedisBitpos(s[from..from + whole], address + from, bit);
    SliceSearch(s, from, from + whole, bit);
    FirstBitSplit(s, 8 * from, 8 * (from + whole), 8 * last + lastBit + 1, bit);
  }

  method LastByte(s: seq<bv8>, last: nat, lastBit: nat, bit: bool) returns (pos: int)
    requires last < |s| && lastBit < 8
    ensures Answers(s, 8 * last, 8 * last + lastBit + 1, bit, pos, last, 1)
  {
    MaskLastIs(s[last], lastBit, bit);
    pos := RedisBitpos([MaskLast(s[last], lastBit, bit)], 0, bit);
    MaskedSearch(s, last, 0, lastBit, MaskLast(s[last], lastBit, bit), bit);
  }

  /** The first byte, masked; also at its end when it is the last one too. */
  method FirstByte(s: seq<bv8>, first: nat, firstBit: nat, last: nat, lastBit: nat, bit: bool) returns (pos: int)
    requires first <= last < |s| && firstBit < 8 && lastBit < 8 && (first == last ==> firstBit <= lastBit)
    ensures Answers(s, 8 * first + firstBit, if first == last then 8 * last + lastBit + 1 else 8 * first + 8, bit, pos, first, 1)
  {
    var x := MaskEdges(s[first], firstBit, first == last, lastBit, bit);
    ghost var end := if first == last then lastBit else 7;
    pos := RedisBitpos([x], 0, bit);
    MaskedSearch(s, first, firstBit, end, x, bit);
  }

  method MaskEdges(b: bv8, firstBit: nat, both: bool, lastBit: nat, bit: bool) returns (x: bv8)
    requires firstBit < 8 && lastBit < 8 && (both ==> firstBit <= lastBit)
    ensures Masked(x, b, firstBit, if both then lastBit else 7, bit)
  {
    x := MaskFirst(b, firstBit, bit);
    MaskFirstIs(b, firstBit, bit);
    LastNegMaskBit(lastBit, 0);
    if LastNegMask(lastBit) != 0 && both {
      MaskBothIs(b, firstBit, lastBit, bit);
      x := MaskLast(x, lastBit, bit);
    }
  }

  // ----- The command ----------------------------------------------------------------------------------

  datatype Query = All | From(start: int) | FromTo(start: int, end: int, isBit: bool)

  /** Whether the query covers bit i of a string of len bytes. */
  predicate Selects(query: Query, len: nat, i: nat) {
    match query
    case All => true
    case From(start) => Resolve(len, start) <= i / 8
    case FromTo(start, end, isBit) =>
      var total, at := if isBit then 8 * len else len, if isBit then i else i / 8;
      Resolve(total, start) <= at <= Resolve(total, end)
  }

  /** A query covers whole bytes unless it counts in bits; without an end it goes on to the end of the string. */
  lemma SelectsMeans(start: nat, end: nat, len: nat, i: nat)
    ensures Selects(All, len, i) && (Selects(From(start), len, i) <==> 8 * start <= i)
    ensures Selects(FromTo(start, end, false), len, i) <==> 8 * start <= i < 8 * end + 8
    ensures Selects(FromTo(start, end, true), len, i) <==> start <= i <= end
    ensures 0 < start <= len ==> (Selects(From(0 - start), len, i) <==> 8 * (len - start) <= i)
  {}

  /** What BITPOS promises: the first selected position with the bit; without one, -1, unless a clear bit is
      looked for in a non-empty range without an explicit end: then the position after the string. */
  ghost predicate Promised(s: seq<bv8>, bit: bool, query: Query, pos: int) {
    && (forall i: nat :: i < 8 * |s| && Selects(query, |s|, i) && BitAt(s, i) == bit ==> 0 <= pos <= i)
    && (0 <= pos < 8 * |s| ==> Selects(query, |s|, pos) && BitAt(s, pos) == bit)
    && (pos < 0 ==> pos == -1)
    && (pos >= 8 * |s| ==> pos == 8 * |s| && !bit && !query.FromTo? && exists i: nat :: i < 8 * |s| && Selects(query, |s|, i))
    && (pos == -1 && !bit && !query.FromTo? ==> forall i: nat :: i < 8 * |s| ==> !Selects(query, |s|, i))
  }

  /** The clamped bounds select what the query selects. */
  ghost predicate Bounds(query: Query, len: nat, isBit: bool, from: int, to: int) {
    var total := if isBit then 8 * len else len;
    && isBit == (query.FromTo? && query.isBit) && from == (if query.All? then 0 else Resolve(total, query.start))
    && var end := if query.FromTo? then Resolve(total, query.end) else total - 1; to == if end >= total then total - 1 else end
  }

  ghost predicate SelectsExactly(query: Query, len: nat, lo: nat, hi: nat) {
    forall i: nat :: i < 8 * len ==> (Selects(query, len, i) <==> lo <= i < hi)
  }

  lemma BoundsSelect(query: Query, len: nat, isBit: bool, from: int, to: int)
    requires Bounds(query, len, isBit, from, to)
    ensures from > to ==> SelectsExactly(query, len, 0, 0)
    ensures from <= to ==> SelectsExactly(query, len, if isBit then from else 8 * from, if isBit then to + 1 else 8 * to + 8)
    ensures from <= to ==> 0 <= from && to < if isBit then 8 * len else len
    ensures from <= to && !query.FromTo? ==> to == len - 1
  {}

  lemma EmptyPromise(s: seq<bv8>, bit: bool, query: Query)
    requires SelectsExactly(query, |s|, 0, 0)
    ensures Promised(s, bit, query, -1)
  {}

  lemma SearchPromise(s: seq<bv8>, bit: bool, query: Query, lo: nat, hi: nat, pos: int)
    requires lo < hi <= 8 * |s| && SelectsExactly(query, |s|, lo, hi) && (!query.FromTo? ==> hi == 8 * |s|)
    requires var r := FirstBit(s, lo, hi, bit); pos == if r < hi then r else if bit || query.FromTo? then -1 else 8 * |s|
    ensures Promised(s, bit, query, pos)
  {
    FirstBitIs(s, lo, hi, bit);
    assert Selects(query, |s|, lo);
  }

  method BitPosCommand(s: seq<bv8>, address: nat, bit: bool, query: Query) returns (pos: int)
    ensures Promised(s, bit, query, pos)
  {
    var isBit := query.FromTo? && query.isBit;
    var total := if isBit then 8 * |s| else |s|;
    var from, to := 0, |s| - 1;
    if !query.All? {
      from, to := query.start, if query.FromTo? then query.end else total - 1;
      if from < 0 { from := total + from; }
      if to < 0 { to := total + to; }
      if from < 0 { from := 0; }
      if to < 0 { to := 0; }
      if to >= total { to := total - 1; }
    }
    BoundsSelect(query, |s|, isBit, from, to);
    if from > to {
      EmptyPromise(s, bit, query);
      return -1;
    }
    pos := SearchBounds(s, address, bit, query, isBit, from, to);
  }

  /** The search between clamped bounds and the treatment of its result. */
  method SearchBounds(s: seq<bv8>, address: nat, bit: bool, query: Query, isBit: bool, from: nat, to: nat) returns (pos: int)
    requires from <= to < (if isBit then 8 * |s| else |s|) && (!query.FromTo? ==> !isBit && to == |s| - 1)
    requires SelectsExactly(query, |s|, if isBit then from else 8 * from, if isBit then to + 1 else 8 * to + 8)
    ensures Promised(s, bit, query, pos)
  {
    var first, firstBit, last, lastBit := from, 0, to, 7;
    if isBit { first, firstBit, last, lastBit := from / 8, from % 8, to / 8, to % 8; }
    var start, bytes;
    pos, start, bytes := SearchRange(s, address, first, firstBit, last, lastBit, bit);
    ghost var lo, hi := 8 * first + firstBit, 8 * last + lastBit + 1;
    if query.FromTo? && !bit && pos == 8 * bytes {
      pos := -1;
    } else if pos != -1 {
      pos := pos + 8 * start;
    }
    SearchPromise(s, bit, query, lo, hi, pos);
  }

  /** A missing key is an endless string of clear bits. */
  method BitPosOfKey(value: Option<seq<bv8>>, address: nat, bit: bool, query: Query) returns (pos: int)
    ensures value.None? ==> pos == if bit then -1 else 0
    ensures value.Some? ==> Promised(value.value, bit, query, pos)
  {
    if value.None? { return if bit then -1 else 0; }
    pos := BitPosCommand(value.value, address, bit, query);
  }

}
