/** Finding the first set or clear bit: `redisBitpos` (bitops.c). */
module BitSearch {
  import opened Bitmap

  /** The first position from lo on holding the bit, or hi. */
  function FirstBit(s: seq<bv8>, lo: nat, hi: nat, bit: bool): (r: nat)
    requires lo <= hi <= 8 * |s|
    ensures lo <= r <= hi
    decreases hi - lo
  {
    if lo == hi || BitAt(s, lo) == bit then lo else FirstBit(s, lo + 1, hi, bit)
  }

  lemma {:induction false} FirstBitIs(s: seq<bv8>, lo: nat, hi: nat, bit: bool)
    requires lo <= hi <= 8 * |s|
    ensures FirstBit(s, lo, hi, bit) < hi ==> BitAt(s, FirstBit(s, lo, hi, bit)) == bit
    ensures forall i :: lo <= i < FirstBit(s, lo, hi, bit) ==> BitAt(s, i) != bit
    decreases hi - lo
  {
    if lo < hi && BitAt(s, lo) != bit { FirstBitIs(s, lo + 1, hi, bit); }
  }

  lemma {:induction false} FirstBitSkip(s: seq<bv8>, lo: nat, mid: nat, hi: nat, bit: bool)
    requires lo <= mid <= hi <= 8 * |s| && forall i :: lo <= i < mid ==> BitAt(s, i) != bit
    ensures FirstBit(s, lo, hi, bit) == FirstBit(s, mid, hi, bit)
    decreases mid - lo
  {
    if lo < mid { FirstBitSkip(s, lo + 1, mid, hi, bit); }
  }

  // ----- Bytes and words without the bit ------------------------------------------------------

  function Skip(bit: bool): bv8 { if bit then 0 else 0xFF }

  lemma SkipBit(bit: bool, k: nat)
    requires k < 8
    ensures Bit(Skip(bit), k) != bit
  {}

  lemma {:induction false} SkipBytes(s: seq<bv8>, a: nat, b: nat, bit: bool)
    requires a <= b <= |s| && forall i :: a <= i < b ==> s[i] == Skip(bit)
    ensures FirstBit(s, 8 * a, 8 * |s|, bit) == FirstBit(s, 8 * b, 8 * |s|, bit)
  {
    forall i | 8 * a <= i < 8 * b ensures BitAt(s, i) != bit {
      assert s[i / 8] == Skip(bit);
      SkipBit(bit, i % 8);
    }
    FirstBitSkip(s, 8 * a, 8 * b, 8 * |s|, bit);
  }

  // ----- Bits of a word, the first byte being the most significant ---------------------------------

  const TOP: bv64 := 0x8000_0000_0000_0000

  function Double(w: bv64): bv64 { w << 1 }

  function WordBit(w: bv64, j: nat): bool
    decreases j
  {
    if j == 0 then TOP & w != 0 else WordBit(Double(w), j - 1)
  }

  function Load8(a: bv8, b: bv8, c: bv8, d: bv8, e: bv8, f: bv8, g: bv8, h: bv8): bv64 {
    ((a as bv64) << 56) | ((b as bv64) << 48) | ((c as bv64) << 40) | ((d as bv64) << 32)
    | ((e as bv64) << 24) | ((f as bv64) << 16) | ((g as bv64) << 8) | (h as bv64)
  }

  function Halve(w: bv64): bv64 { w >> 1 }

  predicate Hit(o: bv64, w: bv64) { o & w != 0 }

  lemma MaskStep(o: bv64, w: bv64)
    requires o & 1 == 0
    ensures Hit(Halve(o), w) <==> Hit(o, Double(w))
  {}

  /** A single bit that moves from the first to the last position. */
  function OneAt(j: nat): bv64 { if j == 0 then TOP else Halve(OneAt(j - 1)) }

  function Shifted(jb: bv64): bv64
    requires jb <= 64
  {
    TOP >> jb
  }

  lemma ShiftedTurn(jb: bv64)
    requires jb < 64
    ensures Halve(Shifted(jb)) == Shifted(jb + 1)
  {}

  lemma Next(jb: bv64)
    requires jb < 64
    ensures (jb + 1) as nat == jb as nat + 1
  {}

  lemma {:induction false} OneAtIs(j: nat) returns (jb: bv64)
    requires j <= 64
    ensures jb <= 64 && jb as nat == j && OneAt(j) == Shifted(jb)
  {
    if j == 0 {
      jb := 0;
    } else {
      jb := OneAtIs(j - 1);
      Next(jb);
      ShiftedTurn(jb);
      jb := jb + 1;
    }
  }

  lemma ShiftedFacts(jb: bv64)
    requires jb <= 64
    ensures (Shifted(jb) != 0 <==> jb < 64) && (jb < 63 ==> Shifted(jb) & 1 == 0)
    ensures (jb < 64 <==> jb as nat < 64) && (jb < 63 <==> jb as nat < 63)
  {}

  lemma OneAtFacts(j: nat)
    requires j <= 64
    ensures (OneAt(j) != 0 <==> j < 64) && (j < 63 ==> OneAt(j) & 1 == 0)
  {
    var jb := OneAtIs(j);
    ShiftedFacts(jb);
  }

  /** Masking a word with the moving bit reads its bits in order. */
  lemma {:induction false} MovingBit(w: bv64, j: nat)
    requires j < 64
    ensures Hit(OneAt(j), w) <==> WordBit(w, j)
    decreases j
  {
    if j != 0 {
      OneAtFacts(j - 1);
      MaskStep(OneAt(j - 1), w);
      MovingBit(Double(w), j - 1);
    }
  }

  function Eightfold(w: bv64): bv64 { w << 8 }

  lemma DoubleEight(w: bv64)
    ensures Double(Double(Double(Double(Double(Double(Double(Double(w)))))))) == Eightfold(w)
  {}

  lemma WordBitTurn(w: bv64, j: nat)
    ensures WordBit(w, j + 1) == WordBit(Double(w), j)
  {}

  lemma WordBitEight(w: bv64, j: nat)
    ensures WordBit(w, j + 8) == WordBit(Eightfold(w), j)
  {
    var w1 := Double(w); var w2 := Double(w1); var w3 := Double(w2); var w4 := Double(w3);
    var w5 := Double(w4); var w6 := Double(w5); var w7 := Double(w6);
    WordBitTurn(w, j + 7); WordBitTurn(w1, j + 6); WordBitTurn(w2, j + 5); WordBitTurn(w3, j + 4);
    WordBitTurn(w4, j + 3); WordBitTurn(w5, j + 2); WordBitTurn(w6, j + 1); WordBitTurn(w7, j);
    DoubleEight(w);
  }

  function TopByte(w: bv64): bv8 { (w >> 56) as bv8 }

  lemma TopByteTurn(w: bv64, r: nat)
    requires 0 < r < 8
    ensures Bit(TopByte(Double(w)), r - 1) == Bit(TopByte(w), r)
  {}

  lemma TopByteFirst(w: bv64)
    ensures (TOP & w != 0) == Bit(TopByte(w), 0)
  {}

  lemma {:induction false} TopBits(w: bv64, r: nat)
    requires r < 8
    ensures WordBit(w, r) == Bit(TopByte(w), r)
    decreases r
  {
    if r == 0 {
      TopByteFirst(w);
    } else {
      TopByteTurn(w, r);
      TopBits(Double(w), r - 1);
    }
  }

  function LoadSeq(p: seq<bv8>): bv64
    requires |p| == 8
  {
    Load8(p[0], p[1], p[2], p[3], p[4], p[5], p[6], p[7])
  }

  lemma LoadShift(a: bv8, b: bv8, c: bv8, d: bv8, e: bv8, f: bv8, g: bv8, h: bv8)
    ensures Eightfold(Load8(a, b, c, d, e, f, g, h)) == Load8(b, c, d, e, f, g, h, 0)
    ensures TopByte(Load8(a, b, c, d, e, f, g, h)) == a
  {}

  /** A loaded word has the bits of its bytes, in order. */
  lemma {:induction false} LoadBits(p: seq<bv8>, q: nat, r: nat)
    requires |p| == 8 && q < 8 && r < 8
    ensures WordBit(LoadSeq(p), 8 * q + r) == Bit(p[q], r)
    decreases q
  {
    LoadShift(p[0], p[1], p[2], p[3], p[4], p[5], p[6], p[7]);
    if q == 0 {
      TopBits(LoadSeq(p), r);
    } else {
      WordBitEight(LoadSeq(p), 8 * (q - 1) + r);
      LoadBits(p[1..] + [0], q - 1, r);
    }
  }

  /** The word after loading n bytes. */
  function Loaded(p: seq<bv8>, n: nat): bv64
    requires n <= |p|
  {
    if n == 0 then 0 else Append(Loaded(p, n - 1), p[n - 1])
  }

  function Append(w: bv64, x: bv8): bv64 { Eightfold(w) | (x as bv64) }

  lemma LoadAppend(a: bv8, b: bv8, c: bv8, d: bv8, e: bv8, f: bv8, g: bv8, h: bv8, x: bv8)
    ensures Append(Load8(a, b, c, d, e, f, g, h), x) == Load8(b, c, d, e, f, g, h, x)
  {}

  lemma LoadedIs(p: seq<bv8>)
    requires |p| == 8
    ensures Loaded(p, 8) == LoadSeq(p)
  {
    LoadAppend(0, 0, 0, 0, 0, 0, 0, 0, p[0]);
    assert Loaded(p, 1) == Load8(0, 0, 0, 0, 0, 0, 0, p[0]);
    LoadAppend(0, 0, 0, 0, 0, 0, 0, p[0], p[1]);
    assert Loaded(p, 2) == Load8(0, 0, 0, 0, 0, 0, p[0], p[1]);
    LoadAppend(0, 0, 0, 0, 0, 0, p[0], p[1], p[2]);
    assert Loaded(p, 3) == Load8(0, 0, 0, 0, 0, p[0], p[1], p[2]);
    LoadAppend(0, 0, 0, 0, 0, p[0], p[1], p[2], p[3]);
    assert Loaded(p, 4) == Load8(0, 0, 0, 0, p[0], p[1], p[2], p[3]);
    LoadAppend(0, 0, 0, 0, p[0], p[1], p[2], p[3], p[4]);
    assert Loaded(p, 5) == Load8(0, 0, 0, p[0], p[1], p[2], p[3], p[4]);
    LoadAppend(0, 0, 0, p[0], p[1], p[2], p[3], p[4], p[5]);
    assert Loaded(p, 6) == Load8(0, 0, p[0], p[1], p[2], p[3], p[4], p[5]);
    LoadAppend(0, 0, p[0], p[1], p[2], p[3], p[4], p[5], p[6]);
    assert Loaded(p, 7) == Load8(0, p[0], p[1], p[2], p[3], p[4], p[5], p[6]);
    LoadAppend(0, p[0], p[1], p[2], p[3], p[4], p[5], p[6], p[7]);
  }

  lemma LoadZero(a: bv8, b: bv8, c: bv8, d: bv8, e: bv8, f: bv8, g: bv8, h: bv8)
    ensures Load8(a, b, c, d, e, f, g, h) == 0 <==> a == 0 && b == 0 && c == 0 && d == 0 && e == 0 && f == 0 && g == 0 && h == 0
  {}

  lemma LoadOnes(a: bv8, b: bv8, c: bv8, d: bv8, e: bv8, f: bv8, g: bv8, h: bv8)
    ensures Load8(a, b, c, d, e, f, g, h) == 0xFFFF_FFFF_FFFF_FFFF <==>
            a == 0xFF && b == 0xFF && c == 0xFF && d == 0xFF && e == 0xFF && f == 0xFF && g == 0xFF && h == 0xFF
  {}

  function SkipWord(bit: bool): bv64 { if bit then 0 else 0xFFFF_FFFF_FFFF_FFFF }

  lemma WordDiffers(p: seq<bv8>, bit: bool)
    requires |p| == 8
    ensures LoadSeq(p) == SkipWord(bit) <==> forall k :: 0 <= k < 8 ==> p[k] == Skip(bit)
  {
    if bit { LoadZero(p[0], p[1], p[2], p[3], p[4], p[5], p[6], p[7]); } else { LoadOnes(p[0], p[1], p[2], p[3], p[4], p[5], p[6], p[7]); }
  }

  // ----- redisBitpos ----------------------------------------------------------------------------

  /** Skips bytes up to an aligned address, stopping at one that holds the bit. */
  method SkipUnaligned(s: seq<bv8>, address: nat, bit: bool) returns (i: nat, found: bool)
    ensures i <= |s| && (forall k :: 0 <= k < i ==> s[k] == Skip(bit))
    ensures found ==> i < |s| && s[i] != Skip(bit)
  {
    i, found := 0, false;
    while (address + i) % 8 != 0 && i < |s|
      invariant i <= |s| && !found && forall k :: 0 <= k < i ==> s[k] == Skip(bit)
      decreases |s| - i
    {
      if s[i] != Skip(bit) { return i, true; }
      i := i + 1;
    }
  }

  /** Skips whole words without the bit. */
  method SkipWords(s: seq<bv8>, start: nat, bit: bool) returns (i: nat)
    requires start <= |s| && forall k :: 0 <= k < start ==> s[k] == Skip(bit)
    ensures start <= i <= |s| && (forall k :: 0 <= k < i ==> s[k] == Skip(bit))
    ensures |s| - i >= 8 ==> exists k :: i <= k < i + 8 && s[k] != Skip(bit)
  {
    i := start;
    while |s| - i >= 8
      invariant start <= i <= |s| && forall k :: 0 <= k < i ==> s[k] == Skip(bit)
      decreases |s| - i
    {
      var p := s[i..i + 8];
      WordDiffers(p, bit);
      if LoadSeq(p) != SkipWord(bit) {
        ghost var k :| 0 <= k < 8 && p[k] != Skip(bit);
        assert s[i + k] != Skip(bit);
        return;
      }
      assert forall k :: i <= k < i + 8 ==> s[k] == p[k - i];
      i := i + 8;
    }
  }

  /** Loads up to eight bytes, padded with zeros on the right. */
  method LoadPadded(s: seq<bv8>, i: nat) returns (word: bv64, ghost p: seq<bv8>)
    requires i <= |s|
    ensures |p| == 8 && word == LoadSeq(p) && forall k :: 0 <= k < 8 ==> p[k] == if i + k < |s| then s[i + k] else 0
  {
    p := seq(8, k requires 0 <= k < 8 => if i + k < |s| then s[i + k] else 0);
    word := 0;
    var at, left := i, |s| - i;
    for j: nat := 0 to 8
      invariant word == Loaded(p, j) && at == (if i + j < |s| then i + j else |s|) && left == |s| - at
    {
      word, at, left := LoadByte(s, word, at, left);
    }
    LoadedIs(p);
  }

  /** One turn of the loading loop. */
  method LoadByte(s: seq<bv8>, word: bv64, at: nat, left: nat) returns (word': bv64, at': nat, left': nat)
    requires at + left == |s|
    ensures word' == Append(word, if at < |s| then s[at] else 0)
    ensures at' == (if at < |s| then at + 1 else at) && left' == |s| - at'
  {
    word', at', left' := Eightfold(word), at, left;
    PadZero(word');
    if left > 0 {
      word' := word' | (s[at] as bv64);
      at', left' := at + 1, left - 1;
    }
  }

  lemma PadZero(w: bv64)
    ensures w | (0 as bv8) as bv64 == w
  {}

  /** The first bit of a word that equals bit; there must be one, so the end of the loop is never reached. */
  method ScanWord(word: bv64, bit: bool, ghost k: nat) returns (j: nat)
    requires k < 64 && WordBit(word, k) == bit
    ensures j <= k && WordBit(word, j) == bit && forall i :: 0 <= i < j ==> WordBit(word, i) != bit
  {
    var one := Halve(0xFFFF_FFFF_FFFF_FFFF);
    one := !one;
    j := 0;
    while one != 0
      invariant one == OneAt(j) && j <= k && forall i :: 0 <= i < j ==> WordBit(word, i) != bit
      decreases 64 - j
    {
      MovingBit(word, j);
      if Hit(one, word) == bit { return; }
      one := Halve(one);
      j := j + 1;
    }
    OneAtFacts(j);
    assert false;
  }

  /** What `redisBitpos` returns: the first position of the bit; failing that -1 for a set bit, and for a clear
      bit the position after the string. */
  function Position(s: seq<bv8>, bit: bool): int {
    var r := FirstBit(s, 0, 8 * |s|, bit);
    if r < 8 * |s| then r else if bit then -1 else 8 * |s|
  }

  /** The bytes loaded from position i, with zeros after the end. */
  ghost predicate PaddedAt(s: seq<bv8>, i: nat, p: seq<bv8>) {
    i <= |s| && |p| == 8 && forall k :: 0 <= k < 8 ==> p[k] == if i + k < |s| then s[i + k] else 0
  }

  lemma PaddedBit(s: seq<bv8>, i: nat, p: seq<bv8>, j: nat)
    requires PaddedAt(s, i, p) && j < 64
    ensures 8 * i + j < 8 * |s| ==> WordBit(LoadSeq(p), j) == BitAt(s, 8 * i + j)
    ensures 8 * i + j >= 8 * |s| ==> !WordBit(LoadSeq(p), j)
  {
    LoadBits(p, j / 8, j % 8);
    assert (8 * i + j) / 8 == i + j / 8 && (8 * i + j) % 8 == j % 8;
    ZeroBit(j % 8);
  }

  lemma ZeroBit(k: nat)
    requires k < 8
    ensures !Bit(0, k)
  {}

  /** A byte that is not all the other bit holds the bit. */
  lemma ByteHolds(b: bv8, bit: bool) returns (r: nat)
    requires b != Skip(bit)
    ensures r < 8 && Bit(b, r) == bit
  {
    r := if Bit(b, 0) == bit then 0 else if Bit(b, 1) == bit then 1 else if Bit(b, 2) == bit then 2
         else if Bit(b, 3) == bit then 3 else if Bit(b, 4) == bit then 4 else if Bit(b, 5) == bit then 5
         else if Bit(b, 6) == bit then 6 else 7;
  }

  /** The word holds the bits of the string from byte i on, and zeros after its end. */
  ghost predicate Reads(w: bv64, s: seq<bv8>, i: nat) {
    forall j :: 0 <= j < 64 ==> WordBit(w, j) == PadBit(s, 8 * i + j)
  }

  predicate PadBit(s: seq<bv8>, at: nat) { at < 8 * |s| && BitAt(s, at) }

  lemma PaddedReads(s: seq<bv8>, i: nat, p: seq<bv8>)
    requires PaddedAt(s, i, p)
    ensures Reads(LoadSeq(p), s, i)
  {
    forall j | 0 <= j < 64 ensures WordBit(LoadSeq(p), j) == PadBit(s, 8 * i + j) { PaddedBit(s, i, p, j); }
  }

  /** The first hit from byte i on is the first hit in the string, or the first padding bit. */
  lemma FirstPadBit(s: seq<bv8>, start: nat, stop: nat, bit: bool)
    requires start <= 8 * |s| && start <= stop && FirstBit(s, 0, 8 * |s|, bit) == FirstBit(s, start, 8 * |s|, bit)
    requires PadBit(s, stop) == bit && forall q :: start <= q < stop ==> PadBit(s, q) != bit
    ensures Position(s, bit) == stop
  {
    if stop < 8 * |s| {
      assert forall q :: start <= q < stop ==> BitAt(s, q) == PadBit(s, q);
      FirstBitSkip(s, start, stop, 8 * |s|, bit);
    } else {
      assert forall q :: start <= q < 8 * |s| ==> BitAt(s, q) == PadBit(s, q);
      FirstBitSkip(s, start, 8 * |s|, 8 * |s|, bit);
      assert start <= 8 * |s| < stop ==> PadBit(s, 8 * |s|) != bit;
    }
  }

  lemma HitIsFirst(s: seq<bv8>, i: nat, w: bv64, bit: bool, j: nat)
    requires i <= |s| && Reads(w, s, i) && j < 64 && WordBit(w, j) == bit
    requires forall m :: 0 <= m < j ==> WordBit(w, m) != bit
    requires forall k :: 0 <= k < i ==> s[k] == Skip(bit)
    ensures Position(s, bit) == 8 * i + j
  {
    SkipBytes(s, 0, i, bit);
    forall q | 8 * i <= q < 8 * i + j ensures PadBit(s, q) != bit { assert WordBit(w, q - 8 * i) == PadBit(s, q); }
    FirstPadBit(s, 8 * i, 8 * i + j, bit);
  }

  /** A word of zeros when looking for a one is the zero-padded end of a string without ones. */
  lemma NothingLeft(s: seq<bv8>, i: nat, p: seq<bv8>)
    requires PaddedAt(s, i, p) && |s| - i < 8 && LoadSeq(p) == 0
    requires forall k :: 0 <= k < i ==> s[k] == Skip(true)
    ensures Position(s, true) == -1
  {
    WordDiffers(p, true);
    assert forall k :: i <= k < |s| ==> p[k - i] == s[k];
    SkipBytes(s, 0, |s|, true);
  }

  /** `redisBitpos` on a string that starts at any address. */
  method RedisBitpos(s: seq<bv8>, address: nat, bit: bool) returns (pos: int)
    ensures pos == Position(s, bit)
  {
    var i, found := SkipUnaligned(s, address, bit);
    if !found { i := SkipWords(s, i, bit); }
    var word;
    ghost var p;
    word, p := LoadPadded(s, i);
    ghost var k := SomeHit(s, i, p, bit, found);
    if bit && word == 0 {
      NothingLeft(s, i, p);
      return -1;
    }
    var j := ScanWord(word, bit, k);
    PaddedReads(s, i, p);
    HitIsFirst(s, i, word, bit, j);
    pos := 8 * i + j;
  }

  /** After the skipping, the loaded word holds the bit unless it is the padded end and the bit is set. */
  lemma SomeHit(s: seq<bv8>, i: nat, p: seq<bv8>, bit: bool, found: bool) returns (k: nat)
    requires PaddedAt(s, i, p)
    requires found ==> i < |s| && s[i] != Skip(bit)
    requires !found && |s| - i >= 8 ==> exists k :: i <= k < i + 8 && s[k] != Skip(bit)
    ensures bit && LoadSeq(p) == 0 ==> |s| - i < 8
    ensures !(bit && LoadSeq(p) == 0) ==> k < 64 && WordBit(LoadSeq(p), k) == bit
  {
    WordDiffers(p, bit);
    if found {
      assert p[0] == s[i];
    } else if |s| - i >= 8 {
      var m :| i <= m < i + 8 && s[m] != Skip(bit);
      assert p[m - i] == s[m];
    }
    if exists q :: 0 <= q < 8 && p[q] != Skip(bit) {
      var q :| 0 <= q < 8 && p[q] != Skip(bit);
      var r := ByteHolds(p[q], bit);
      LoadBits(p, q, r);
      k := 8 * q + r;
    } else {
      k := 0;
    }
  }
}
