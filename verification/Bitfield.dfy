/**
  Integers of any width inside a bitmap (bitops.c): reading and writing fields, overflow
  handling, and the GET, SET and INCRBY operations of BITFIELD.
*/
module Bitfield {
  import opened Collections
  import opened Bitmap
  import BitSearch

  // ----- Powers of two ------------------------------------------------------------------------

  function Pow2(n: nat): nat
    ensures Pow2(n) > 0
  {
    if n == 0 then 1 else 2 * Pow2(n - 1)
  }

  const TWO64: int := 0x1_0000_0000_0000_0000
  const TWO63: int := 0x8000_0000_0000_0000

  lemma {:induction false} Pow2Add(a: nat, b: nat)
    ensures Pow2(a + b) == Pow2(a) * Pow2(b)
    decreases b
  {
    if b > 0 {
      Pow2Add(a, b - 1);
      assert Pow2(a + b) == 2 * (Pow2(a) * Pow2(b - 1));
    }
  }

  lemma Pow2Values()
    ensures Pow2(8) == 256 && Pow2(16) == 0x10000 && Pow2(32) == 0x1_0000_0000 && Pow2(63) == TWO63 && Pow2(64) == TWO64
  {
    assert Pow2(4) == 16;
    Pow2Add(4, 4);
    Pow2Add(8, 8);
    Pow2Add(16, 16);
    Pow2Add(32, 32);
    assert Pow2(64) == 2 * Pow2(63);
  }

  /** The numbers an unsigned and a signed 64-bit integer hold after an operation. */
  function U64(x: int): nat { x % TWO64 }

  function S64(x: int): int { (x + TWO63) % TWO64 - TWO63 }

  // ----- Fields ----------------------------------------------------------------------------------

  predicate BitOf(value: nat, k: nat) { value / Pow2(k) % 2 == 1 }

  function BitIn(s: seq<bv8>, at: nat): bool { BitSearch.PadBit(s, at) }

  /** The unsigned number in a field; bits past the end of the string are zero. */
  function Field(s: seq<bv8>, offset: nat, bits: nat): (r: nat)
    ensures r < Pow2(bits)
  {
    if bits == 0 then 0 else 2 * Field(s, offset, bits - 1) + One(BitIn(s, offset + bits - 1))
  }

  /** The number in a field read as two's complement. */
  function SignedField(s: seq<bv8>, offset: nat, bits: nat): int
    requires bits > 0
  {
    var u := Field(s, offset, bits);
    if u >= Pow2(bits - 1) then u - Pow2(bits) else u
  }

  /** The field holds the low bits of value, most significant first. */
  ghost predicate Holds(s: seq<bv8>, offset: nat, bits: nat, value: nat) {
    forall q :: offset <= q < offset + bits ==> BitIn(s, q) == BitOf(value, offset + bits - 1 - q)
  }

  lemma DivModUnique(x: int, d: nat, q: int, r: nat)
    requires d > 0 && x == d * q + r && r < d
    ensures x / d == q && x % d == r
  {
    var k := x / d - q;
    assert d * k == d * (x / d) - d * q == r - x % d;
    assert k >= 1 ==> d * k >= d;
    assert k <= -1 ==> d * k + d <= 0;
  }

  lemma HalfStep(value: nat, p: nat)
    requires p > 0
    ensures value / (2 * p) == value / 2 / p && value % (2 * p) == 2 * (value / 2 % p) + value % 2
  {
    var h := value / 2;
    var q, r := h / p, h % p;
    assert h == p * q + r;
    assert value == (2 * p) * q + (2 * r + value % 2);
    DivModUnique(value, 2 * p, q, 2 * r + value % 2);
  }

  lemma BitOfHalf(value: nat, k: nat)
    requires k > 0
    ensures BitOf(value, k) == BitOf(value / 2, k - 1)
  {
    HalfStep(value, Pow2(k - 1));
  }

  /** A field that holds the bits of a value reads as its low bits. */
  lemma {:induction false} HoldsField(s: seq<bv8>, offset: nat, bits: nat, value: nat)
    requires Holds(s, offset, bits, value)
    ensures Field(s, offset, bits) == value % Pow2(bits)
    decreases bits
  {
    if bits > 0 {
      forall q | offset <= q < offset + bits - 1 ensures BitIn(s, q) == BitOf(value / 2, offset + bits - 2 - q) {
        BitOfHalf(value, offset + bits - 1 - q);
      }
      HoldsField(s, offset, bits - 1, value / 2);
      HalfStep(value, Pow2(bits - 1));
      assert BitIn(s, offset + bits - 1) == BitOf(value, 0);
    }
  }

  // ----- Writing and reading ----------------------------------------------------------------------

  function OneBit(i: nat): bv8
    requires i < 8
  {
    (1 as bv8) << (7 - i)
  }

  /** One bit of a byte, set as the code does it. */
  function PutBit(b: bv8, i: nat, v: bool): bv8
    requires i < 8
  {
    (b & !OneBit(i)) | if v then OneBit(i) else 0
  }

  lemma OneBitIs(i: nat, k: nat)
    requires i < 8 && k < 8
    ensures Bit(OneBit(i), k) <==> k == i
  {
    assert OneBit(i) == [0x80, 0x40, 0x20, 0x10, 8, 4, 2, 1][i];
  }

  lemma MergeBit(b: bv8, one: bv8, add: bv8, k: nat)
    requires k < 8
    ensures Bit((b & !one) | add, k) <==> (Bit(b, k) && !Bit(one, k)) || Bit(add, k)
  {
    BitNot(one, k);
    BitAnd(b, !one, k);
    BitOr(b & !one, add, k);
  }

  lemma PutBitIs(b: bv8, i: nat, v: bool, k: nat)
    requires i < 8 && k < 8
    ensures Bit(PutBit(b, i, v), k) == if k == i then v else Bit(b, k)
  {
    OneBitIs(i, k);
    MergeBit(b, OneBit(i), if v then OneBit(i) else 0, k);
    BitSearch.ZeroBit(k);
  }

  /** The bytes after writing one bit. */
  lemma PutAt(s: seq<bv8>, at: nat, v: bool, q: nat)
    requires at < 8 * |s|
    ensures BitIn(s[at / 8 := PutBit(s[at / 8], at % 8, v)], q) == if q == at then v else BitIn(s, q)
  {
    if q < 8 * |s| && q / 8 == at / 8 { PutBitIs(s[at / 8], at % 8, v, q % 8); }
  }

  /** Bits outside a field are the same in both strings. */
  ghost predicate SameOutside(s: seq<bv8>, t: seq<bv8>, offset: nat, bits: nat) {
    |s| == |t| && forall q: nat :: q < offset || offset + bits <= q ==> BitIn(s, q) == BitIn(t, q)
  }

  /** The first j bits of a field written: those hold the value, the others are as before. */
  ghost predicate Written(s: seq<bv8>, t: seq<bv8>, offset: nat, bits: nat, value: nat, j: nat) {
    && SameOutside(s, t, offset, j)
    && forall q :: offset <= q < offset + j ==> 0 <= offset + bits - 1 - q && BitIn(t, q) == BitOf(value, offset + bits - 1 - q)
  }

  lemma WrittenTurn(s: seq<bv8>, t: seq<bv8>, offset: nat, bits: nat, value: nat, j: nat)
    requires j < bits && offset + bits <= 8 * |s| && Written(s, t, offset, bits, value, j)
    ensures var at := offset + j;
      Written(s, t[at / 8 := PutBit(t[at / 8], at % 8, BitOf(value, bits - 1 - j))], offset, bits, value, j + 1)
  {
    var at, v := offset + j, BitOf(value, bits - 1 - j);
    var t' := t[at / 8 := PutBit(t[at / 8], at % 8, v)];
    forall q: nat ensures BitIn(t', q) == if q == at then v else BitIn(t, q) { PutAt(t, at, v, q); }
  }

  /** Writes the low bits of a value. */
  method SetUnsigned(p: array<bv8>, offset: nat, bits: nat, value: nat)
    requires offset + bits <= 8 * p.Length
    modifies p
    ensures SameOutside(old(p[..]), p[..], offset, bits) && Holds(p[..], offset, bits, value)
  {
    ghost var s := p[..];
    var at := offset;
    for j: nat := 0 to bits
      invariant at == offset + j && Written(s, p[..], offset, bits, value, j)
    {
      WrittenTurn(s, p[..], offset, bits, value, j);
      var bit := BitOf(value, bits - 1 - j);
      var byte := p[at / 8];
      p[at / 8] := PutBit(byte, at % 8, bit);
      at := at + 1;
    }
  }

  /** A field of at most 64 bits: the accumulator never overflows. */
  method GetUnsigned(p: seq<bv8>, offset: nat, bits: nat) returns (value: nat)
    requires offset + bits <= 8 * |p| && bits <= 64
    ensures value == Field(p, offset, bits)
  {
    value := 0;
    var at := offset;
    for j: nat := 0 to bits
      invariant at == offset + j && value == Field(p, offset, j)
    {
      var byte := p[at / 8];
      NoOverflow(p, offset, j);
      ReadBit(p, at);
      value := U64(2 * value) + One(Bit(byte, at % 8));
      at := at + 1;
    }
  }

  lemma {:induction false} Pow2Monotone(a: nat, b: nat)
    requires a <= b
    ensures Pow2(a) <= Pow2(b)
    decreases b
  {
    if a < b { Pow2Monotone(a, b - 1); }
  }

  lemma ReadBit(s: seq<bv8>, at: nat)
    requires at < 8 * |s|
    ensures BitIn(s, at) == Bit(s[at / 8], at % 8)
  {}

  lemma NoOverflow(s: seq<bv8>, offset: nat, j: nat)
    requires j < 64
    ensures U64(2 * Field(s, offset, j)) == 2 * Field(s, offset, j)
  {
    Pow2Monotone(j + 1, 64);
    Pow2Values();
  }

  method GetSigned(p: seq<bv8>, offset: nat, bits: nat) returns (value: int)
    requires offset + bits <= 8 * |p| && 0 < bits <= 64
    ensures value == SignedField(p, offset, bits)
  {
    var u := GetUnsigned(p, offset, bits);
    TopBit(u, bits);
    SmallIsSigned(u, bits);
    value := S64(u);
    if bits < 64 && BitOf(u, bits - 1) { value := u - Pow2(bits); }
  }

  /** Reading an unsigned number of the given width as a signed 64-bit integer. */
  lemma SmallIsSigned(u: nat, bits: nat)
    requires 0 < bits <= 64 && u < Pow2(bits)
    ensures bits < 64 ==> S64(u) == u
    ensures bits == 64 ==> Pow2(bits) == TWO64 && Pow2(bits - 1) == TWO63 && S64(u) == if u >= TWO63 then u - TWO64 else u
  {
    Pow2Values();
    if bits < 64 { Pow2Monotone(bits, 63); }
  }

  /** The top bit of a number of the given width. */
  lemma TopBit(u: nat, bits: nat)
    requires 0 < bits && u < Pow2(bits)
    ensures BitOf(u, bits - 1) <==> u >= Pow2(bits - 1)
  {
    var p := Pow2(bits - 1);
    if u >= p { DivModUnique(u, p, 1, u - p); } else { DivModUnique(u, p, 0, u); }
  }

  // ----- Ranges and overflow ------------------------------------------------------------------------

  datatype Overflow = Wrap | Sat | Fail

  function Max(signed: bool, bits: nat): nat
    requires bits > 0
  {
    if signed then Pow2(bits - 1) - 1 else Pow2(bits) - 1
  }

  function Min(signed: bool, bits: nat): int
    requires bits > 0
  {
    if signed then 0 - Pow2(bits - 1) else 0
  }

  predicate Fits(signed: bool, bits: nat, x: int)
    requires bits > 0
  {
    Min(signed, bits) <= x <= Max(signed, bits)
  }

  /** The number congruent to x modulo m that is below m, or below h == m / 2 if signed. */
  function Residue(signed: bool, m: nat, h: nat, x: int): int
    requires m > 0
  {
    var low := x % m;
    if signed && low >= h then low - m else low
  }

  /** The number of this width that is congruent to x. */
  function Wrapped(signed: bool, bits: nat, x: int): int
    requires bits > 0
  {
    Residue(signed, Pow2(bits), Pow2(bits - 1), x)
  }

  predicate Congruent(x: int, y: int, m: nat)
    requires m > 0
  {
    (x - y) % m == 0
  }

  lemma MultipleIs(m: nat, k: int)
    requires m > 0
    ensures m * k % m == 0
  {
    DivModUnique(m * k, m, k, 0);
  }

  lemma ResidueCongruent(signed: bool, m: nat, h: nat, x: int)
    requires m > 0
    ensures Congruent(x, Residue(signed, m, h, x), m)
  {
    var low, k := x % m, x / m;
    assert x - low == m * k;
    assert x - (low - m) == m * (k + 1);
    MultipleIs(m, k);
    MultipleIs(m, k + 1);
  }

  lemma ResidueOnly(signed: bool, m: nat, h: nat, x: int, y: int)
    requires m > 0 && m == 2 * h && Congruent(x, y, m)
    requires if signed then 0 <= y + h && y < h else 0 <= y < m
    ensures y == Residue(signed, m, h, x)
  {
    var q := (x - y) / m;
    assert x - y == m * q;
    if y >= 0 {
      DivModUnique(x, m, q, y);
    } else {
      assert x == m * (q - 1) + (y + m);
      DivModUnique(x, m, q - 1, y + m);
    }
  }

  /** The wrapped number fits and is congruent, and no other number is. */
  lemma WrappedUnique(signed: bool, bits: nat, x: int, y: int)
    requires bits > 0
    ensures Fits(signed, bits, Wrapped(signed, bits, x)) && Congruent(x, Wrapped(signed, bits, x), Pow2(bits))
    ensures Fits(signed, bits, y) && Congruent(x, y, Pow2(bits)) ==> y == Wrapped(signed, bits, x)
  {
    ResidueCongruent(signed, Pow2(bits), Pow2(bits - 1), x);
    if Fits(signed, bits, y) && Congruent(x, y, Pow2(bits)) { ResidueOnly(signed, Pow2(bits), Pow2(bits - 1), x, y); }
  }
}
