/** BITFIELD operations (bitops.c): the overflow checks, SET, INCRBY and GET. */
module BitfieldOps {
  import opened Collections
  import opened Bitmap
  import opened Bitfield
  import BitSearch

  /** What an overflow check returns: 0, 1 or -1, and the value to store instead. */
  datatype Check = Check(status: int, limit: int)

  predicate IsI64(x: int) { -TWO63 <= x < TWO63 }

  // ----- Arithmetic modulo 2^64 ------------------------------------------------------------------

  /** 2^64 is a multiple of every smaller power. */
  lemma Divides(bits: nat)
    requires bits <= 64
    ensures TWO64 == Pow2(bits) * Pow2(64 - bits)
  {
    Pow2Add(bits, 64 - bits);
    Pow2Values();
  }

  lemma ModOfMod(x: int, m: nat, k: nat)
    requires m > 0 && k > 0
    ensures m * k > 0 && x % (m * k) % m == x % m
  {
    var r, q := x % (m * k), x / (m * k);
    assert x == m * k * q + r;
    assert m * k * q == m * (k * q);
    DivModUnique(x, m, k * q + r / m, r % m);
  }

  /** Going through 64 bits does not change the low bits. */
  lemma LowBits(x: int, bits: nat)
    requires bits <= 64
    ensures U64(x) % Pow2(bits) == x % Pow2(bits)
  {
    Divides(bits);
    ModOfMod(x, Pow2(bits), Pow2(64 - bits));
  }

  // ----- checkUnsignedBitfieldOverflow --------------------------------------------------------------

  /** The decision, from the largest number of the field, the two 64-bit differences and the wrapped sum. */
  function DecideUnsigned(value: nat, incr: int, max: nat, maxIncr: int, minIncr: int, wrapped: int, ow: Overflow): Check {
    if value > max || (incr > 0 && incr > maxIncr) then
      Check(1, match ow case Wrap => wrapped case Sat => max case Fail => 0)
    else if incr < 0 && incr < minIncr then
      Check(if ow.Wrap? then 1 else -1, match ow case Wrap => wrapped case Sat => 0 case Fail => 0)
    else Check(0, 0)
  }

  function CheckUnsigned(value: nat, incr: int, bits: nat, ow: Overflow): Check
    requires bits > 0
  {
    var max := Pow2(bits) - 1;
    DecideUnsigned(value, incr, max, S64(max - value), S64(0 - value), U64(value + incr) % Pow2(bits), ow)
  }

  // ----- checkSignedBitfieldOverflow ----------------------------------------------------------------

  /** Wrapping a signed sum: the sign bit is copied into, or cleared from, the bits above the field. */
  function WrapSigned(value: int, incr: int, bits: nat): int
    requires 0 < bits <= 64
  {
    var c := U64(value + incr);
    if bits == 64 then S64(c)
    else if BitOf(c, bits - 1) then S64(c % Pow2(bits) + (TWO64 - Pow2(bits)))
    else c % Pow2(bits)
  }

  /** The two comparisons, on 64-bit differences that may wrap; narrow means fewer than 64 bits. */
  predicate Over(value: int, incr: int, max: int, narrow: bool) {
    value > max || (narrow && incr > S64(max - value)) || (value >= 0 && incr > 0 && incr > S64(max - value))
  }

  predicate Under(value: int, incr: int, min: int, narrow: bool) {
    value < min || (narrow && incr < S64(min - value)) || (value < 0 && incr < 0 && incr < S64(min - value))
  }

  function CheckSigned(value: int, incr: int, bits: nat, ow: Overflow): Check
    requires 0 < bits <= 64
  {
    var max: int := Pow2(bits - 1) - 1;
    var min := -max - 1;
    if Over(value, incr, max, bits != 64) then
      Check(1, match ow case Wrap => WrapSigned(value, incr, bits) case Sat => max case Fail => 0)
    else if Under(value, incr, min, bits != 64) then
      Check(if ow.Wrap? then 1 else -1, match ow case Wrap => WrapSigned(value, incr, bits) case Sat => min case Fail => 0)
    else Check(0, 0)
  }

  // ----- What the checks promise ---------------------------------------------------------------------

  /** The value to store for a result, or nothing when the operation fails. */
  function Outcome(signed: bool, bits: nat, target: int, ow: Overflow): Option<int>
    requires bits > 0
  {
    if Fits(signed, bits, target) then Some(target)
    else match ow
      case Wrap => Some(Wrapped(signed, bits, target))
      case Sat => Some(if target > Max(signed, bits) then Max(signed, bits) else Min(signed, bits))
      case Fail => None
  }

  /** The range of a field, written out. */
  predicate InField(signed: bool, bits: nat, x: int)
    requires bits > 0
  {
    if signed then 0 - Pow2(bits - 1) <= x < Pow2(bits - 1) else 0 <= x < Pow2(bits)
  }

  function Distance(a: int, b: int): nat { if a < b then b - a else a - b }

  /** A result in the range is stored as it is, whatever the policy. */
  lemma InFieldIsStored(signed: bool, bits: nat, target: int, ow: Overflow)
    requires bits > 0
    ensures InField(signed, bits, target) ==> Outcome(signed, bits, target, ow) == Some(target)
    ensures !InField(signed, bits, target) ==> (Outcome(signed, bits, target, ow) == None <==> ow == Fail)
  {}

  /** Under SAT, the number of the range nearest to the result. */
  lemma SatIsNearest(signed: bool, bits: nat, target: int, x: int)
    requires bits > 0 && InField(signed, bits, x)
    ensures var out := Outcome(signed, bits, target, Sat);
      out.Some? && InField(signed, bits, out.value) && (x == out.value || Distance(out.value, target) < Distance(x, target))
  {}

  /** Under WRAP, the one number of the range that is congruent to the result. */
  lemma WrapIsCongruent(signed: bool, bits: nat, target: int, x: int)
    requires bits > 0 && InField(signed, bits, x)
    ensures var out := Outcome(signed, bits, target, Wrap);
      out.Some? && InField(signed, bits, out.value) && (Congruent(target, x, Pow2(bits)) <==> x == out.value)
  {
    WrappedUnique(signed, bits, target, x);
    WrappedUnique(signed, bits, target, target);
    SameRemainder(target, target, Pow2(bits));
  }

  /** A check decides as the outcome says. */
  ghost predicate Decides(c: Check, signed: bool, bits: nat, target: int, ow: Overflow)
    requires bits > 0
  {
    && (c.status == 0 <==> Fits(signed, bits, target))
    && (c.status != 0 && !ow.Fail? ==> Some(c.limit) == Outcome(signed, bits, target, ow))
  }

  lemma Exact(x: int)
    requires IsI64(x)
    ensures S64(x) == x
  {}

  lemma WidthBound(bits: nat)
    requires 0 < bits <= 63
    ensures Pow2(bits) <= TWO63 && Pow2(bits) == 2 * Pow2(bits - 1)
  {
    Pow2Monotone(bits, 63);
    Pow2Values();
  }

  lemma DecidesUnsigned(value: nat, incr: int, max: nat, maxIncr: int, minIncr: int, wrapped: int, ow: Overflow)
    requires value <= max ==> maxIncr == max - value && minIncr == 0 - value
    requires value > max ==> incr == 0
    ensures var c := DecideUnsigned(value, incr, max, maxIncr, minIncr, wrapped, ow);
      && (c.status == 0 <==> 0 <= value + incr <= max)
      && (c.status != 0 && ow.Wrap? ==> c.limit == wrapped)
      && (c.status != 0 && ow.Sat? ==> c.limit == if value + incr > max then max else 0)
  {}

  /** INCRBY on an unsigned field, and SET of any unsigned 64-bit value. */
  lemma UnsignedDecides(value: nat, incr: int, bits: nat, ow: Overflow)
    requires 0 < bits <= 63 && value < TWO64 && IsI64(incr) && (Fits(false, bits, value) || incr == 0)
    ensures Decides(CheckUnsigned(value, incr, bits, ow), false, bits, value + incr, ow)
  {
    WidthBound(bits);
    LowBits(value + incr, bits);
    var max := Pow2(bits) - 1;
    if value <= max { NearExact(value, max); }
    var wrapped := U64(value + incr) % Pow2(bits);
    assert wrapped == Wrapped(false, bits, value + incr);
    DecidesUnsigned(value, incr, max, S64(max - value), S64(0 - value), wrapped, ow);
  }

  lemma NearExact(value: nat, max: nat)
    requires value <= max < TWO63
    ensures S64(max - value) == max - value && S64(0 - value) == 0 - value
  {
    Exact(max - value);
    Exact(0 - value);
  }

  lemma SignExtended(low: nat, m: nat)
    requires low < m <= 2 * low && m <= TWO63
    ensures S64(low + (TWO64 - m)) == low - m
  {
    var x := low + (TWO64 - m);
    assert U64(x) == x >= TWO63;
  }

  lemma WrapSignedIs(value: int, incr: int, bits: nat)
    requires 0 < bits <= 64
    ensures WrapSigned(value, incr, bits) == Wrapped(true, bits, value + incr)
  {
    var x := value + incr;
    var c := U64(x);
    LowBits(x, bits);
    if bits == 64 {
      Pow2Values();
      SmallIsSigned(c, 64);
    } else {
      WidthBound(bits);
      SignBit(c, bits);
      if BitOf(c, bits - 1) { SignExtended(x % Pow2(bits), Pow2(bits)); }
    }
  }

  /** The sign bit of a number is the top bit of its low bits. */
  lemma SignBit(c: nat, bits: nat)
    requires 0 < bits
    ensures BitOf(c, bits - 1) <==> c % Pow2(bits) >= Pow2(bits - 1)
  {
    SignBitIn(c, Pow2(bits), Pow2(bits - 1));
  }

  lemma SignBitIn(c: nat, m: nat, h: nat)
    requires h > 0 && m == 2 * h
    ensures c / h % 2 == 1 <==> c % m >= h
  {
    var q, r := c / m, c % m;
    assert c == m * q + r;
    assert m * q == h * (2 * q);
    if r >= h {
      assert h * (2 * q + 1) == h * (2 * q) + h;
      DivModUnique(c, h, 2 * q + 1, r - h);
    } else {
      DivModUnique(c, h, 2 * q, r);
    }
  }

  /** On a value in range the comparisons are exact. */
  lemma ComparisonsExact(value: int, incr: int, max: int, narrow: bool)
    requires 0 <= max && -max - 1 <= value <= max && IsI64(incr)
    requires if narrow then 2 * max + 1 < TWO63 else max == TWO63 - 1
    ensures Over(value, incr, max, narrow) <==> value + incr > max
    ensures !Over(value, incr, max, narrow) ==> (Under(value, incr, -max - 1, narrow) <==> value + incr < -max - 1)
  {
    if narrow || value >= 0 { Exact(max - value); }
    if narrow || value < 0 { Exact(-max - 1 - value); }
  }

  /** INCRBY on a signed field of any width. */
  lemma SignedDecides(value: int, incr: int, bits: nat, ow: Overflow)
    requires 0 < bits <= 64 && Fits(true, bits, value) && IsI64(incr)
    ensures Decides(CheckSigned(value, incr, bits, ow), true, bits, value + incr, ow)
  {
    WrapSignedIs(value, incr, bits);
    if bits == 64 { Pow2Values(); } else { WidthBound(bits); }
    ComparisonsExact(value, incr, Pow2(bits - 1) - 1, bits != 64);
  }

  /** SET of a value so far below the range that the distance to the maximum does not fit 64 bits. */
  predicate Misjudged(bits: nat, value: int)
    requires bits > 0
  {
    bits < 64 && value < Min(true, bits) && Max(true, bits) - value >= TWO63
  }

  /** Comparing a value alone. */
  lemma ComparesAlone(value: int, max: int, narrow: bool)
    requires 0 <= max && IsI64(value)
    requires if narrow then 2 * max + 1 < TWO63 else max == TWO63 - 1
    ensures Over(value, 0, max, narrow) <==> value > max || (narrow && max - value >= TWO63)
    ensures !Over(value, 0, max, narrow) ==> (Under(value, 0, -max - 1, narrow) <==> value < -max - 1)
  {
    if value <= max { FarDistance(max, value); }
    if narrow && -max - 1 <= value <= max { Exact(-max - 1 - value); }
  }

  lemma FarDistance(max: int, value: int)
    requires 0 <= max < TWO63 && IsI64(value) && value <= max
    ensures S64(max - value) < 0 <==> max - value >= TWO63
  {}

  /** SET of any signed 64-bit value: the check decides as it should, except that saturation of a misjudged
      value gives the maximum. */
  lemma SetSignedDecides(value: int, bits: nat, ow: Overflow)
    requires 0 < bits <= 64 && IsI64(value)
    ensures Decides(CheckSigned(value, 0, bits, ow), true, bits, value, ow) <==> !(Misjudged(bits, value) && ow.Sat?)
    ensures Misjudged(bits, value) && ow.Sat? ==> CheckSigned(value, 0, bits, ow) == Check(1, Max(true, bits))
  {
    WrapSignedIs(value, 0, bits);
    if bits == 64 { Pow2Values(); } else { WidthBound(bits); }
    ComparesAlone(value, Pow2(bits - 1) - 1, bits != 64);
  }

  /** For example, an i8 field, asked to hold the smallest 64-bit integer under SAT, gets 127. */
  lemma MisjudgedExample()
    ensures Misjudged(8, -TWO63) && CheckSigned(-TWO63, 0, 8, Sat) == Check(1, 127) && Outcome(true, 8, -TWO63, Sat) == Some(-128)
  {
    assert Pow2(7) == 128;
    SetSignedDecides(-TWO63, 8, Sat);
  }

  // ----- The operations ---------------------------------------------------------------------------------

  datatype Op = Set | IncrBy

  function FieldOf(s: seq<bv8>, signed: bool, offset: nat, bits: nat): int
    requires bits > 0
  {
    if signed then SignedField(s, offset, bits) else Field(s, offset, bits)
  }

  predicate Width(signed: bool, bits: nat) { 0 < bits <= if signed then 64 else 63 }

  /** The result an operation asks for; an unsigned SET reads its argument as unsigned. */
  function Target(signed: bool, op: Op, old_: int, arg: int): int {
    if op.IncrBy? then old_ + arg else if signed then arg else U64(arg)
  }

  lemma FieldFits(s: seq<bv8>, signed: bool, offset: nat, bits: nat)
    requires Width(signed, bits)
    ensures Fits(signed, bits, FieldOf(s, signed, offset, bits))
  {
    assert Pow2(bits) == 2 * Pow2(bits - 1);
  }

  lemma CongruentU64(v: int, bits: nat)
    requires bits <= 64
    ensures Congruent(U64(v), v, Pow2(bits))
  {
    LowBits(v, bits);
    SameRemainder(U64(v), v, Pow2(bits));
  }

  lemma SameRemainder(a: int, b: int, m: nat)
    requires m > 0 && a % m == b % m
    ensures Congruent(a, b, m)
  {
    Remainder(a, m);
    Remainder(b, m);
    assert a - b == m * (a / m - b / m);
    MultipleIs(m, a / m - b / m);
  }

  lemma Remainder(x: int, m: nat)
    requires m > 0
    ensures x == m * (x / m) + x % m
  {}

  /** A number that fits reads back as written. */
  lemma ReadsBack(s: seq<bv8>, signed: bool, offset: nat, bits: nat, v: int)
    requires Width(signed, bits) && Fits(signed, bits, v) && Holds(s, offset, bits, U64(v))
    ensures FieldOf(s, signed, offset, bits) == v
  {
    HoldsField(s, offset, bits, U64(v));
    CongruentU64(v, bits);
    WrappedUnique(signed, bits, U64(v), v);
  }

  lemma OutcomeFits(signed: bool, bits: nat, target: int, ow: Overflow)
    requires bits > 0
    ensures Outcome(signed, bits, target, ow).Some? ==> Fits(signed, bits, Outcome(signed, bits, target, ow).value)
  {
    WrappedUnique(signed, bits, target, 0);
  }

  /** What SET and INCRBY do to the field, to the rest of the string and to the reply. */
  ghost predicate Done(s: seq<bv8>, t: seq<bv8>, signed: bool, offset: nat, bits: nat, op: Op, out: Option<int>, reply: Option<int>)
    requires bits > 0
  {
    match out
    case None => t == s && reply == None
    case Some(v) =>
      && SameOutside(s, t, offset, bits) && FieldOf(t, signed, offset, bits) == v
      && reply == Some(if op.IncrBy? then v else FieldOf(s, signed, offset, bits))
  }

  /** INCRBY adds to the field and replies with the sum; SET stores its argument and replies with what was there; an
      INCRBY that leaves the range does nothing under FAIL. */
  lemma DoneMeans(s: seq<bv8>, t: seq<bv8>, signed: bool, offset: nat, bits: nat, op: Op, arg: int, ow: Overflow, reply: Option<int>)
    requires Width(signed, bits) && IsI64(arg)
    requires Done(s, t, signed, offset, bits, op, Outcome(signed, bits, Target(signed, op, FieldOf(s, signed, offset, bits), arg), ow), reply)
    ensures var was, now := FieldOf(s, signed, offset, bits), FieldOf(t, signed, offset, bits);
      && (op == IncrBy && InField(signed, bits, was + arg) ==> now == was + arg && reply == Some(was + arg))
      && (op == Set && InField(signed, bits, arg) ==> now == arg && reply == Some(was))
      && (op == IncrBy && !InField(signed, bits, was + arg) && ow == Fail ==> t == s && reply == None)
  {
    StoredMeans(FieldOf(s, signed, offset, bits), signed, bits, op, arg, ow);
  }

  lemma StoredMeans(was: int, signed: bool, bits: nat, op: Op, arg: int, ow: Overflow)
    requires Width(signed, bits) && IsI64(arg)
    ensures var out := Outcome(signed, bits, Target(signed, op, was, arg), ow);
      && (op == IncrBy && InField(signed, bits, was + arg) ==> out == Some(was + arg))
      && (op == Set && InField(signed, bits, arg) ==> out == Some(arg))
      && (op == IncrBy && !InField(signed, bits, was + arg) && ow == Fail ==> out == None)
  {
    InFieldIsStored(signed, bits, Target(signed, op, was, arg), ow);
  }

  /** The check of an operation; a misjudged SET under SAT is the only one that stores another value. */
  function CheckOp(signed: bool, op: Op, old_: int, arg: int, bits: nat, ow: Overflow): Check
    requires Width(signed, bits) && (!signed && op.IncrBy? ==> old_ >= 0)
  {
    if signed then (if op.IncrBy? then CheckSigned(old_, arg, bits, ow) else CheckSigned(arg, 0, bits, ow))
    else if op.IncrBy? then CheckUnsigned(old_, arg, bits, ow) else CheckUnsigned(U64(arg), 0, bits, ow)
  }

  lemma CheckOpDecides(signed: bool, op: Op, old_: int, arg: int, bits: nat, ow: Overflow)
    requires Width(signed, bits) && Fits(signed, bits, old_) && IsI64(arg)
    ensures Decides(CheckOp(signed, op, old_, arg, bits, ow), signed, bits, Target(signed, op, old_, arg), ow) <==>
            !(signed && op.Set? && ow.Sat? && Misjudged(bits, arg))
  {
    if signed {
      if op.IncrBy? { SignedDecides(old_, arg, bits, ow); } else { SetSignedDecides(arg, bits, ow); }
    } else if op.IncrBy? {
      WidthBound(bits);
      UnsignedDecides(old_, arg, bits, ow);
    } else {
      UnsignedDecides(U64(arg), 0, bits, ow);
    }
  }

  method Execute(p: array<bv8>, signed: bool, offset: nat, bits: nat, op: Op, arg: int, ow: Overflow) returns (reply: Option<int>)
    requires Width(signed, bits) && offset + bits <= 8 * p.Length && IsI64(arg)
    modifies p
    ensures var was := old(FieldOf(p[..], signed, offset, bits));
      var target := Target(signed, op, was, arg);
      if signed && op.Set? && ow.Sat? && Misjudged(bits, arg)
      then Done(old(p[..]), p[..], signed, offset, bits, op, Some(Max(signed, bits)), reply)
      else Done(old(p[..]), p[..], signed, offset, bits, op, Outcome(signed, bits, target, ow), reply)
  {
    ghost var s := p[..];
    var was: int;
    if signed { was := GetSigned(p[..], offset, bits); } else { was := GetUnsigned(p[..], offset, bits); }
    FieldFits(s, signed, offset, bits);
    var check := CheckOp(signed, op, was, arg, bits, ow);
    CheckOpDecides(signed, op, was, arg, bits, ow);
    OutcomeFits(signed, bits, Target(signed, op, was, arg), ow);
    if signed && op.Set? { SetSignedDecides(arg, bits, ow); }
    var now := if check.status != 0 then check.limit else Target(signed, op, was, arg);
    if check.status != 0 && ow.Fail? { return None; }
    reply := Some(if op.IncrBy? then now else was);
    SetUnsigned(p, offset, bits, U64(now));
    ReadsBack(p[..], signed, offset, bits, now);
  }

  // ----- GET ----------------------------------------------------------------------------------------------

  lemma {:induction false} SameField(s: seq<bv8>, t: seq<bv8>, at: nat, offset: nat, bits: nat)
    requires forall j :: 0 <= j < bits ==> BitAhead(s, at, j) == BitAhead(t, offset, j)
    ensures Field(s, at, bits) == Field(t, offset, bits)
  {
    if bits > 0 {
      SameField(s, t, at, offset, bits - 1);
      assert BitAhead(s, at, bits - 1) == BitAhead(t, offset, bits - 1);
    }
  }

  function BitAhead(s: seq<bv8>, at: nat, j: nat): bool { BitIn(s, at + j) }

  /** Up to nine bytes from the one that holds the first bit, with zeros after the end of the string. */
  ghost predicate Copied(s: seq<bv8>, byte: nat, buf: seq<bv8>) {
    |buf| == 9 && forall i :: 0 <= i < 9 ==> buf[i] == if byte + i < |s| then s[byte + i] else 0
  }

  lemma CopiedBit(s: seq<bv8>, byte: nat, buf: seq<bv8>, q: nat)
    requires Copied(s, byte, buf) && q < 72
    ensures BitIn(buf, q) == BitIn(s, 8 * byte + q)
  {
    assert (8 * byte + q) / 8 == byte + q / 8 && (8 * byte + q) % 8 == q % 8;
    assert buf[q / 8] == if byte + q / 8 < |s| then s[byte + q / 8] else 0;
    BitSearch.ZeroBit(q % 8);
  }

  /** GET reads the field of the zero-extended string, wherever the string ends, also for a missing key. */
  method Get(s: seq<bv8>, signed: bool, offset: nat, bits: nat) returns (value: int)
    requires Width(signed, bits)
    ensures value == FieldOf(s, signed, offset, bits)
  {
    var byte := offset / 8;
    var buf := CopyNine(s, byte);
    var at := offset - 8 * byte;
    forall j | 0 <= j < bits ensures BitAhead(buf, at, j) == BitAhead(s, offset, j) { CopiedBit(s, byte, buf, at + j); }
    SameField(buf, s, at, offset, bits);
    if signed { value := GetSigned(buf, at, bits); } else { value := GetUnsigned(buf, at, bits); }
  }

  method CopyNine(s: seq<bv8>, byte: nat) returns (buf: seq<bv8>)
    ensures Copied(s, byte, buf)
  {
    buf := [0, 0, 0, 0, 0, 0, 0, 0, 0];
    var i := 0;
    while i < 9 && byte + i < |s|
      invariant 0 <= i <= 9 && |buf| == 9 && (i > 0 ==> byte + i <= |s|)
      invariant forall k :: 0 <= k < 9 ==> buf[k] == if k < i then s[byte + k] else 0
    {
      buf := buf[i := s[byte + i]];
      i := i + 1;
    }
  }
}
