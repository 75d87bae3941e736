/** BITOP (bitops.c, `bitopCommand`): the word-at-a-time path, the hand-off to the byte loop and its early exits. */
module BitOp {
  import opened Collections
  import opened Bitmap
  import opened BitSearch

  datatype Op = And | Or | Xor | Not

  // ----- What BITOP computes -----------------------------------------------------------------

  /** The operator on bytes; NOT ignores its second argument. */
  function OnBytes(op: Op): (bv8, bv8) -> bv8 {
    match op
    case And => (x, y) => x & y
    case Or => (x, y) => x | y
    case Xor => (x, y) => x ^ y
    case Not => (x, y) => !x
  }

  ghost predicate IsAnd(f: (bv8, bv8) -> bv8) { forall x, y :: f(x, y) == x & y }
  ghost predicate IsOr(f: (bv8, bv8) -> bv8) { forall x, y :: f(x, y) == x | y }
  ghost predicate IsXor(f: (bv8, bv8) -> bv8) { forall x, y :: f(x, y) == x ^ y }
  ghost predicate IsNot(f: (bv8, bv8) -> bv8) { forall x, y :: f(x, y) == !x }

  ghost predicate Implements(f: (bv8, bv8) -> bv8, op: Op) {
    match op case And => IsAnd(f) case Or => IsOr(f) case Xor => IsXor(f) case Not => IsNot(f)
  }

  /** A missing key is an empty string, and strings are extended with zeros. */
  function ByteAt(src: Option<seq<bv8>>, j: nat): bv8 {
    if src.Some? && j < |src.value| then src.value[j] else 0
  }

  function Length(src: Option<seq<bv8>>): nat { if src.Some? then |src.value| else 0 }

  function MaxLength(srcs: seq<Option<seq<bv8>>>): nat {
    if srcs == [] then 0
    else
      var rest := MaxLength(srcs[..|srcs| - 1]);
      var last := Length(srcs[|srcs| - 1]);
      if last > rest then last else rest
  }

  /** The operator folded over the first n sources, at byte j. */
  function Partial(f: (bv8, bv8) -> bv8, srcs: seq<Option<seq<bv8>>>, n: nat, j: nat): bv8
    requires 0 < n <= |srcs|
  {
    if n == 1 then ByteAt(srcs[0], j) else f(Partial(f, srcs, n - 1, j), ByteAt(srcs[n - 1], j))
  }

  function ResultByte(op: Op, srcs: seq<Option<seq<bv8>>>, j: nat): bv8
    requires srcs != []
  {
    if op.Not? then !ByteAt(srcs[0], j) else Partial(OnBytes(op), srcs, |srcs|, j)
  }

  // ----- Words ---------------------------------------------------------------------------------

  /** The bytes of a word, as they lie in memory. */
  datatype Eight = Eight(b0: bv8, b1: bv8, b2: bv8, b3: bv8, b4: bv8, b5: bv8, b6: bv8, b7: bv8)

  function Word(e: Eight): bv64 { Load8(e.b0, e.b1, e.b2, e.b3, e.b4, e.b5, e.b6, e.b7) }

  function Zip(f: (bv8, bv8) -> bv8, p: Eight, q: Eight): Eight {
    Eight(f(p.b0, q.b0), f(p.b1, q.b1), f(p.b2, q.b2), f(p.b3, q.b3), f(p.b4, q.b4), f(p.b5, q.b5), f(p.b6, q.b6), f(p.b7, q.b7))
  }

  method StoreWord(w: bv64) returns (r: Eight)
    ensures Word(r) == w
  {
    r := Eight(((w >> 56) & 0xFF) as bv8, ((w >> 48) & 0xFF) as bv8, ((w >> 40) & 0xFF) as bv8, ((w >> 32) & 0xFF) as bv8,
               ((w >> 24) & 0xFF) as bv8, ((w >> 16) & 0xFF) as bv8, ((w >> 8) & 0xFF) as bv8, (w & 0xFF) as bv8);
  }

  lemma AndBytes(p: Eight, q: Eight, r: Eight)
    requires Word(r) == Word(p) & Word(q)
    ensures r.b0 == p.b0 & q.b0 && r.b1 == p.b1 & q.b1 && r.b2 == p.b2 & q.b2 && r.b3 == p.b3 & q.b3
    ensures r.b4 == p.b4 & q.b4 && r.b5 == p.b5 & q.b5 && r.b6 == p.b6 & q.b6 && r.b7 == p.b7 & q.b7
  {}

  lemma OrBytes(p: Eight, q: Eight, r: Eight)
    requires Word(r) == Word(p) | Word(q)
    ensures r.b0 == p.b0 | q.b0 && r.b1 == p.b1 | q.b1 && r.b2 == p.b2 | q.b2 && r.b3 == p.b3 | q.b3
    ensures r.b4 == p.b4 | q.b4 && r.b5 == p.b5 | q.b5 && r.b6 == p.b6 | q.b6 && r.b7 == p.b7 | q.b7
  {}

  lemma XorBytes(p: Eight, q: Eight, r: Eight)
    requires Word(r) == Word(p) ^ Word(q)
    ensures r.b0 == p.b0 ^ q.b0 && r.b1 == p.b1 ^ q.b1 && r.b2 == p.b2 ^ q.b2 && r.b3 == p.b3 ^ q.b3
    ensures r.b4 == p.b4 ^ q.b4 && r.b5 == p.b5 ^ q.b5 && r.b6 == p.b6 ^ q.b6 && r.b7 == p.b7 ^ q.b7
  {}

  lemma NotBytes(p: Eight, r: Eight)
    requires Word(r) == !Word(p)
    ensures r.b0 == !p.b0 && r.b1 == !p.b1 && r.b2 == !p.b2 && r.b3 == !p.b3
    ensures r.b4 == !p.b4 && r.b5 == !p.b5 && r.b6 == !p.b6 && r.b7 == !p.b7
  {}

  method AndWords(ghost f: (bv8, bv8) -> bv8, p: Eight, q: Eight) returns (r: Eight)
    requires IsAnd(f)
    ensures r == Zip(f, p, q)
  {
    r := StoreWord(Word(p) & Word(q));
    AndBytes(p, q, r);
  }

  method OrWords(ghost f: (bv8, bv8) -> bv8, p: Eight, q: Eight) returns (r: Eight)
    requires IsOr(f)
    ensures r == Zip(f, p, q)
  {
    r := StoreWord(Word(p) | Word(q));
    OrBytes(p, q, r);
  }

  method XorWords(ghost f: (bv8, bv8) -> bv8, p: Eight, q: Eight) returns (r: Eight)
    requires IsXor(f)
    ensures r == Zip(f, p, q)
  {
    r := StoreWord(Word(p) ^ Word(q));
    XorBytes(p, q, r);
  }

  method NotWord(ghost f: (bv8, bv8) -> bv8, p: Eight, ghost q: Eight) returns (r: Eight)
    requires IsNot(f)
    ensures r == Zip(f, p, q)
  {
    r := StoreWord(!Word(p));
    NotBytes(p, r);
  }

  /** A word operation works on each byte. */
  method WordOp(op: Op, ghost f: (bv8, bv8) -> bv8, p: Eight, q: Eight) returns (r: Eight)
    requires Implements(f, op)
    ensures r == Zip(f, p, q)
  {
    match op
    case And => r := AndWords(f, p, q);
    case Or => r := OrWords(f, p, q);
    case Xor => r := XorWords(f, p, q);
    case Not => r := NotWord(f, p, q);
  }

  function EightAt(s: seq<bv8>, at: nat): Eight
    requires at + 8 <= |s|
  {
    Eight(s[at], s[at + 1], s[at + 2], s[at + 3], s[at + 4], s[at + 5], s[at + 6], s[at + 7])
  }

  method StoreEight(res: array<bv8>, at: nat, r: Eight)
    requires at + 8 <= res.Length
    modifies res
    ensures EightAt(res[..], at) == r
    ensures forall k :: 0 <= k < res.Length && !(at <= k < at + 8) ==> res[k] == old(res[k])
  {
    res[at], res[at + 1], res[at + 2], res[at + 3] := r.b0, r.b1, r.b2, r.b3;
    res[at + 4], res[at + 5], res[at + 6], res[at + 7] := r.b4, r.b5, r.b6, r.b7;
  }

  /** One word of the result, combined in place with the same word of a source. */
  method CombineWord(op: Op, ghost f: (bv8, bv8) -> bv8, res: array<bv8>, at: nat, src: seq<bv8>)
    requires at + 8 <= res.Length && at + 8 <= |src| && Implements(f, op)
    modifies res
    ensures forall k :: at <= k < at + 8 ==> res[k] == f(old(res[k]), src[k])
    ensures forall k :: 0 <= k < res.Length && !(at <= k < at + 8) ==> res[k] == old(res[k])
  {
    var r := WordOp(op, f, EightAt(res[..], at), EightAt(src, at));
    StoreEight(res, at, r);
    ZipAt(f, old(res[..]), src, res[..], at);
  }

  lemma ZipAt(f: (bv8, bv8) -> bv8, s: seq<bv8>, t: seq<bv8>, u: seq<bv8>, at: nat)
    requires at + 8 <= |s| && at + 8 <= |t| && at + 8 <= |u| && EightAt(u, at) == Zip(f, EightAt(s, at), EightAt(t, at))
    ensures forall k :: at <= k < at + 8 ==> u[k] == f(s[k], t[k])
  {}

  // ----- The fast path ----------------------------------------------------------------------------

  /** What the result holds at byte k, in terms of the byte operator. */
  ghost function Final(op: Op, f: (bv8, bv8) -> bv8, srcs: seq<Option<seq<bv8>>>, k: nat): bv8
    requires srcs != []
  {
    if op.Not? then f(ByteAt(srcs[0], k), ByteAt(srcs[0], k)) else Partial(f, srcs, |srcs|, k)
  }

  /** Four words. */
  method CombineBlock(op: Op, ghost f: (bv8, bv8) -> bv8, res: array<bv8>, at: nat, src: seq<bv8>)
    requires at + 32 <= res.Length && at + 32 <= |src| && Implements(f, op)
    modifies res
    ensures forall k :: at <= k < at + 32 ==> res[k] == f(old(res[k]), src[k])
    ensures forall k :: 0 <= k < res.Length && !(at <= k < at + 32) ==> res[k] == old(res[k])
  {
    CombineWord(op, f, res, at, src);
    CombineWord(op, f, res, at + 8, src);
    CombineWord(op, f, res, at + 16, src);
    CombineWord(op, f, res, at + 24, src);
  }

  /** One block of the result: all sources combined into the bytes of the first. */
  method Block(op: Op, ghost f: (bv8, bv8) -> bv8, srcs: seq<Option<seq<bv8>>>, res: array<bv8>, j: nat)
    requires srcs != [] && Implements(f, op) && j + 32 <= res.Length
    requires forall i :: 0 <= i < |srcs| ==> srcs[i].Some? && j + 32 <= |srcs[i].value|
    requires forall k :: j <= k < j + 32 ==> res[k] == ByteAt(srcs[0], k)
    modifies res
    ensures forall k :: j <= k < j + 32 ==> res[k] == Final(op, f, srcs, k)
    ensures forall k :: 0 <= k < res.Length && !(j <= k < j + 32) ==> res[k] == old(res[k])
  {
    if op.Not? {
      CombineBlock(op, f, res, j, srcs[0].value);
    } else {
      var i := 1;
      while i < |srcs|
        invariant 1 <= i <= |srcs|
        invariant forall k :: j <= k < j + 32 ==> res[k] == Partial(f, srcs, i, k)
        invariant forall k :: 0 <= k < res.Length && !(j <= k < j + 32) ==> res[k] == old(res[k])
      {
        CombineBlock(op, f, res, j, srcs[i].value);
        i := i + 1;
      }
    }
  }

  /** Whole blocks, as far as every source has data; returns the first byte left to do. */
  method FastPath(op: Op, ghost f: (bv8, bv8) -> bv8, srcs: seq<Option<seq<bv8>>>, res: array<bv8>, minlen: nat) returns (j: nat)
    requires srcs != [] && Implements(f, op) && minlen <= res.Length
    requires forall i :: 0 <= i < |srcs| ==> srcs[i].Some? && minlen <= |srcs[i].value|
    modifies res
    ensures j <= minlen && forall k :: 0 <= k < j ==> res[k] == Final(op, f, srcs, k)
  {
    CopyFirst(res, srcs[0].value, minlen);
    j := 0;
    var left := minlen;
    while left >= 32
      invariant left == minlen - j && 0 <= j <= minlen
      invariant forall k :: 0 <= k < j ==> res[k] == Final(op, f, srcs, k)
      invariant forall k :: j <= k < minlen ==> res[k] == ByteAt(srcs[0], k)
    {
      Block(op, f, srcs, res, j);
      j, left := j + 32, left - 32;
    }
  }

  method CopyFirst(res: array<bv8>, src: seq<bv8>, n: nat)
    requires n <= res.Length && n <= |src|
    modifies res
    ensures forall k :: 0 <= k < n ==> res[k] == src[k]
  {
    forall k | 0 <= k < n { res[k] := src[k]; }
  }

  // ----- The byte loop -----------------------------------------------------------------------------

  /** Once the fold reaches a value nothing changes, it stays there. */
  lemma {:induction false} Absorbed(f: (bv8, bv8) -> bv8, srcs: seq<Option<seq<bv8>>>, m: nat, n: nat, k: nat, z: bv8)
    requires 0 < m <= n <= |srcs| && Partial(f, srcs, m, k) == z && forall y :: f(z, y) == z
    ensures Partial(f, srcs, n, k) == z
    decreases n
  {
    if m < n { Absorbed(f, srcs, m, n - 1, k, z); }
  }

  /** What the loop does with one more byte, and whether it stops. */
  method Step(op: Op, ghost f: (bv8, bv8) -> bv8, output: bv8, byte: bv8) returns (output': bv8, skip: bool)
    requires Implements(f, op) && !op.Not?
    ensures output' == f(output, byte) && (skip ==> forall y :: f(output', y) == output')
  {
    skip := false;
    match op
    case And => output' := output & byte; skip := output' == 0;
    case Or => output' := output | byte; skip := output' == 0xFF;
    case Xor => output' := output ^ byte;
  }

  method SlowByte(op: Op, ghost f: (bv8, bv8) -> bv8, srcs: seq<Option<seq<bv8>>>, j: nat) returns (output: bv8)
    requires srcs != [] && Implements(f, op) && (op.Not? ==> |srcs| == 1)
    ensures output == Final(op, f, srcs, j)
  {
    output := ByteAt(srcs[0], j);
    if op.Not? { output := !output; }
    var i := 1;
    while i < |srcs|
      invariant 1 <= i <= |srcs| && (!op.Not? ==> output == Partial(f, srcs, i, j))
      invariant op.Not? ==> output == Final(op, f, srcs, j)
    {
      var skip;
      output, skip := Step(op, f, output, ByteAt(srcs[i], j));
      i := i + 1;
      if skip {
        Absorbed(f, srcs, i, |srcs|, j, output);
        return;
      }
    }
  }

  // ----- The command -----------------------------------------------------------------------------------

  lemma {:induction false} MaxLengthBound(srcs: seq<Option<seq<bv8>>>, i: nat)
    requires i < |srcs|
    ensures Length(srcs[i]) <= MaxLength(srcs)
  {
    if i < |srcs| - 1 { MaxLengthBound(srcs[..|srcs| - 1], i); }
  }

  /** The longest length, and a length every source has; a missing key makes the latter zero. */
  method Lengths(srcs: seq<Option<seq<bv8>>>) returns (minlen: nat, maxlen: nat)
    ensures maxlen == MaxLength(srcs)
    ensures minlen > 0 ==> forall i :: 0 <= i < |srcs| ==> srcs[i].Some? && minlen <= |srcs[i].value|
  {
    minlen, maxlen := 0, 0;
    var j := 0;
    while j < |srcs|
      invariant 0 <= j <= |srcs| && maxlen == MaxLength(srcs[..j])
      invariant minlen > 0 ==> forall i :: 0 <= i < j ==> srcs[i].Some? && minlen <= |srcs[i].value|
    {
      assert srcs[..j + 1][..j] == srcs[..j];
      if srcs[j].None? {
        minlen := 0;
      } else {
        var len := |srcs[j].value|;
        if len > maxlen { maxlen := len; }
        if j == 0 || len < minlen { minlen := len; }
      }
      j := j + 1;
    }
    assert srcs[..j] == srcs;
  }

  lemma OnBytesImplements(op: Op)
    ensures Implements(OnBytes(op), op)
  {}

  lemma FinalIs(op: Op, srcs: seq<Option<seq<bv8>>>, k: nat)
    requires srcs != []
    ensures Final(op, OnBytes(op), srcs, k) == ResultByte(op, srcs, k)
  {}

  /** BITOP: as long as the longest source, each byte the operator folded over the zero-extended sources. */
  method BitOpCommand(op: Op, srcs: seq<Option<seq<bv8>>>) returns (result: seq<bv8>)
    requires srcs != [] && (op.Not? ==> |srcs| == 1)
    ensures |result| == MaxLength(srcs) && forall k :: 0 <= k < |result| ==> result[k] == ResultByte(op, srcs, k)
  {
    var minlen, maxlen := Lengths(srcs);
    ghost var f := OnBytes(op);
    OnBytesImplements(op);
    var res := new bv8[maxlen](_ => 0);
    var j := 0;
    if minlen >= 32 && |srcs| <= 16 {
      MaxLengthBound(srcs, 0);
      j := FastPath(op, f, srcs, res, minlen);
    }
    while j < maxlen
      invariant 0 <= j <= maxlen && forall k :: 0 <= k < j ==> res[k] == Final(op, f, srcs, k)
    {
      res[j] := SlowByte(op, f, srcs, j);
      j := j + 1;
    }
    result := res[..];
    forall k | 0 <= k < maxlen ensures result[k] == ResultByte(op, srcs, k) { FinalIs(op, srcs, k); }
  }

  // ----- Bit by bit ------------------------------------------------------------------------------

  /** Bit i of byte j of a source; a source that ends before has none. */
  predicate SourceBit(src: Option<seq<bv8>>, j: nat, i: nat)
    requires i < 8
  {
    src.Some? && j < |src.value| && Bit(src.value[j], i)
  }

  /** How many of the first n sources have the bit. */
  function Having(srcs: seq<Option<seq<bv8>>>, n: nat, j: nat, i: nat): (h: nat)
    requires n <= |srcs| && i < 8
    ensures h <= n
  {
    if n == 0 then 0 else Having(srcs, n - 1, j, i) + One(SourceBit(srcs[n - 1], j, i))
  }

  function BitFn(i: nat): bv8 -> bool
    requires i < 8
  {
    b => Bit(b, i)
  }

  lemma AndBit(x: bv8, y: bv8, i: nat)
    requires i < 8
    ensures Bit(x & y, i) == (Bit(x, i) && Bit(y, i))
  {}

  lemma OrBit(x: bv8, y: bv8, i: nat)
    requires i < 8
    ensures Bit(x | y, i) == (Bit(x, i) || Bit(y, i))
  {}

  lemma XorHighBit(x: bv8, y: bv8, i: nat)
    requires i < 4
    ensures Bit(x ^ y, i) == (Bit(x, i) != Bit(y, i))
  {}

  lemma XorLowBit(x: bv8, y: bv8, i: nat)
    requires 4 <= i < 8
    ensures Bit(x ^ y, i) == (Bit(x, i) != Bit(y, i))
  {}

  lemma XorBit(x: bv8, y: bv8, i: nat)
    requires i < 8
    ensures Bit(x ^ y, i) == (Bit(x, i) != Bit(y, i))
  {
    if i < 4 { XorHighBit(x, y, i); } else { XorLowBit(x, y, i); }
  }

  lemma NotBit(x: bv8, i: nat)
    requires i < 8
    ensures Bit(!x, i) == !Bit(x, i)
  {}

  lemma ByteAtBit(src: Option<seq<bv8>>, j: nat, i: nat)
    requires i < 8
    ensures Bit(ByteAt(src, j), i) == SourceBit(src, j, i)
  {
    ZeroBit(i);
  }

  /** The operator on bytes is g on this bit of them. */
  ghost predicate OnBit(f: (bv8, bv8) -> bv8, bit: bv8 -> bool, g: (bool, bool) -> bool) {
    forall x, y {:trigger f(x, y)} :: bit(f(x, y)) == g(bit(x), bit(y))
  }

  function Folded(g: (bool, bool) -> bool, srcs: seq<Option<seq<bv8>>>, n: nat, j: nat, i: nat): bool
    requires 0 < n <= |srcs| && i < 8
  {
    if n == 1 then SourceBit(srcs[0], j, i) else g(Folded(g, srcs, n - 1, j, i), SourceBit(srcs[n - 1], j, i))
  }

  lemma {:induction false} PartialBit(f: (bv8, bv8) -> bv8, g: (bool, bool) -> bool, srcs: seq<Option<seq<bv8>>>, n: nat, j: nat, i: nat, bit: bv8 -> bool)
    requires 0 < n <= |srcs| && i < 8 && bit == BitFn(i) && OnBit(f, bit, g)
    ensures bit(Partial(f, srcs, n, j)) == Folded(g, srcs, n, j, i)
  {
    ByteAtBit(srcs[n - 1], j, i);
    if n > 1 { PartialBit(f, g, srcs, n - 1, j, i, bit); }
  }

  lemma {:induction false} FoldedCounts(g: (bool, bool) -> bool, srcs: seq<Option<seq<bv8>>>, n: nat, j: nat, i: nat)
    requires 0 < n <= |srcs| && i < 8
    ensures (forall a, b :: g(a, b) == (a && b)) ==> (Folded(g, srcs, n, j, i) <==> Having(srcs, n, j, i) == n)
    ensures (forall a, b :: g(a, b) == (a || b)) ==> (Folded(g, srcs, n, j, i) <==> Having(srcs, n, j, i) > 0)
    ensures (forall a, b :: g(a, b) == (a != b)) ==> (Folded(g, srcs, n, j, i) <==> Having(srcs, n, j, i) % 2 == 1)
  {
    if n > 1 { FoldedCounts(g, srcs, n - 1, j, i); } else { assert Having(srcs, 0, j, i) == 0; }
  }

  function OnBools(op: Op): (bool, bool) -> bool {
    match op
    case And => (a, b) => a && b
    case Or => (a, b) => a || b
    case Xor => (a, b) => a != b
    case Not => (a, b) => !a
  }

  lemma AndOnBit(i: nat)
    requires i < 8
    ensures OnBit(OnBytes(And), BitFn(i), OnBools(And))
  {
    forall x, y ensures Bit(x & y, i) == (Bit(x, i) && Bit(y, i)) { AndBit(x, y, i); }
  }

  lemma OrOnBit(i: nat)
    requires i < 8
    ensures OnBit(OnBytes(Or), BitFn(i), OnBools(Or))
  {
    forall x, y ensures Bit(x | y, i) == (Bit(x, i) || Bit(y, i)) { OrBit(x, y, i); }
  }

  lemma XorOnBit(i: nat)
    requires i < 8
    ensures OnBit(OnBytes(Xor), BitFn(i), OnBools(Xor))
  {
    forall x, y ensures Bit(x ^ y, i) == (Bit(x, i) != Bit(y, i)) { XorBit(x, y, i); }
  }

  /** A bit of the result: set in all sources, in some, in an odd number of them, or not set in the first. */
  lemma ResultBit(op: Op, srcs: seq<Option<seq<bv8>>>, j: nat, i: nat)
    requires srcs != [] && i < 8
    ensures Bit(ResultByte(op, srcs, j), i) == match op
      case And => Having(srcs, |srcs|, j, i) == |srcs|
      case Or => Having(srcs, |srcs|, j, i) > 0
      case Xor => Having(srcs, |srcs|, j, i) % 2 == 1
      case Not => !SourceBit(srcs[0], j, i)
  {
    if op.Not? {
      ByteAtBit(srcs[0], j, i);
      NotBit(ByteAt(srcs[0], j), i);
    } else {
      if op.And? { AndOnBit(i); } else if op.Or? { OrOnBit(i); } else { XorOnBit(i); }
      PartialBit(OnBytes(op), OnBools(op), srcs, |srcs|, j, i, BitFn(i));
      FoldedCounts(OnBools(op), srcs, |srcs|, j, i);
    }
  }

  /** The result is as long as the longest source. */
  lemma {:induction false} LongestSource(srcs: seq<Option<seq<bv8>>>, j: nat)
    ensures j < MaxLength(srcs) <==> exists i :: 0 <= i < |srcs| && srcs[i].Some? && j < |srcs[i].value|
  {
    if srcs != [] {
      var n := |srcs| - 1;
      LongestSource(srcs[..n], j);
      assert forall i :: 0 <= i < n ==> srcs[i] == srcs[..n][i];
    }
  }
}
