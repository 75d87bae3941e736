/**
  Polynomials over GF(2), as sets of exponents, so that adding is exclusive or; and what a shift
  register with feedback computes: the remainder of its input modulo a polynomial.
*/
module CrcPoly {
  type Poly = set<nat>

  function Plus(a: Poly, b: Poly): Poly { (a - b) + (b - a) }

  /** Multiplied by x^n. */
  function Raised(a: Poly, n: nat): Poly { set e | e in a :: e + n }

  lemma PlusAssoc(a: Poly, b: Poly, c: Poly)
    ensures Plus(Plus(a, b), c) == Plus(a, Plus(b, c)) && Plus(a, b) == Plus(b, a) && Plus(a, {}) == a && Plus(a, a) == {}
  {}

  lemma RaisedPlus(a: Poly, b: Poly, n: nat)
    ensures Raised(Plus(a, b), n) == Plus(Raised(a, n), Raised(b, n))
  {
    var l, r := Raised(Plus(a, b), n), Plus(Raised(a, n), Raised(b, n));
    forall e ensures e in l <==> e in r {
      if e >= n {
        assert e in Raised(a, n) <==> e - n in a;
        assert e in Raised(b, n) <==> e - n in b;
        assert e in l <==> e - n in Plus(a, b);
      }
    }
  }

  // ----- Bits as exponents ----------------------------------------------------------------------

  /** The polynomial of n bits, highest exponent first: top gives the first bit, next moves the others up. */
  function Highest<R>(top: R -> bool, next: R -> R, r: R, n: nat): Poly
    decreases n
  {
    if n == 0 then {} else (if top(r) then {n - 1} else {}) + Highest(top, next, next(r), n - 1)
  }

  function NextBy<R>(next: R -> R, r: R, n: nat): R
    decreases n
  {
    if n == 0 then r else NextBy(next, next(r), n - 1)
  }

  lemma {:induction false} HighestBelow<R>(top: R -> bool, next: R -> R, r: R, n: nat)
    ensures forall e :: e in Highest(top, next, r, n) ==> e < n
    decreases n
  {
    if n > 0 { HighestBelow(top, next, next(r), n - 1); }
  }

  lemma PlusTop(a: Poly, b: Poly, n: nat, s: bool, t: bool)
    requires (forall e :: e in a ==> e < n) && forall e :: e in b ==> e < n
    ensures (if s != t then {n} else {}) + Plus(a, b) == Plus((if s then {n} else {}) + a, (if t then {n} else {}) + b)
  {}

  ghost predicate AddsAt<R>(top: R -> bool, next: R -> R, xor: (R, R) -> R, a: R, b: R, c: R)
    requires c == xor(a, b)
  {
    top(c) == (top(a) != top(b)) && next(c) == xor(next(a), next(b))
  }

  ghost predicate Adds<R(!new)>(top: R -> bool, next: R -> R, xor: (R, R) -> R) {
    forall a, b {:trigger xor(a, b)} :: AddsAt(top, next, xor, a, b, xor(a, b))
  }

  /** Exclusive or adds polynomials. */
  lemma {:induction false} HighestXor<R(!new)>(top: R -> bool, next: R -> R, xor: (R, R) -> R, a: R, b: R, n: nat)
    requires Adds(top, next, xor)
    ensures Highest(top, next, xor(a, b), n) == Plus(Highest(top, next, a, n), Highest(top, next, b, n))
    decreases n
  {
    if n > 0 {
      HighestXor(top, next, xor, next(a), next(b), n - 1);
      HighestBelow(top, next, next(a), n - 1);
      HighestBelow(top, next, next(b), n - 1);
      PlusTop(Highest(top, next, next(a), n - 1), Highest(top, next, next(b), n - 1), n - 1, top(a), top(b));
    }
  }

  lemma RaisedTop(a: Poly, n: nat, top: bool)
    ensures Raised((if top then {n} else {}) + a, 1) == (if top then {n + 1} else {}) + Raised(a, 1)
  {}

  /** One bit more at the low end. */
  lemma {:induction false} HighestMore<R>(top: R -> bool, next: R -> R, r: R, n: nat)
    ensures Highest(top, next, r, n + 1) == Raised(Highest(top, next, r, n), 1) + if top(NextBy(next, r, n)) then {0} else {}
    decreases n
  {
    if n > 0 {
      HighestMore(top, next, next(r), n - 1);
      RaisedTop(Highest(top, next, next(r), n - 1), n - 1, top(r));
    } else {
      assert Raised({}, 1) == {};
    }
  }

  /** Moving all bits up by one multiplies by x, but for the bit that is lost. */
  lemma MovedUp<R>(top: R -> bool, next: R -> R, r: R, n: nat)
    requires n > 0 && !top(NextBy(next, r, n))
    ensures Raised(Highest(top, next, r, n), 1) == Plus(Highest(top, next, next(r), n), if top(r) then {n} else {})
  {
    HighestMore(top, next, next(r), n - 1);
    HighestBelow(top, next, next(r), n);
    RaisedTop(Highest(top, next, next(r), n - 1), n - 1, top(r));
  }

  /** The next four bits. */
  lemma NextFour<R>(top: R -> bool, next: R -> R, r: R, r1: R, r2: R, r3: R, r4: R, n: nat, a: bool, b: bool, c: bool, d: bool)
    requires n >= 4 && r1 == next(r) && r2 == next(r1) && r3 == next(r2) && r4 == next(r3)
    requires a == top(r) && b == top(r1) && c == top(r2) && d == top(r3)
    ensures Highest(top, next, r, n) == Four(n, a, b, c, d) + Highest(top, next, r4, n - 4)
  {
    assert Highest(top, next, r, n) == (if a then {n - 1} else {}) + Highest(top, next, r1, n - 1);
    assert Highest(top, next, r1, n - 1) == (if b then {n - 2} else {}) + Highest(top, next, r2, n - 2);
    assert Highest(top, next, r2, n - 2) == (if c then {n - 3} else {}) + Highest(top, next, r3, n - 3);
    assert Highest(top, next, r3, n - 3) == (if d then {n - 4} else {}) + Highest(top, next, r4, n - 4);
  }

  function Four(n: nat, a: bool, b: bool, c: bool, d: bool): Poly
    requires n >= 4
  {
    (if a then {n - 1} else {}) + (if b then {n - 2} else {}) + (if c then {n - 3} else {}) + (if d then {n - 4} else {})
  }

  // ----- Division --------------------------------------------------------------------------------

  /** The polynomial of a string of bits, highest exponent first. */
  function Message(bits: seq<bool>): Poly { set i | 0 <= i < |bits| && bits[i] :: |bits| - 1 - i }

  /** What is divided: the old register moved up by the length of the message, and the message moved up by the width. */
  function Dividend(old_: Poly, bits: seq<bool>, width: nat): Poly { Plus(Raised(old_, |bits|), Raised(Message(bits), width)) }

  /** p multiplied by the polynomial of the bits q. */
  function Times(p: Poly, q: seq<bool>): Poly {
    if q == [] then {} else Plus(if q[0] then Raised(p, |q| - 1) else {}, Times(p, q[1..]))
  }

  /** r is d less some multiple of p. */
  ghost predicate IsRemainder(d: Poly, p: Poly, r: Poly) { exists q {:trigger Times(p, q)} :: d == Plus(r, Times(p, q)) }

  predicate Below(a: Poly, n: nat) { forall e :: e in a ==> e < n }

  lemma MessageFirst(bits: seq<bool>)
    requires bits != []
    ensures Message(bits) == Plus(if bits[0] then {|bits| - 1} else {}, Message(bits[1..]))
  {
    var n := |bits| - 1;
    var first, rest := if bits[0] then {n} else {}, Message(bits[1..]);
    forall e ensures e in Message(bits) <==> e in first + rest {
      if 0 <= e < n { assert bits[n - e] == bits[1..][n - 1 - e]; }
      if e in rest { assert bits[1..][n - 1 - e] == bits[n - e]; }
    }
  }

  lemma RaisedOne(e: nat, n: nat)
    ensures Raised({e}, n) == {e + n} && Raised({}, n) == {}
  {}

  lemma RaisedMore(a: Poly, m: nat, n: nat)
    ensures Raised(Raised(a, m), n) == Raised(a, m + n)
  {
    forall e ensures e in Raised(Raised(a, m), n) <==> e in Raised(a, m + n) {
      if e in Raised(a, m + n) { assert e - n in Raised(a, m); }
    }
  }

  /** Dividing one bit further. */
  lemma DividendStep(old_: Poly, new_: Poly, bits: seq<bool>, width: nat, p: Poly, t: bool)
    requires bits != [] && Plus(Raised(old_, 1), if bits[0] then {width} else {}) == Plus(new_, if t then p else {})
    ensures Dividend(old_, bits, width) == Plus(Dividend(new_, bits[1..], width), if t then Raised(p, |bits| - 1) else {})
  {
    var n, rest := |bits| - 1, bits[1..];
    var b: Poly := if bits[0] then {width} else {};
    var m: Poly := if bits[0] then {n} else {};
    MessageFirst(bits);
    RaisedPlus(m, Message(rest), width);
    RaisedOne(n, width);
    RaisedOne(width, n);
    RaisedMore(old_, 1, n);
    RaisedPlus(Raised(old_, 1), b, n);
    RaisedPlus(new_, if t then p else {}, n);
    FourTerms(Raised(old_, n + 1), Raised(b, n), Raised(Message(rest), width), Raised(new_, n), if t then Raised(p, n) else {});
  }

  lemma FourTerms(a: Poly, b: Poly, c: Poly, d: Poly, e: Poly)
    requires Plus(a, b) == Plus(d, e)
    ensures Plus(a, Plus(b, c)) == Plus(Plus(d, c), e)
  {
    PlusAssoc(a, b, c);
    PlusAssoc(d, e, c);
    PlusAssoc(d, c, e);
    PlusAssoc(e, c, d);
  }

  /** A register that is moved up one bit at a time, and to which poly is added when the bit lost and the input differ. */
  function After<R>(top: R -> bool, next: R -> R, xor: (R, R) -> R, poly: R, r: R, bits: seq<bool>): R
    decreases bits
  {
    if bits == [] then r
    else After(top, next, xor, poly, if top(r) != bits[0] then xor(next(r), poly) else next(r), bits[1..])
  }

  lemma StepDivides<R(!new)>(top: R -> bool, next: R -> R, xor: (R, R) -> R, poly: R, r: R, b: bool, width: nat, p: Poly)
    requires Adds(top, next, xor) && width > 0 && !top(NextBy(next, r, width)) && Plus(Highest(top, next, poly, width), {width}) == p
    ensures var t := top(r) != b;
      Plus(Raised(Highest(top, next, r, width), 1), if b then {width} else {}) ==
      Plus(Highest(top, next, if t then xor(next(r), poly) else next(r), width), if t then p else {})
  {
    MovedUp(top, next, r, width);
    HighestXor(top, next, xor, next(r), poly, width);
    StepTerms(Raised(Highest(top, next, r, width), 1), Highest(top, next, next(r), width), Highest(top, next, poly, width), width, top(r), b);
  }

  lemma StepTerms(up: Poly, moved: Poly, low: Poly, width: nat, top: bool, b: bool)
    requires up == Plus(moved, if top then {width} else {})
    ensures Plus(up, if b then {width} else {}) ==
            if top != b then Plus(Plus(moved, low), Plus(low, {width})) else Plus(moved, {})
  {}

  /** The register is the remainder. */
  lemma {:induction false} AfterDivides<R(!new)>(top: R -> bool, next: R -> R, xor: (R, R) -> R, poly: R, r: R, bits: seq<bool>, width: nat, p: Poly)
      returns (q: seq<bool>)
    requires Adds(top, next, xor) && width > 0 && (forall x {:trigger NextBy(next, x, width)} :: !top(NextBy(next, x, width)))
    requires Plus(Highest(top, next, poly, width), {width}) == p
    ensures |q| == |bits| && Dividend(Highest(top, next, r, width), bits, width) ==
            Plus(Highest(top, next, After(top, next, xor, poly, r, bits), width), Times(p, q))
    decreases bits
  {
    var old_ := Highest(top, next, r, width);
    if bits == [] {
      q := [];
      RaisedOne(0, width);
      assert Raised(old_, 0) == old_ && Message(bits) == {};
    } else {
      var t := top(r) != bits[0];
      var r' := if t then xor(next(r), poly) else next(r);
      StepDivides(top, next, xor, poly, r, bits[0], width, p);
      DividendStep(old_, Highest(top, next, r', width), bits, width, p, t);
      var q' := AfterDivides(top, next, xor, poly, r', bits[1..], width, p);
      q := [t] + q';
      assert q[1..] == q';
      var result := Highest(top, next, After(top, next, xor, poly, r, bits), width);
      PlusAssoc(result, Times(p, q'), if t then Raised(p, |q'|) else {});
      PlusAssoc(if t then Raised(p, |q'|) else {}, Times(p, q'), {});
    }
  }

  // ----- There is only one remainder -----------------------------------------------------------------

  lemma {:induction false} TimesBelow(p: Poly, q: seq<bool>, width: nat)
    requires Below(p, width + 1)
    ensures Below(Times(p, q), width + |q|)
  {
    if q != [] { TimesBelow(p, q[1..], width); }
  }

  /** A multiple that is not zero has the degree of p or a higher one. */
  lemma {:induction false} TimesAbove(p: Poly, q: seq<bool>, width: nat)
    requires Below(p, width + 1) && width in p
    ensures Below(Times(p, q), width) ==> Times(p, q) == {}
  {
    if q != [] {
      TimesBelow(p, q[1..], width);
      if q[0] {
        var n := width + |q| - 1;
        assert n in Raised(p, |q| - 1) && n !in Times(p, q[1..]);
        assert n in Times(p, q);
      } else {
        PlusAssoc({}, Times(p, q[1..]), {});
        TimesAbove(p, q[1..], width);
      }
    }
  }

  lemma {:induction false} TimesPadded(p: Poly, q: seq<bool>, n: nat)
    ensures |Padded(q, n)| == |q| + n && Times(p, Padded(q, n)) == Times(p, q)
  {
    if n > 0 {
      TimesPadded(p, q, n - 1);
      assert Padded(q, n)[1..] == Padded(q, n - 1);
      PlusAssoc({}, Times(p, Padded(q, n - 1)), {});
    }
  }

  function Padded(q: seq<bool>, n: nat): seq<bool> { if n == 0 then q else [false] + Padded(q, n - 1) }

  function Differ(a: seq<bool>, b: seq<bool>): seq<bool>
    requires |a| == |b|
  {
    seq(|a|, i requires 0 <= i < |a| => a[i] != b[i])
  }

  lemma {:induction false} TimesPlus(p: Poly, a: seq<bool>, b: seq<bool>)
    requires |a| == |b|
    ensures Plus(Times(p, a), Times(p, b)) == Times(p, Differ(a, b))
    decreases a
  {
    if a != [] {
      TimesPlus(p, a[1..], b[1..]);
      assert Differ(a, b)[1..] == Differ(a[1..], b[1..]);
      var u, v := if a[0] then Raised(p, |a| - 1) else {}, if b[0] then Raised(p, |b| - 1) else {};
      SumOfSums(u, v, Times(p, a[1..]), Times(p, b[1..]));
      assert Plus(u, v) == if a[0] != b[0] then Raised(p, |a| - 1) else {};
    }
  }

  lemma SumOfSums(u: Poly, v: Poly, x: Poly, y: Poly)
    ensures Plus(Plus(u, x), Plus(v, y)) == Plus(Plus(u, v), Plus(x, y))
  {}

  /** Two remainders of one dividend, both of lower degree than p, are the same. */
  lemma OneRemainder(d: Poly, p: Poly, r: Poly, r': Poly, width: nat)
    requires Below(p, width + 1) && width in p && Below(r, width) && Below(r', width)
    requires IsRemainder(d, p, r) && IsRemainder(d, p, r')
    ensures r == r'
  {
    var q :| d == Plus(r, Times(p, q));
    var q' :| d == Plus(r', Times(p, q'));
    TimesPadded(p, q, |q'|);
    TimesPadded(p, q', |q|);
    var a, b := Padded(q, |q'|), Padded(q', |q|);
    TimesPlus(p, a, b);
    SameSum(r, r', Times(p, a), Times(p, b));
    TimesAbove(p, Differ(a, b), width);
    assert Plus(r, r') == {};
  }

  lemma OnlyRemainder(d: Poly, p: Poly, r: Poly, width: nat)
    requires Below(p, width + 1) && width in p && Below(r, width) && IsRemainder(d, p, r)
    ensures forall r' :: Below(r', width) && IsRemainder(d, p, r') ==> r' == r
  {
    forall r' | Below(r', width) && IsRemainder(d, p, r') ensures r' == r { OneRemainder(d, p, r', r, width); }
  }

  lemma SameSum(r: Poly, r': Poly, x: Poly, y: Poly)
    requires Plus(r, x) == Plus(r', y)
    ensures Plus(r, r') == Plus(x, y)
  {
    forall e ensures e in Plus(r, r') <==> e in Plus(x, y) { assert e in Plus(r, x) <==> e in Plus(r', y); }
  }
}
