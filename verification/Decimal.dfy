/**
  Decimal numerals as `ll2string` prints them and `atoi`/`strtol` read them back.
*/
module Decimal {
  import opened Collections

  predicate IsDigit(c: char) { '0' <= c <= '9' }

  function Digit(d: nat): (c: char)
    requires d < 10
    ensures IsDigit(c) && (c as int - '0' as int) == d
  {
    ('0' as int + d) as char
  }

  function Dec(n: nat): string {
    if n < 10 then [Digit(n)] else Dec(n / 10) + [Digit(n % 10)]
  }

  /** The value read so far, extended by the leading digits of s. */
  function Leading(s: string, acc: nat): nat
    decreases s
  {
    if s == [] || !IsDigit(s[0]) then acc
    else Leading(s[1..], 10 * acc + (s[0] as int - '0' as int))
  }

  /** `strtol` and `atoi`: blanks, a sign, digits. */
  function Strtol(s: string): int {
    var t := SkipBlanks(s);
    if t != [] && t[0] == '-' then 0 - Leading(t[1..], 0)
    else if t != [] && t[0] == '+' then Leading(t[1..], 0)
    else Leading(t, 0)
  }

  lemma {:induction false} DecDigits(n: nat)
    ensures Dec(n) != [] && forall c :: c in Dec(n) ==> IsDigit(c)
  {
    if n >= 10 { DecDigits(n / 10); }
  }

  /** Reading a printed number and going on is starting from that number. */
  lemma {:induction false} ReadDec(n: nat, rest: string)
    ensures Leading(Dec(n) + rest, 0) == Leading(rest, n)
  {
    if n < 10 {
      assert (Dec(n) + rest)[1..] == rest;
    } else {
      var last := [Digit(n % 10)];
      assert Dec(n) + rest == Dec(n / 10) + (last + rest);
      ReadDec(n / 10, last + rest);
      assert (last + rest)[1..] == rest;
    }
  }

  /** Digits are neither blanks nor signs. */
  lemma StrtolDigits(s: string)
    requires s != [] && IsDigit(s[0])
    ensures Strtol(s) == Leading(s, 0)
  {}

  lemma DecInjective(a: nat, b: nat)
    requires Dec(a) == Dec(b)
    ensures a == b
  {
    ReadDec(a, []);
    ReadDec(b, []);
    assert Dec(a) + [] == Dec(b) + [];
  }

  lemma UnsignedRead(n: nat, rest: string)
    requires rest == [] || !IsDigit(rest[0])
    ensures Leading(Dec(n) + rest, 0) == n && Dec(n) + rest != [] && IsDigit((Dec(n) + rest)[0])
  {
    DecDigits(n);
    ReadDec(n, rest);
    assert (Dec(n) + rest)[0] == Dec(n)[0] && Dec(n)[0] in Dec(n);
  }

  lemma StrtolSigns(t: string)
    requires t != [] && IsDigit(t[0])
    ensures Strtol(t) == Leading(t, 0) && Strtol("-" + t) == 0 - Leading(t, 0) && Strtol(" +" + t) == Leading(t, 0)
  {
    assert ("-" + t)[1..] == t && (" +" + t)[1..] == "+" + t && ("+" + t)[1..] == t;
    assert SkipBlanks(" +" + t) == SkipBlanks("+" + t) == "+" + t;
  }

  /** A printed number is read back with its sign, also after blanks, up to whatever follows its digits. */
  lemma SignedRead(n: nat, rest: string)
    requires rest == [] || !IsDigit(rest[0])
    ensures Strtol(Dec(n) + rest) == n && Strtol("-" + (Dec(n) + rest)) == 0 - n && Strtol(" +" + (Dec(n) + rest)) == n
  {
    UnsignedRead(n, rest);
    StrtolSigns(Dec(n) + rest);
  }
}
