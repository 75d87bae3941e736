/**
  File names of the append-only directory. The rewrite machine identifies a file
  by its kind, sequence number and format; the lemmas here say that this is what
  the printed names identify, so truncating or renaming one name never touches
  another file.
*/
module AofNames {
  import opened AofRewrite
  import opened Decimal

  const BASE_SUFFIX := ".base"
  const INCR_SUFFIX := ".incr"
  const RDB_SUFFIX := ".rdb"
  const AOF_SUFFIX := ".aof"

  function Suffix(name: FileName): string {
    match name
    case BaseFile(_, rdb) => BASE_SUFFIX + if rdb then RDB_SUFFIX else AOF_SUFFIX
    case IncrFile(_) => INCR_SUFFIX + AOF_SUFFIX
  }

  /** The printed name, for the configured `appendfilename`. */
  function Text(prefix: string, name: FileName): string {
    (prefix + ".") + (Dec(name.n) + Suffix(name))
  }

  lemma HeadDigit(a: string, x: string)
    requires forall c :: c in a ==> IsDigit(c)
    requires x != [] && !IsDigit(x[0])
    ensures IsDigit((a + x)[0]) <==> a != []
  {
    if a != [] { assert a[0] in a; }
  }

  /** Digits followed by something that does not start with a digit determine both parts. */
  lemma {:induction false} DigitsPrefix(a: string, x: string, b: string, y: string)
    requires forall c :: c in a ==> IsDigit(c)
    requires forall c :: c in b ==> IsDigit(c)
    requires x != [] && !IsDigit(x[0]) && y != [] && !IsDigit(y[0])
    requires a + x == b + y
    ensures a == b && x == y
    decreases a
  {
    HeadDigit(a, x);
    HeadDigit(b, y);
    if a == [] {
      assert a + x == x && b + y == y;
    } else {
      assert (a + x)[0] == a[0] && (b + y)[0] == b[0];
      assert (a + x)[1..] == a[1..] + x && (b + y)[1..] == b[1..] + y;
      DigitsPrefix(a[1..], x, b[1..], y);
      assert a == [a[0]] + a[1..] && b == [b[0]] + b[1..];
    }
  }

  lemma SuffixTags(a: FileName)
    ensures |Suffix(a)| == 9 && Suffix(a)[0] == '.'
    ensures Suffix(a)[1] == if a.BaseFile? then 'b' else 'i'
    ensures Suffix(a)[6] == if a.BaseFile? && a.rdb then 'r' else 'a'
  {}

  lemma CancelPrefix(p: string, u: string, v: string)
    requires p + u == p + v
    ensures u == v
  {
    assert u == (p + u)[|p|..];
    assert v == (p + v)[|p|..];
  }

  lemma TextInjective(prefix: string, a: FileName, b: FileName)
    requires Text(prefix, a) == Text(prefix, b)
    ensures a == b
  {
    CancelPrefix(prefix + ".", Dec(a.n) + Suffix(a), Dec(b.n) + Suffix(b));
    DecDigits(a.n);
    DecDigits(b.n);
    SuffixTags(a);
    SuffixTags(b);
    DigitsPrefix(Dec(a.n), Suffix(a), Dec(b.n), Suffix(b));
    DecInjective(a.n, b.n);
  }

  /** The names of the first BASE and the first INCR. */
  lemma FirstNames()
    ensures Text("appendonly.aof", BaseFile(1, true)) == "appendonly.aof.1.base.rdb"
    ensures Text("appendonly.aof", BaseFile(1, false)) == "appendonly.aof.1.base.aof"
    ensures Text("appendonly.aof", IncrFile(1)) == "appendonly.aof.1.incr.aof"
  {
    assert Dec(1) == "1";
  }
}
