/**
  The append-only log as text (aof.c): how commands are written, and how the loader reads
  them back, whole or cut off at any byte.
*/
module AofCodec {
  import opened Decimal

  type Command = seq<string>

  const CRLF: string := "\r\n"

  // ----- Writing -----------------------------------------------------------------------------

  function Argument(a: string): string { "$" + Dec(|a|) + CRLF + a + CRLF }

  function Arguments(arg: string -> string, args: seq<string>): string {
    if args == [] then [] else arg(args[0]) + Arguments(arg, args[1..])
  }

  function Encode(c: Command): string { "*" + Dec(|c|) + CRLF + Arguments(Argument, c) }

  /** A log: the commands one after another, each written by enc. */
  function EncodeAll(enc: Command -> string, cs: seq<Command>): string {
    if cs == [] then [] else enc(cs[0]) + EncodeAll(enc, cs[1..])
  }

  /** `catAppendOnlyGenericCommand`. */
  method Cat(dst: string, argv: Command) returns (r: string)
    ensures r == dst + Encode(argv)
  {
    r := dst + "*" + Dec(|argv|) + CRLF;
    var j := 0;
    while j < |argv|
      invariant 0 <= j <= |argv| && r + Arguments(Argument, argv[j..]) == dst + Encode(argv)
    {
      var o := argv[j];
      assert argv[j..][1..] == argv[j + 1..];
      ghost var was := r;
      r := r + ("$" + Dec(|o|) + CRLF);
      r := r + o;
      r := r + CRLF;
      assert r == was + Argument(o);
      j := j + 1;
    }
  }

  // ----- Reading ------------------------------------------------------------------------------

  const LINE_MAX: nat := 1023   // a buffer of 1024 bytes, less the terminator

  /** `fgets`: up to and including a newline, at most max characters. */
  function Line(s: string, max: nat): (r: string)
    ensures |r| <= |s| && (s != [] && max > 0 ==> r != [] && r[0] == s[0])
    decreases s
  {
    if s == [] || max == 0 then [] else if s[0] == '\n' then [s[0]] else [s[0]] + Line(s[1..], max - 1)
  }

  /** The number a line states after its first character. */
  function Number(line: string): int
    requires line != []
  {
    Strtol(line[1..])
  }

  datatype Arg = ShortArg | BadArg | Arg(a: string, rest: string)

  /** One argument. `ShortArg` is a read that met the end of the file; a negative length, for which no memory can be
      had, is as bad as a wrong header. */
  function ReadArg(s: string): Arg {
    if s == [] then ShortArg
    else
      var line := Line(s, LINE_MAX);
      var rest, len := s[|line|..], Number(line);
      if line[0] != '$' || len < 0 then BadArg
      else if |rest| < len + 2 then ShortArg
      else Arg(rest[..len], rest[len + 2..])
  }

  datatype Args = Short | Bad | Read(argv: Command, rest: string)

  /** The arguments of a command, read one by one. */
  function ReadArgs(one: string -> Arg, s: string, argc: nat, acc: Command): Args
    decreases argc
  {
    if argc == 0 then Read(acc, s)
    else match one(s)
      case ShortArg => Short
      case BadArg => Bad
      case Arg(a, rest) => ReadArgs(one, rest, argc - 1, acc + [a])
  }

  lemma {:induction false} ReadArgsShorter(s: string, argc: nat, acc: Command)
    ensures ReadArgs(ReadArg, s, argc, acc).Read? ==> |ReadArgs(ReadArg, s, argc, acc).rest| <= |s|
    decreases argc
  {
    if argc > 0 && ReadArg(s).Arg? { ReadArgsShorter(ReadArg(s).rest, argc - 1, acc + [ReadArg(s).a]); }
  }

  datatype Kind = Unknown | Multi | Exec | Other

  /** What the loader has done: commands run, commands queued by an open MULTI, and the two offsets. */
  datatype Client = Client(ran: seq<Command>, queue: seq<Command>, inMulti: bool, validUpTo: nat, beforeMulti: nat)

  datatype Outcome = Ok | Truncated(at: nat) | Failed

  datatype Loaded = Loaded(ran: seq<Command>, outcome: Outcome)

  /** One command: run, or queued inside a transaction. */
  function Apply(c: Client, cmd: Command, kind: Kind): Client {
    if c.inMulti then
      if kind.Exec? then c.(ran := c.ran + c.queue, queue := [], inMulti := false) else c.(queue := c.queue + [cmd])
    else if kind.Multi? then c.(inMulti := true)
    else c.(ran := c.ran + [cmd])
  }

  /** One command, with the offset before it remembered at MULTI and the offset after it when tolerant. */
  function Executed(c: Client, cmd: Command, kind: Kind, end: nat, tolerant: bool): Client {
    var c1 := if kind.Multi? then c.(beforeMulti := c.validUpTo) else c;
    var c2 := Apply(c1, cmd, kind);
    if tolerant then c2.(validUpTo := end) else c2
  }

  function CutOff(c: Client, at: nat, tolerant: bool): Loaded { Loaded(c.ran, if tolerant then Truncated(at) else Failed) }

  datatype Next = Annotation(rest: string) | CutShort | BadFormat | Next(argv: Command, rest: string)

  /** What stands at the beginning of s. */
  function ReadNext(s: string): (r: Next)
    ensures (r.Annotation? || r.Next?) ==> |r.rest| < |s|
  {
    if s == [] then CutShort else
    var line := Line(s, LINE_MAX);
    var rest := s[|line|..];
    if line[0] == '#' then Annotation(rest)
    else if line[0] != '*' then BadFormat
    else if |line| == 1 || line[1] == '\0' then if rest == [] && line[|line| - 1] != '\n' then CutShort else BadFormat
    else if Number(line) < 1 then BadFormat
    else
      ReadArgsShorter(rest, Number(line), []);
      ReadBody(rest, Number(line))
  }

  /** What follows the header of a command. */
  function ReadBody(s: string, argc: nat): Next {
    match ReadArgs(ReadArg, s, argc, [])
    case Short => CutShort
    case Bad => BadFormat
    case Read(argv, more) => Next(argv, more)
  }

  /** The loader's loop, s being what is left of the file from offset at on. Every read must consume something. */
  function Load(read: string -> Next, s: string, at: nat, c: Client, lookup: Command -> Kind, tolerant: bool): Loaded
    decreases |s|
  {
    if s == [] then
      if c.inMulti then CutOff(c, c.beforeMulti, tolerant) else Loaded(c.ran, Ok)
    else match read(s)
      case CutShort => CutOff(c, c.validUpTo, tolerant)
      case BadFormat => Loaded(c.ran, Failed)
      case Annotation(rest) =>
        if |rest| >= |s| then Loaded(c.ran, Failed) else Load(read, rest, at + |s| - |rest|, c, lookup, tolerant)
      case Next(argv, rest) =>
        if |rest| >= |s| || lookup(argv).Unknown? then Loaded(c.ran, Failed)
        else
          var end := at + |s| - |rest|;
          Load(read, rest, end, Executed(c, argv, lookup(argv), end, tolerant), lookup, tolerant)
  }

  /** `loadSingleAppendOnlyFile`, after the file is open. */
  function LoadFile(s: string, lookup: Command -> Kind, tolerant: bool): Loaded { Load(ReadNext, s, 0, Start(), lookup, tolerant) }

  function Start(): Client { Client([], [], false, 0, 0) }

  // ----- Lines ------------------------------------------------------------------------------------

  lemma {:induction false} LineWhole(h: string, rest: string, max: nat)
    requires |h| < max && '\n' !in h
    ensures Line(h + "\n" + rest, max) == h + "\n"
    decreases h
  {
    if h == [] {
      assert (h + "\n" + rest)[0] == '\n';
    } else {
      assert (h + "\n" + rest)[1..] == h[1..] + "\n" + rest;
      LineWhole(h[1..], rest, max - 1);
      assert [h[0]] + (h[1..] + "\n") == h + "\n";
    }
  }

  lemma {:induction false} LineRest(s: string, max: nat)
    requires |s| <= max && '\n' !in s
    ensures Line(s, max) == s
    decreases s
  {
    if s != [] { LineRest(s[1..], max - 1); }
  }

  function Pow10(k: nat): nat { if k == 0 then 1 else 10 * Pow10(k - 1) }

  lemma {:induction false} DecLength(n: nat, k: nat)
    requires k > 0 && n < Pow10(k)
    ensures |Dec(n)| <= k
    decreases k
  {
    if n >= 10 { DecLength(n / 10, k - 1); }
  }

  lemma {:induction false} DecFirst(n: nat)
    requires n > 0
    ensures Dec(n)[0] != '0'
  {
    if n >= 10 {
      DecFirst(n / 10);
      DecDigits(n / 10);
    }
  }

  lemma {:induction false} LeadingGrows(s: string, acc: nat)
    ensures Leading(s, acc) >= acc
    decreases s
  {
    if s != [] && IsDigit(s[0]) { LeadingGrows(s[1..], 10 * acc + (s[0] as int - '0' as int)); }
  }

  // ----- Headers, arguments, commands ----------------------------------------------------------------

  /** Counts and lengths have at most twenty digits. */
  predicate Storable(c: Command) { 0 < |c| < Pow10(20) && forall i :: 0 <= i < |c| ==> Sized(c[i]) }

  function Header(h: char, n: nat): string { [h] + Dec(n) + CRLF }

  lemma NoNewline(h: char, n: nat)
    requires h != '\n'
    ensures '\n' !in [h] + Dec(n) + "\r"
  {
    DecDigits(n);
  }

  lemma HeaderNumber(h: char, n: nat)
    ensures Number(Header(h, n)) == n
  {
    assert Header(h, n)[1..] == Dec(n) + CRLF;
    DecDigits(n);
    assert (Dec(n) + CRLF)[0] == Dec(n)[0] && Dec(n)[0] in Dec(n);
    StrtolDigits(Dec(n) + CRLF);
    ReadDec(n, CRLF);
  }

  /** What is left of a number cut off is not negative. */
  lemma HeaderCutNumber(h: char, n: nat, k: nat)
    requires 0 < k <= |Header(h, n)|
    ensures Number(Header(h, n)[..k]) >= 0
  {
    var t := Header(h, n)[..k][1..];
    assert t == (Dec(n) + CRLF)[..k - 1];
    if t != [] {
      DecDigits(n);
      assert t[0] == Dec(n)[0] && Dec(n)[0] in Dec(n);
      StrtolDigits(t);
    }
  }

  lemma HeaderDigit(h: char, n: nat)
    ensures |Header(h, n)| > 1 && IsDigit(Header(h, n)[1]) && Header(h, n)[0] == h
  {
    DecDigits(n);
    assert Header(h, n)[1] == Dec(n)[0] && Dec(n)[0] in Dec(n);
  }

  lemma HeaderWhole(h: char, n: nat, rest: string)
    requires h != '\n' && n < Pow10(20)
    ensures Line(Header(h, n) + rest, LINE_MAX) == Header(h, n) && Number(Header(h, n)) == n
  {
    var t := [h] + Dec(n) + "\r";
    HeaderNumber(h, n);
    NoNewline(h, n);
    DecLength(n, 20);
    LineWhole(t, rest, LINE_MAX);
    assert Header(h, n) == t + "\n" && Header(h, n) + rest == t + "\n" + rest;
  }

  /** A header cut off in the middle is one line, up to the end of the file. */
  lemma HeaderCut(h: char, n: nat, k: nat)
    requires h != '\n' && n < Pow10(20) && 0 < k < |Header(h, n)|
    ensures Line(Header(h, n)[..k], LINE_MAX) == Header(h, n)[..k] && Header(h, n)[0] == h
  {
    var t := [h] + Dec(n) + "\r";
    NoNewline(h, n);
    DecLength(n, 20);
    assert Header(h, n) == t + "\n" && Header(h, n)[..k] == t[..k];
    LineRest(t[..k], LINE_MAX);
  }

  lemma ArgumentIs(a: string, rest: string)
    ensures Argument(a) + rest == Header('$', |a|) + (a + CRLF + rest)
  {}

  lemma AfterPrefix(h: string, t: string)
    ensures (h + t)[|h|..] == t && (h + t)[..|h|] == h
  {}

  lemma AfterArgument(a: string, more: string)
    ensures var t := a + CRLF + more; t[..|a|] == a && t[|a| + 2..] == more
  {}

  lemma ReadOne(a: string, more: string)
    requires |a| < Pow10(20)
    ensures ReadArg(Argument(a) + more) == Arg(a, more)
  {
    ArgumentIs(a, more);
    HeaderWhole('$', |a|, a + CRLF + more);
    AfterPrefix(Header('$', |a|), a + CRLF + more);
    AfterArgument(a, more);
  }

  /** An argument cut off anywhere is a short read. */
  lemma ArgumentCut(a: string, k: nat)
    requires |a| < Pow10(20) && k < |Argument(a)|
    ensures ReadArg(Argument(a)[..k]) == ShortArg
  {
    var h := Header('$', |a|);
    ArgumentIs(a, []);
    assert Argument(a) + [] == Argument(a) && a + CRLF + [] == a + CRLF;
    PrefixOf(h, a + CRLF, k);
    if 0 < k < |h| {
      HeaderCut('$', |a|, k);
      HeaderCutNumber('$', |a|, k);
    } else if k >= |h| {
      var t := (a + CRLF)[..k - |h|];
      HeaderWhole('$', |a|, t);
      AfterPrefix(h, t);
    }
  }

  lemma PrefixOf(x: string, y: string, k: nat)
    requires k <= |x| + |y|
    ensures (x + y)[..k] == if k < |x| then x[..k] else x + y[..k - |x|]
  {}

  predicate Sized(a: string) { |a| < Pow10(20) }

  /** A reader of arguments written by arg. */
  ghost predicate ReadsArguments(one: string -> Arg, arg: string -> string) {
    && (forall a, rest: string :: Sized(a) ==> one(arg(a) + rest) == Arg(a, rest))
    && (forall a, k: nat :: Sized(a) && k < |arg(a)| ==> one(arg(a)[..k]) == ShortArg)
  }

  lemma ArgumentsRead()
    ensures ReadsArguments(ReadArg, Argument)
  {
    forall a, rest: string | Sized(a) ensures ReadArg(Argument(a) + rest) == Arg(a, rest) { ReadOne(a, rest); }
    forall a, k: nat | Sized(a) && k < |Argument(a)| ensures ReadArg(Argument(a)[..k]) == ShortArg { ArgumentCut(a, k); }
  }

  lemma {:induction false} ReadArgsWhole(one: string -> Arg, arg: string -> string, args: seq<string>, rest: string, acc: Command)
    requires ReadsArguments(one, arg) && forall i :: 0 <= i < |args| ==> Sized(args[i])
    ensures ReadArgs(one, Arguments(arg, args) + rest, |args|, acc) == Read(acc + args, rest)
    decreases args
  {
    if args == [] {
      assert Arguments(arg, args) + rest == rest && acc + args == acc;
    } else {
      assert Arguments(arg, args) + rest == arg(args[0]) + (Arguments(arg, args[1..]) + rest);
      ReadArgsWhole(one, arg, args[1..], rest, acc + [args[0]]);
      assert acc + [args[0]] + args[1..] == acc + args;
    }
  }

  lemma {:induction false} ReadArgsCut(one: string -> Arg, arg: string -> string, args: seq<string>, k: nat, acc: Command)
    requires ReadsArguments(one, arg) && k < |Arguments(arg, args)| && forall i :: 0 <= i < |args| ==> Sized(args[i])
    ensures ReadArgs(one, Arguments(arg, args)[..k], |args|, acc) == Short
    decreases args
  {
    var a, more := args[0], Arguments(arg, args[1..]);
    PrefixOf(arg(a), more, k);
    if k >= |arg(a)| { ReadArgsCut(one, arg, args[1..], k - |arg(a)|, acc + [a]); }
  }

  // ----- One command --------------------------------------------------------------------------------------

  lemma EncodeIs(c: Command, rest: string)
    ensures Encode(c) + rest == Header('*', |c|) + (Arguments(Argument, c) + rest)
  {}

  /** A whole command is read. */
  lemma ReadWhole(c: Command, rest: string)
    requires Storable(c)
    ensures ReadNext(Encode(c) + rest) == Next(c, rest)
  {
    EncodeIs(c, rest);
    HeaderReads(|c|, Arguments(Argument, c) + rest);
    ArgumentsRead();
    ReadArgsWhole(ReadArg, Argument, c, rest, []);
    assert [] + c == c;
  }

  lemma HeaderReads(n: nat, body: string)
    requires 0 < n < Pow10(20)
    ensures ReadNext(Header('*', n) + body) == ReadBody(body, n)
  {
    HeaderWhole('*', n, body);
    AfterPrefix(Header('*', n), body);
    HeaderDigit('*', n);
  }

  /** A command cut off anywhere is a short read. */
  lemma ReadCut(c: Command, k: nat)
    requires Storable(c) && 0 < k < |Encode(c)|
    ensures ReadNext(Encode(c)[..k]) == CutShort
  {
    var h := Header('*', |c|);
    EncodeIs(c, []);
    assert Encode(c) + [] == Encode(c) && Arguments(Argument, c) + [] == Arguments(Argument, c);
    PrefixOf(h, Arguments(Argument, c), k);
    if k < |h| { ReadCutCount(|c|, k); } else { ReadCutArgs(c, k - |h|); }
  }

  lemma ReadCutCount(n: nat, k: nat)
    requires 0 < n < Pow10(20) && 0 < k < |Header('*', n)|
    ensures ReadNext(Header('*', n)[..k]) == CutShort
  {
    HeaderCut('*', n, k);
    HeaderDigit('*', n);
    NoNewline('*', n);
    var t := Header('*', n)[..k];
    assert t[k - 1] == ("*" + Dec(n) + "\r")[k - 1];
    if k > 1 {
      assert t[1] == Header('*', n)[1];
      CutCount(n, k);
    }
  }

  lemma ReadCutArgs(c: Command, k: nat)
    requires Storable(c) && k < |Arguments(Argument, c)|
    ensures ReadNext(Header('*', |c|) + Arguments(Argument, c)[..k]) == CutShort
  {
    HeaderReads(|c|, Arguments(Argument, c)[..k]);
    ArgumentsRead();
    ReadArgsCut(ReadArg, Argument, c, k, []);
  }

  lemma PositiveLead(t: string)
    requires t != [] && IsDigit(t[0]) && t[0] != '0'
    ensures Leading(t, 0) >= 1
  {
    LeadingGrows(t[1..], t[0] as int - '0' as int);
  }

  /** The leading digits of a positive count are a positive count. */
  lemma CutCount(n: nat, k: nat)
    requires n > 0 && 1 < k < |Header('*', n)|
    ensures Number(Header('*', n)[..k]) >= 1
  {
    DecDigits(n);
    DecFirst(n);
    var t := Header('*', n)[..k][1..];
    assert t == (Dec(n) + CRLF)[..k - 1] && t[0] == Dec(n)[0];
    assert Dec(n)[0] in Dec(n);
    StrtolDigits(t);
    PositiveLead(t);
  }

  /** A reader that reads whole commands and notices cut ones. */
  ghost predicate ReadsCommands(read: string -> Next, enc: Command -> string) {
    && (forall c :: Storable(c) ==> |enc(c)| > 0)
    && (forall c: Command, rest: string :: Storable(c) ==> read(enc(c) + rest) == Next(c, rest))
    && (forall c: Command, k: nat :: Storable(c) && 0 < k < |enc(c)| ==> read(enc(c)[..k]) == CutShort)
  }

  lemma LoaderReads()
    ensures ReadsCommands(ReadNext, Encode)
  {
    forall c: Command, rest: string | Storable(c) ensures ReadNext(Encode(c) + rest) == Next(c, rest) { ReadWhole(c, rest); }
    forall c: Command, k: nat | Storable(c) && 0 < k < |Encode(c)| ensures ReadNext(Encode(c)[..k]) == CutShort { ReadCut(c, k); }
  }

  // ----- The log cut off at any byte -----------------------------------------------------------------------

  /** The commands wholly inside the first n bytes of a log. */
  function Whole(enc: Command -> string, cs: seq<Command>, n: nat): (k: nat)
    ensures k <= |cs|
    decreases cs
  {
    if cs == [] || n < |enc(cs[0])| then 0 else 1 + Whole(enc, cs[1..], n - |enc(cs[0])|)
  }

  /** The client after the commands cs, the first of them at offset at. */
  function After(enc: Command -> string, c: Client, cs: seq<Command>, at: nat, lookup: Command -> Kind, tolerant: bool): Client
    decreases cs
  {
    if cs == [] then c
    else
      var end := at + |enc(cs[0])|;
      After(enc, Executed(c, cs[0], lookup(cs[0]), end, tolerant), cs[1..], end, lookup, tolerant)
  }

  ghost predicate Known(cs: seq<Command>, lookup: Command -> Kind) {
    forall i :: 0 <= i < |cs| ==> Storable(cs[i]) && !lookup(cs[i]).Unknown?
  }

  /** What loading gives once the whole commands are done: cut inside a command, inside a transaction, or fine. */
  function Ended(c: Client, cut: bool, tolerant: bool): Loaded {
    if cut then CutOff(c, c.validUpTo, tolerant)
    else if c.inMulti then CutOff(c, c.beforeMulti, tolerant)
    else Loaded(c.ran, Ok)
  }

  /** What loading the first n bytes of a log gives. */
  function PrefixLoads(enc: Command -> string, cs: seq<Command>, n: nat, at: nat, c: Client, lookup: Command -> Kind, tolerant: bool): Loaded {
    var k := Whole(enc, cs, n);
    Ended(After(enc, c, cs[..k], at, lookup, tolerant), n != |EncodeAll(enc, cs[..k])|, tolerant)
  }

  lemma LoadStep(read: string -> Next, s: string, argv: Command, rest: string, at: nat, c: Client, lookup: Command -> Kind, tolerant: bool)
    requires s != [] && read(s) == Next(argv, rest) && |rest| < |s| && !lookup(argv).Unknown?
    ensures var end := at + |s| - |rest|;
      Load(read, s, at, c, lookup, tolerant) == Load(read, rest, end, Executed(c, argv, lookup(argv), end, tolerant), lookup, tolerant)
  {}

  lemma NothingWhole(enc: Command -> string, cs: seq<Command>, n: nat, at: nat, c: Client, lookup: Command -> Kind, tolerant: bool)
    requires cs == [] || n < |enc(cs[0])|
    ensures PrefixLoads(enc, cs, n, at, c, lookup, tolerant) == Ended(c, n != 0, tolerant)
  {
    assert cs[..0] == [] && EncodeAll(enc, cs[..0]) == [];
  }

  lemma PrefixStep(enc: Command -> string, cs: seq<Command>, n: nat, at: nat, c: Client, lookup: Command -> Kind, tolerant: bool)
    requires cs != [] && n >= |enc(cs[0])|
    ensures var e := |enc(cs[0])|;
      PrefixLoads(enc, cs, n, at, c, lookup, tolerant) ==
      PrefixLoads(enc, cs[1..], n - e, at + e, Executed(c, cs[0], lookup(cs[0]), at + e, tolerant), lookup, tolerant)
  {
    var k := Whole(enc, cs[1..], n - |enc(cs[0])|);
    assert cs[..k + 1][0] == cs[0] && cs[..k + 1][1..] == cs[1..][..k];
  }

  lemma Cuts(enc: Command -> string, cs: seq<Command>, n: nat)
    requires cs != [] && n <= |EncodeAll(enc, cs)|
    ensures var e := enc(cs[0]);
      EncodeAll(enc, cs)[..n] == if n < |e| then e[..n] else e + EncodeAll(enc, cs[1..])[..n - |e|]
  {}

  /** Loading any byte prefix of a log executes exactly the commands wholly inside it. */
  lemma {:induction false} LoadPrefix(read: string -> Next, enc: Command -> string, cs: seq<Command>, n: nat, at: nat, c: Client,
                                      lookup: Command -> Kind, tolerant: bool)
    requires ReadsCommands(read, enc) && Known(cs, lookup) && n <= |EncodeAll(enc, cs)|
    ensures Load(read, EncodeAll(enc, cs)[..n], at, c, lookup, tolerant) == PrefixLoads(enc, cs, n, at, c, lookup, tolerant)
    decreases cs
  {
    if cs == [] || n == 0 {
      NothingWhole(enc, cs, n, at, c, lookup, tolerant);
    } else {
      var e := enc(cs[0]);
      Cuts(enc, cs, n);
      if n < |e| {
        NothingWhole(enc, cs, n, at, c, lookup, tolerant);
        assert read(e[..n]) == CutShort;
      } else {
        var rest := EncodeAll(enc, cs[1..])[..n - |e|];
        PrefixStep(enc, cs, n, at, c, lookup, tolerant);
        LoadStep(read, e + rest, cs[0], rest, at, c, lookup, tolerant);
        LoadPrefix(read, enc, cs[1..], n - |e|, at + |e|, Executed(c, cs[0], lookup(cs[0]), at + |e|, tolerant), lookup, tolerant);
      }
    }
  }

  // ----- Headers that are refused ------------------------------------------------------------------------

  lemma SignedLine(h: char, n: nat, rest: string)
    requires h != '\n' && n < Pow10(20)
    ensures var line := [h] + "-" + Dec(n) + CRLF; Line(line + rest, LINE_MAX) == line && Number(line) == 0 - n
  {
    var t := [h] + "-" + Dec(n) + "\r";
    DecDigits(n);
    DecLength(n, 20);
    LineWhole(t, rest, LINE_MAX);
    var line := [h] + "-" + Dec(n) + CRLF;
    assert line == t + "\n" && line[1..] == "-" + (Dec(n) + CRLF);
    SignedRead(n, CRLF);
  }

  /** A negative length of an argument, and a count of commands that is zero or negative, are not read. */
  lemma NegativeRefused(n: nat, rest: string)
    requires n < Pow10(20)
    ensures n > 0 ==> ReadArg("$" + "-" + Dec(n) + CRLF + rest) == BadArg
    ensures ReadNext("*" + "-" + Dec(n) + CRLF + rest) == BadFormat && ReadNext("*0" + CRLF + rest) == BadFormat
  {
    SignedLine('$', n, rest);
    SignedLine('*', n, rest);
    HeaderWhole('*', 0, rest);
    assert Header('*', 0) == "*0" + CRLF;
  }
}
