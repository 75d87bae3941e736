/**
  Loading an append-only log (aof.c, the command loop of `loadSingleAppendOnlyFile`): what is
  executed when the log is whole, cut off at any byte, or ends inside a transaction.
*/
module AofLoad {
  import opened Collections
  import opened AofCodec

  function Text(cs: seq<Command>): string { EncodeAll(Encode, cs) }

  function ClientAfter(cs: seq<Command>, lookup: Command -> Kind, tolerant: bool): Client {
    After(Encode, Start(), cs, 0, lookup, tolerant)
  }

  /** The first n bytes of a log. */
  lemma LoadsPrefix(cs: seq<Command>, n: nat, lookup: Command -> Kind, tolerant: bool)
    requires Known(cs, lookup) && n <= |Text(cs)|
    ensures var k := Whole(Encode, cs, n);
      LoadFile(Text(cs)[..n], lookup, tolerant) == Ended(ClientAfter(cs[..k], lookup, tolerant), n != |Text(cs[..k])|, tolerant)
  {
    LoaderReads();
    LoadPrefix(ReadNext, Encode, cs, n, 0, Start(), lookup, tolerant);
  }

  // ----- Facts about the client after some commands --------------------------------------------------

  /** A tolerant loader's valid offset is the end of the last command. */
  lemma {:induction false} AfterValid(enc: Command -> string, c: Client, cs: seq<Command>, at: nat, lookup: Command -> Kind)
    requires c.validUpTo == at
    ensures After(enc, c, cs, at, lookup, true).validUpTo == at + |EncodeAll(enc, cs)|
    decreases cs
  {
    if cs != [] {
      var end := at + |enc(cs[0])|;
      AfterValid(enc, Executed(c, cs[0], lookup(cs[0]), end, true), cs[1..], end, lookup);
    }
  }

  lemma {:induction false} AfterConcat(enc: Command -> string, c: Client, xs: seq<Command>, ys: seq<Command>, at: nat, lookup: Command -> Kind, tolerant: bool)
    ensures After(enc, c, xs + ys, at, lookup, tolerant) ==
            After(enc, After(enc, c, xs, at, lookup, tolerant), ys, at + |EncodeAll(enc, xs)|, lookup, tolerant)
    ensures EncodeAll(enc, xs + ys) == EncodeAll(enc, xs) + EncodeAll(enc, ys)
    decreases xs
  {
    EncodeConcat(enc, xs, ys);
    if xs == [] {
      assert xs + ys == ys;
    } else {
      var end := at + |enc(xs[0])|;
      var c1 := Executed(c, xs[0], lookup(xs[0]), end, tolerant);
      AfterStep(enc, c, xs, at, lookup, tolerant, end, c1);
      assert (xs + ys)[0] == xs[0] && (xs + ys)[1..] == xs[1..] + ys;
      AfterStep(enc, c, xs + ys, at, lookup, tolerant, end, c1);
      AfterConcat(enc, c1, xs[1..], ys, end, lookup, tolerant);
    }
  }

  lemma AfterStep(enc: Command -> string, c: Client, cs: seq<Command>, at: nat, lookup: Command -> Kind, tolerant: bool, end: nat, c1: Client)
    requires cs != [] && end == at + |enc(cs[0])| && c1 == Executed(c, cs[0], lookup(cs[0]), end, tolerant)
    ensures After(enc, c, cs, at, lookup, tolerant) == After(enc, c1, cs[1..], end, lookup, tolerant)
    ensures at + |EncodeAll(enc, cs)| == end + |EncodeAll(enc, cs[1..])|
  {}

  ghost predicate Plain(cs: seq<Command>, lookup: Command -> Kind) { forall i :: 0 <= i < |cs| ==> lookup(cs[i]).Other? }

  /** Outside a transaction commands run as they come. */
  lemma {:induction false} AfterPlain(enc: Command -> string, c: Client, cs: seq<Command>, at: nat, lookup: Command -> Kind, tolerant: bool)
    requires Plain(cs, lookup) && !c.inMulti
    ensures var c' := After(enc, c, cs, at, lookup, tolerant); c'.ran == c.ran + cs && !c'.inMulti
    decreases cs
  {
    if cs == [] {
      assert c.ran + cs == c.ran;
    } else {
      var end := at + |enc(cs[0])|;
      AfterPlain(enc, Executed(c, cs[0], lookup(cs[0]), end, tolerant), cs[1..], end, lookup, tolerant);
      assert c.ran + [cs[0]] + cs[1..] == c.ran + cs;
    }
  }

  ghost predicate NoExec(cs: seq<Command>, lookup: Command -> Kind) { forall i :: 0 <= i < |cs| ==> !lookup(cs[i]).Exec? }

  /** The offset before the last MULTI of cs, the first of cs being at offset at; b if there is none. */
  function BeforeLastMulti(enc: Command -> string, cs: seq<Command>, at: nat, b: nat, lookup: Command -> Kind): nat
    decreases cs
  {
    if cs == [] then b
    else BeforeLastMulti(enc, cs[1..], at + |enc(cs[0])|, if lookup(cs[0]).Multi? then at else b, lookup)
  }

  /** Inside a transaction everything but EXEC waits, and every MULTI moves the offset remembered. */
  lemma {:induction false} AfterQueued(enc: Command -> string, c: Client, cs: seq<Command>, at: nat, lookup: Command -> Kind)
    requires NoExec(cs, lookup) && c.inMulti && c.validUpTo == at
    ensures var c' := After(enc, c, cs, at, lookup, true);
      && c'.ran == c.ran && c'.queue == c.queue + cs && c'.inMulti && c'.validUpTo == at + |EncodeAll(enc, cs)|
      && c'.beforeMulti == BeforeLastMulti(enc, cs, at, c.beforeMulti, lookup)
    decreases cs
  {
    if cs == [] {
      assert c.queue + cs == c.queue;
    } else {
      var end := at + |enc(cs[0])|;
      AfterQueued(enc, Executed(c, cs[0], lookup(cs[0]), end, true), cs[1..], end, lookup);
      assert c.queue + [cs[0]] + cs[1..] == c.queue + cs;
    }
  }

  lemma {:induction false} WholeExact(enc: Command -> string, cs: seq<Command>, k: nat)
    requires k <= |cs| && forall i :: 0 <= i < |cs| ==> |enc(cs[i])| > 0
    ensures |EncodeAll(enc, cs[..k])| <= |EncodeAll(enc, cs)| && EncodeAll(enc, cs)[..|EncodeAll(enc, cs[..k])|] == EncodeAll(enc, cs[..k])
    ensures Whole(enc, cs, |EncodeAll(enc, cs[..k])|) == k
    decreases cs
  {
    if k == 0 {
      assert cs[..0] == [];
    } else {
      assert cs[..k][0] == cs[0] && cs[..k][1..] == cs[1..][..k - 1];
      WholeExact(enc, cs[1..], k - 1);
    }
  }

  /** The same, the end of the last whole command being where a tolerant loader truncates. */
  lemma LoadsWhole(cs: seq<Command>, n: nat, lookup: Command -> Kind) returns (k: nat, end: nat, c: Client)
    requires Known(cs, lookup) && n <= |Text(cs)|
    ensures k == Whole(Encode, cs, n) && end == |Text(cs[..k])| && c == ClientAfter(cs[..k], lookup, true)
    ensures LoadFile(Text(cs)[..n], lookup, true) ==
            if n != end then Loaded(c.ran, Truncated(end)) else if c.inMulti then Loaded(c.ran, Truncated(c.beforeMulti)) else Loaded(c.ran, Ok)
  {
    k := Whole(Encode, cs, n);
    end, c := |Text(cs[..k])|, ClientAfter(cs[..k], lookup, true);
    LoadsPrefix(cs, n, lookup, true);
    ValidIs(cs[..k], lookup);
  }

  lemma ValidIs(cs: seq<Command>, lookup: Command -> Kind)
    ensures ClientAfter(cs, lookup, true).validUpTo == |Text(cs)|
  {
    AfterValid(Encode, Start(), cs, 0, lookup);
  }

  // ----- The log codec -----------------------------------------------------------------------------------

  /** Without transactions: a log cut off at any byte executes the commands wholly inside, and is truncated at
      the end of the last one; a whole log executes everything. */
  lemma PlainLog(cs: seq<Command>, n: nat, lookup: Command -> Kind)
    requires Known(cs, lookup) && Plain(cs, lookup) && n <= |Text(cs)|
    ensures var k := Whole(Encode, cs, n);
      LoadFile(Text(cs)[..n], lookup, true) == Loaded(cs[..k], if n == |Text(cs[..k])| then Ok else Truncated(|Text(cs[..k])|))
  {
    var k, end, c := LoadsWhole(cs, n, lookup);
    PlainRuns(cs[..k], lookup, true);
  }

  lemma PlainRoundTrip(cs: seq<Command>, lookup: Command -> Kind, tolerant: bool)
    requires Known(cs, lookup) && Plain(cs, lookup)
    ensures LoadFile(Text(cs), lookup, tolerant) == Loaded(cs, Ok)
  {
    WholeExact(Encode, cs, |cs|);
    assert cs[..|cs|] == cs && Text(cs)[..|Text(cs)|] == Text(cs);
    LoadsPrefix(cs, |Text(cs)|, lookup, tolerant);
    PlainRuns(cs, lookup, tolerant);
  }

  lemma PlainRuns(cs: seq<Command>, lookup: Command -> Kind, tolerant: bool)
    requires Plain(cs, lookup)
    ensures ClientAfter(cs, lookup, tolerant).ran == cs && !ClientAfter(cs, lookup, tolerant).inMulti
  {
    AfterPlain(Encode, Start(), cs, 0, lookup, tolerant);
    assert [] + cs == cs;
  }

  // ----- Transactions ---------------------------------------------------------------------------------------

  /** An open transaction: what ran before its MULTI, and everything since in the queue. */
  ghost predicate Opened(done: seq<Command>, multi: Command, body: seq<Command>, lookup: Command -> Kind) {
    && Known(done + [multi] + body, lookup) && lookup(multi).Multi? && NoExec(body, lookup)
    && !ClientAfter(done, lookup, true).inMulti
  }

  /** The commands executed before the transaction. */
  function RanBefore(done: seq<Command>, lookup: Command -> Kind): seq<Command> { ClientAfter(done, lookup, true).ran }

  /** Where a tolerant loader cuts a log that ends inside a transaction: before its last MULTI. */
  function CutAt(done: seq<Command>, body: seq<Command>, multi: Command, lookup: Command -> Kind): nat {
    BeforeLastMulti(Encode, body, |Text(done + [multi])|, |Text(done)|, lookup)
  }

  lemma AfterLone(enc: Command -> string, c: Client, multi: Command, at: nat, lookup: Command -> Kind)
    requires lookup(multi).Multi? && !c.inMulti && c.validUpTo == at && c.queue == []
    ensures var c' := After(enc, c, [multi], at, lookup, true);
      c'.inMulti && c'.ran == c.ran && c'.queue == [] && c'.beforeMulti == at && c'.validUpTo == at + |enc(multi)|
  {
    assert [multi][1..] == [];
  }

  /** Outside a transaction nothing is queued. */
  lemma {:induction false} QueueEmpty(enc: Command -> string, c: Client, cs: seq<Command>, at: nat, lookup: Command -> Kind, tolerant: bool)
    requires !c.inMulti ==> c.queue == []
    ensures var c' := After(enc, c, cs, at, lookup, tolerant); !c'.inMulti ==> c'.queue == []
    decreases cs
  {
    if cs != [] {
      var end := at + |enc(cs[0])|;
      QueueEmpty(enc, Executed(c, cs[0], lookup(cs[0]), end, tolerant), cs[1..], end, lookup, tolerant);
    }
  }

  lemma MultiOpens(done: seq<Command>, multi: Command, body: seq<Command>, lookup: Command -> Kind)
    requires Opened(done, multi, body, lookup)
    ensures var c := ClientAfter(done + [multi] + body, lookup, true);
      && c.inMulti && c.ran == RanBefore(done, lookup) && c.queue == body
      && c.beforeMulti == CutAt(done, body, multi, lookup) && c.validUpTo == |Text(done + [multi] + body)|
  {
    var c0 := ClientAfter(done, lookup, true);
    ValidIs(done, lookup);
    QueueEmpty(Encode, Start(), done, 0, lookup, true);
    OpensFrom(Encode, Start(), done, multi, body, lookup, c0);
  }

  lemma OpensFrom(enc: Command -> string, c: Client, done: seq<Command>, multi: Command, body: seq<Command>, lookup: Command -> Kind, c0: Client)
    requires lookup(multi).Multi? && NoExec(body, lookup)
    requires c0 == After(enc, c, done, 0, lookup, true) && !c0.inMulti && c0.queue == [] && c0.validUpTo == |EncodeAll(enc, done)|
    ensures var c' := After(enc, c, done + [multi] + body, 0, lookup, true);
      && c'.inMulti && c'.ran == c0.ran && c'.queue == body && c'.validUpTo == |EncodeAll(enc, done + [multi] + body)|
      && c'.beforeMulti == BeforeLastMulti(enc, body, |EncodeAll(enc, done + [multi])|, |EncodeAll(enc, done)|, lookup)
  {
    var at := |EncodeAll(enc, done)|;
    AfterConcat(enc, c, done, [multi], 0, lookup, true);
    AfterConcat(enc, c, done + [multi], body, 0, lookup, true);
    AfterLone(enc, c0, multi, at, lookup);
    LoneText(enc, multi);
    AfterQueued(enc, After(enc, c, done + [multi], 0, lookup, true), body, |EncodeAll(enc, done + [multi])|, lookup);
    assert [] + body == body;
  }

  lemma LoneText(enc: Command -> string, cmd: Command)
    ensures EncodeAll(enc, [cmd]) == enc(cmd)
  {
    assert [cmd][1..] == [] && enc(cmd) + [] == enc(cmd);
  }

  lemma LoadsAll(cs: seq<Command>, lookup: Command -> Kind)
    requires Known(cs, lookup)
    ensures LoadFile(Text(cs), lookup, true) == Ended(ClientAfter(cs, lookup, true), false, true)
  {
    WholeExact(Encode, cs, |cs|);
    assert cs[..|cs|] == cs && Text(cs)[..|Text(cs)|] == Text(cs);
    LoadsPrefix(cs, |Text(cs)|, lookup, true);
  }

  /** A log that ends at a command boundary inside a transaction is truncated to before its last MULTI, and none
      of its commands has run. */
  lemma OpenTransaction(done: seq<Command>, multi: Command, body: seq<Command>, lookup: Command -> Kind)
    requires Opened(done, multi, body, lookup)
    ensures LoadFile(Text(done + [multi] + body), lookup, true) == Loaded(RanBefore(done, lookup), Truncated(CutAt(done, body, multi, lookup)))
  {
    LoadsAll(done + [multi] + body, lookup);
    MultiOpens(done, multi, body, lookup);
  }

  // ----- What any log gives --------------------------------------------------------------------------------------

  /** Some MULTI has no EXEC after it. */
  ghost predicate LeftOpen(cs: seq<Command>, lookup: Command -> Kind) { exists i: nat :: OpensAt(cs, i, lookup) }

  ghost predicate OpensAt(cs: seq<Command>, i: nat, lookup: Command -> Kind) {
    i < |cs| && lookup(cs[i]).Multi? && forall j :: i < j < |cs| ==> !lookup(cs[j]).Exec?
  }

  lemma OpensLater(cs: seq<Command>, i: nat, lookup: Command -> Kind)
    requires cs != []
    ensures OpensAt(cs, i + 1, lookup) <==> OpensAt(cs[1..], i, lookup)
  {
    forall j | 0 < j < |cs| ensures cs[j] == cs[1..][j - 1] {}
    if OpensAt(cs[1..], i, lookup) {
      forall j | i + 1 < j < |cs| ensures !lookup(cs[j]).Exec? { assert cs[j] == cs[1..][j - 1]; }
    }
  }

  lemma NoExecFirst(cs: seq<Command>, lookup: Command -> Kind)
    requires cs != []
    ensures NoExec(cs, lookup) <==> !lookup(cs[0]).Exec? && NoExec(cs[1..], lookup)
    ensures OpensAt(cs, 0, lookup) <==> lookup(cs[0]).Multi? && NoExec(cs[1..], lookup)
  {
    forall j | 0 < j < |cs| ensures cs[j] == cs[1..][j - 1] {}
  }

  lemma LeftOpenFirst(cs: seq<Command>, lookup: Command -> Kind)
    requires cs != []
    ensures LeftOpen(cs, lookup) <==> LeftOpen(cs[1..], lookup) || (lookup(cs[0]).Multi? && NoExec(cs[1..], lookup))
  {
    NoExecFirst(cs, lookup);
    if i: nat :| OpensAt(cs, i, lookup) {
      if i > 0 { OpensLater(cs, i - 1, lookup); }
    }
    if i: nat :| OpensAt(cs[1..], i, lookup) { OpensLater(cs, i, lookup); }
  }

  lemma {:induction false} AfterOpen(enc: Command -> string, c: Client, cs: seq<Command>, at: nat, lookup: Command -> Kind, tolerant: bool)
    ensures After(enc, c, cs, at, lookup, tolerant).inMulti <==> LeftOpen(cs, lookup) || (c.inMulti && NoExec(cs, lookup))
    decreases cs
  {
    if cs != [] {
      var end := at + |enc(cs[0])|;
      LeftOpenFirst(cs, lookup);
      NoExecFirst(cs, lookup);
      AfterOpen(enc, Executed(c, cs[0], lookup(cs[0]), end, tolerant), cs[1..], end, lookup, tolerant);
    }
  }

  /** The place of the first EXEC, or the number of commands. */
  function NextExec(cs: seq<Command>, lookup: Command -> Kind): (k: nat)
    ensures k <= |cs|
  {
    if cs == [] || lookup(cs[0]).Exec? then 0 else 1 + NextExec(cs[1..], lookup)
  }

  /** What of a log runs: the commands outside transactions, and those between a MULTI and the next EXEC. */
  function Effective(cs: seq<Command>, lookup: Command -> Kind): seq<Command>
    decreases |cs|
  {
    if cs == [] then []
    else if !lookup(cs[0]).Multi? then [cs[0]] + Effective(cs[1..], lookup)
    else Released([], cs[1..], lookup)
  }

  /** ... when the queue is waiting for an EXEC. */
  function Released(queue: seq<Command>, cs: seq<Command>, lookup: Command -> Kind): seq<Command>
    decreases |cs|
  {
    var k := NextExec(cs, lookup);
    if k == |cs| then [] else queue + cs[..k] + Effective(cs[k + 1..], lookup)
  }

  lemma ReleasedStep(queue: seq<Command>, cs: seq<Command>, lookup: Command -> Kind)
    requires cs != []
    ensures Released(queue, cs, lookup) ==
      if lookup(cs[0]).Exec? then queue + Effective(cs[1..], lookup) else Released(queue + [cs[0]], cs[1..], lookup)
  {
    var k := NextExec(cs, lookup);
    if lookup(cs[0]).Exec? {
      assert cs[..0] == [] && queue + [] == queue;
    } else if k < |cs| {
      assert cs[..k] == [cs[0]] + cs[1..][..k - 1] && cs[k + 1..] == cs[1..][k..];
      assert queue + cs[..k] == queue + [cs[0]] + cs[1..][..k - 1];
    }
  }

  lemma {:induction false} AfterRan(enc: Command -> string, c: Client, cs: seq<Command>, at: nat, lookup: Command -> Kind, tolerant: bool)
    requires !c.inMulti ==> c.queue == []
    ensures After(enc, c, cs, at, lookup, tolerant).ran ==
            c.ran + if c.inMulti then Released(c.queue, cs, lookup) else Effective(cs, lookup)
    decreases cs
  {
    if cs == [] {
      assert c.ran + [] == c.ran;
    } else {
      var end := at + |enc(cs[0])|;
      var c1 := Executed(c, cs[0], lookup(cs[0]), end, tolerant);
      ReleasedStep(c.queue, cs, lookup);
      AfterRan(enc, c1, cs[1..], end, lookup, tolerant);
      Assoc(c.ran, c.queue, Effective(cs[1..], lookup));
      Assoc(c.ran, [cs[0]], Effective(cs[1..], lookup));
    }
  }

  lemma {:induction false} WholeIs(enc: Command -> string, cs: seq<Command>, n: nat, k: nat)
    requires k <= |cs| && |EncodeAll(enc, cs[..k])| <= n && (k < |cs| ==> n < |EncodeAll(enc, cs[..k + 1])|)
    ensures Whole(enc, cs, n) == k
    decreases cs
  {
    if k == 0 {
      if cs != [] {
        assert cs[..1] == [cs[0]];
        LoneText(enc, cs[0]);
      }
    } else {
      assert cs[..k][0] == cs[0] && cs[..k][1..] == cs[1..][..k - 1];
      if k < |cs| { assert cs[..k + 1][0] == cs[0] && cs[..k + 1][1..] == cs[1..][..k]; }
      WholeIs(enc, cs[1..], n - |enc(cs[0])|, k - 1);
    }
  }

  /**
    The first n bytes of a log, k of its commands being wholly among them. What runs are the effective ones of these.
    A loader that tolerates no truncation fails exactly if the bytes end inside a command or inside a transaction; one
    that does truncates in the same cases, in the first of them after the last whole command.
  */
  lemma AnyPrefix(cs: seq<Command>, n: nat, k: nat, lookup: Command -> Kind)
    requires Known(cs, lookup) && n <= |Text(cs)| && k <= |cs|
    requires |Text(cs[..k])| <= n && (k < |cs| ==> n < |Text(cs[..k + 1])|)
    ensures var strict, lenient := LoadFile(Text(cs)[..n], lookup, false), LoadFile(Text(cs)[..n], lookup, true);
      && strict.ran == lenient.ran == Effective(cs[..k], lookup)
      && strict.outcome == (if n > |Text(cs[..k])| || LeftOpen(cs[..k], lookup) then Failed else Ok)
      && (lenient.outcome == Ok <==> strict.outcome == Ok) && lenient.outcome != Failed
      && (n > |Text(cs[..k])| ==> lenient.outcome == Truncated(|Text(cs[..k])|))
  {
    WholeIs(Encode, cs, n, k);
    var k', end, c := LoadsWhole(cs, n, lookup);
    LoadsPrefix(cs, n, lookup, false);
    AfterRan(Encode, Start(), cs[..k], 0, lookup, true);
    AfterRan(Encode, Start(), cs[..k], 0, lookup, false);
    AfterOpen(Encode, Start(), cs[..k], 0, lookup, true);
    AfterOpen(Encode, Start(), cs[..k], 0, lookup, false);
    assert [] + Effective(cs[..k], lookup) == Effective(cs[..k], lookup);
  }

  // ----- Something else after the commands ------------------------------------------------------------------------

  /** Loading goes through whole commands to whatever follows them. */
  lemma {:induction false} LoadThrough(read: string -> Next, enc: Command -> string, cs: seq<Command>, rest: string, at: nat, c: Client,
                                       lookup: Command -> Kind, tolerant: bool)
    requires ReadsCommands(read, enc) && Known(cs, lookup)
    ensures Load(read, EncodeAll(enc, cs) + rest, at, c, lookup, tolerant) ==
            Load(read, rest, at + |EncodeAll(enc, cs)|, After(enc, c, cs, at, lookup, tolerant), lookup, tolerant)
    decreases cs
  {
    if cs == [] {
      assert EncodeAll(enc, cs) + rest == rest;
    } else {
      var e, more := enc(cs[0]), EncodeAll(enc, cs[1..]) + rest;
      assert EncodeAll(enc, cs) + rest == e + more;
      LoadStep(read, e + more, cs[0], more, at, c, lookup, tolerant);
      LoadThrough(read, enc, cs[1..], rest, at + |e|, Executed(c, cs[0], lookup(cs[0]), at + |e|, tolerant), lookup, tolerant);
    }
  }

  /** What follows the last whole command and is neither a command nor an annotation is refused, tolerant or not. */
  lemma OtherRefused(cs: seq<Command>, other: string, lookup: Command -> Kind, tolerant: bool)
    requires Known(cs, lookup) && other != [] && other[0] != '*' && other[0] != '#'
    ensures LoadFile(Text(cs) + other, lookup, tolerant) == Loaded(ClientAfter(cs, lookup, tolerant).ran, Failed)
  {
    LoaderReads();
    OtherIsBad(other);
    RefusedAfter(ReadNext, Encode, cs, other, lookup, tolerant);
  }

  lemma OtherIsBad(other: string)
    requires other != [] && other[0] != '*' && other[0] != '#'
    ensures ReadNext(other) == BadFormat
  {}

  lemma RefusedAfter(read: string -> Next, enc: Command -> string, cs: seq<Command>, other: string, lookup: Command -> Kind, tolerant: bool)
    requires ReadsCommands(read, enc) && Known(cs, lookup) && other != [] && read(other) == BadFormat
    ensures Load(read, EncodeAll(enc, cs) + other, 0, Start(), lookup, tolerant) ==
            Loaded(After(enc, Start(), cs, 0, lookup, tolerant).ran, Failed)
  {
    LoadThrough(read, enc, cs, other, 0, Start(), lookup, tolerant);
  }

  lemma AnnotationRead(note: string, rest: string)
    requires '\n' !in note && |note| <= 1021
    ensures ReadNext("#" + note + "\n" + rest) == Annotation(rest)
  {
    var line := "#" + note;
    LineWhole(line, rest, LINE_MAX);
    assert (line + "\n" + rest)[|line + "\n"|..] == rest;
  }

  lemma AnnotationStep(read: string -> Next, s: string, rest: string, at: nat, c: Client, lookup: Command -> Kind, tolerant: bool)
    requires s != [] && read(s) == Annotation(rest) && |rest| < |s|
    ensures Load(read, s, at, c, lookup, tolerant) == Load(read, rest, at + |s| - |rest|, c, lookup, tolerant)
  {}

  lemma LoadEnd(read: string -> Next, at: nat, c: Client, lookup: Command -> Kind, tolerant: bool)
    ensures var l := Load(read, [], at, c, lookup, tolerant); l.ran == c.ran && (l.outcome == Ok <==> !c.inMulti)
  {}

  /** The rest of a log, from any client on. */
  lemma LoadRest(read: string -> Next, enc: Command -> string, ds: seq<Command>, at: nat, c: Client, lookup: Command -> Kind, tolerant: bool)
    requires ReadsCommands(read, enc) && Known(ds, lookup) && (!c.inMulti ==> c.queue == [])
    ensures var l := Load(read, EncodeAll(enc, ds), at, c, lookup, tolerant);
      && l.ran == c.ran + (if c.inMulti then Released(c.queue, ds, lookup) else Effective(ds, lookup))
      && (l.outcome == Ok <==> !(LeftOpen(ds, lookup) || (c.inMulti && NoExec(ds, lookup))))
  {
    assert EncodeAll(enc, ds) + [] == EncodeAll(enc, ds);
    LoadThrough(read, enc, ds, [], at, c, lookup, tolerant);
    LoadEnd(read, at + |EncodeAll(enc, ds)|, After(enc, c, ds, at, lookup, tolerant), lookup, tolerant);
    AfterRan(enc, c, ds, at, lookup, tolerant);
    AfterOpen(enc, c, ds, at, lookup, tolerant);
  }

  /** Where the rest of a log stands does not matter. */
  lemma LoadElsewhere(read: string -> Next, enc: Command -> string, ds: seq<Command>, a: nat, b: nat, c: Client, lookup: Command -> Kind, tolerant: bool)
    requires ReadsCommands(read, enc) && Known(ds, lookup) && (!c.inMulti ==> c.queue == [])
    ensures var l, m := Load(read, EncodeAll(enc, ds), a, c, lookup, tolerant), Load(read, EncodeAll(enc, ds), b, c, lookup, tolerant);
      l.ran == m.ran && (l.outcome == Ok <==> m.outcome == Ok)
  {
    LoadRest(read, enc, ds, a, c, lookup, tolerant);
    LoadRest(read, enc, ds, b, c, lookup, tolerant);
  }

  lemma SkippedNote(read: string -> Next, enc: Command -> string, cs: seq<Command>, note: string, ds: seq<Command>,
                    lookup: Command -> Kind, tolerant: bool)
    requires ReadsCommands(read, enc) && Known(cs, lookup) && Known(ds, lookup)
    requires note != [] && read(note + EncodeAll(enc, ds)) == Annotation(EncodeAll(enc, ds))
    ensures var with, without := Load(read, EncodeAll(enc, cs) + (note + EncodeAll(enc, ds)), 0, Start(), lookup, tolerant),
                                 Load(read, EncodeAll(enc, cs) + EncodeAll(enc, ds), 0, Start(), lookup, tolerant);
      with.ran == without.ran && (with.outcome == Ok <==> without.outcome == Ok)
  {
    var c, at, rest := After(enc, Start(), cs, 0, lookup, tolerant), |EncodeAll(enc, cs)|, EncodeAll(enc, ds);
    QueueEmpty(enc, Start(), cs, 0, lookup, tolerant);
    LoadThrough(read, enc, cs, note + rest, 0, Start(), lookup, tolerant);
    AnnotationStep(read, note + rest, rest, at, c, lookup, tolerant);
    LoadThrough(read, enc, cs, rest, 0, Start(), lookup, tolerant);
    LoadElsewhere(read, enc, ds, at, at + |note|, c, lookup, tolerant);
  }

  /** A line that begins with a '#' is skipped, wherever it stands between commands. */
  lemma AnnotationSkipped(cs: seq<Command>, note: string, ds: seq<Command>, lookup: Command -> Kind, tolerant: bool)
    requires Known(cs, lookup) && Known(ds, lookup) && '\n' !in note && |note| <= 1021
    ensures var with, without := LoadFile(Text(cs) + ("#" + note + "\n" + Text(ds)), lookup, tolerant), LoadFile(Text(cs) + Text(ds), lookup, tolerant);
      with.ran == without.ran && (with.outcome == Ok <==> without.outcome == Ok)
  {
    LoaderReads();
    AnnotationRead(note, Text(ds));
    SkippedNote(ReadNext, Encode, cs, "#" + note + "\n", ds, lookup, tolerant);
  }

  // ----- Loading again -----------------------------------------------------------------------------------------

  /** A log cut off inside a command loads as the whole commands before it, and is truncated to them. Loading
      what is left executes the same commands, and is content exactly if no transaction was open at the cut. */
  lemma Reload(cs: seq<Command>, n: nat, lookup: Command -> Kind)
    requires Known(cs, lookup) && n <= |Text(cs)|
    requires var k := Whole(Encode, cs, n); n != |Text(cs[..k])|
    ensures var k := Whole(Encode, cs, n);
      var first := LoadFile(Text(cs)[..n], lookup, true);
      var c := ClientAfter(cs[..k], lookup, true);
      && first == Loaded(c.ran, Truncated(|Text(cs[..k])|)) && |Text(cs[..k])| <= |Text(cs)|
      && var second := LoadFile(Text(cs)[..|Text(cs[..k])|], lookup, true);
      second.ran == first.ran && (second.outcome == Ok <==> !c.inMulti)
  {
    var k, end, c := LoadsWhole(cs, n, lookup);
    WholeExact(Encode, cs, k);
    var k2, end2, c2 := LoadsWhole(cs, end, lookup);
  }

  /** The first EXEC is at k, or there is none and k is the number of commands. */
  ghost predicate FirstExec(cs: seq<Command>, k: nat, lookup: Command -> Kind) {
    k <= |cs| && NoExec(cs[..k], lookup) && (k < |cs| ==> lookup(cs[k]).Exec?)
  }

  lemma {:induction false} FindExec(cs: seq<Command>, lookup: Command -> Kind) returns (k: nat)
    ensures FirstExec(cs, k, lookup)
    ensures forall j: nat :: FirstExec(cs, j, lookup) ==> j == k
  {
    if cs == [] || lookup(cs[0]).Exec? {
      k := 0;
    } else {
      k := FindExec(cs[1..], lookup);
      assert cs[..k + 1] == [cs[0]] + cs[1..][..k];
      k := k + 1;
    }
    forall j: nat | FirstExec(cs, j, lookup) ensures j == k {
      assert forall i :: 0 <= i < k ==> !lookup(cs[i]).Exec? by { assert forall i :: 0 <= i < k ==> cs[i] == cs[..k][i]; }
      assert forall i :: 0 <= i < j ==> !lookup(cs[i]).Exec? by { assert forall i :: 0 <= i < j ==> cs[i] == cs[..j][i]; }
    }
  }

  /** The client after the EXEC that ends the open transaction. */
  function Resumed(done: seq<Command>, multi: Command, queued: seq<Command>, exec: Command, lookup: Command -> Kind): Client {
    Client(RanBefore(done, lookup) + queued, [], false, |Text(done + [multi] + queued + [exec])|, CutAt(done, queued, multi, lookup))
  }

  lemma ExecCloses(done: seq<Command>, multi: Command, queued: seq<Command>, exec: Command, rest: seq<Command>, lookup: Command -> Kind)
    requires Opened(done, multi, queued, lookup) && lookup(exec).Exec?
    ensures var c := Resumed(done, multi, queued, exec, lookup);
      ClientAfter(done + [multi] + queued + [exec] + rest, lookup, true) == After(Encode, c, rest, c.validUpTo, lookup, true)
  {
    var cs := done + [multi] + queued;
    MultiOpens(done, multi, queued, lookup);
    ClosesFrom(Encode, Start(), cs, exec, rest, lookup);
    ValidIs(cs, lookup);
  }

  lemma ClosesFrom(enc: Command -> string, c: Client, cs: seq<Command>, exec: Command, rest: seq<Command>, lookup: Command -> Kind)
    requires lookup(exec).Exec? && After(enc, c, cs, 0, lookup, true).inMulti
    ensures var c0, end := After(enc, c, cs, 0, lookup, true), |EncodeAll(enc, cs + [exec])|;
      After(enc, c, cs + [exec] + rest, 0, lookup, true) ==
      After(enc, Client(c0.ran + c0.queue, [], false, end, c0.beforeMulti), rest, end, lookup, true)
  {
    AfterConcat(enc, c, cs, [exec], 0, lookup, true);
    AfterConcat(enc, c, cs + [exec], rest, 0, lookup, true);
    LoneText(enc, exec);
    assert [exec][1..] == [];
  }

  /**
    After a truncation inside a transaction the server goes on writing to the file, and the next load reads what
    it wrote into the open transaction. Without an EXEC nothing of it runs, and the log is cut before its last
    MULTI. With one, the first EXEC runs the half transaction together with everything queued since, and loading
    goes on from there.
  */
  lemma WrittenAfterOpenCut(done: seq<Command>, multi: Command, body: seq<Command>, more: seq<Command>, lookup: Command -> Kind, log: string) returns (k: nat)
    requires Opened(done, multi, body, lookup) && Known(more, lookup) && log == Text(done + [multi] + body) + Text(more)
    ensures FirstExec(more, k, lookup) && forall j: nat :: FirstExec(more, j, lookup) ==> j == k
    ensures LoadFile(log, lookup, true) ==
      if k == |more| then Loaded(RanBefore(done, lookup), Truncated(CutAt(done, body + more, multi, lookup)))
      else LoadedFrom(Resumed(done, multi, body + more[..k], more[k], lookup), more[k + 1..], lookup)
  {
    k := FindExec(more, lookup);
    if k == |more| {
      assert more[..k] == more;
      NotExecuted(done, multi, body, more, lookup, log);
    } else {
      ExecutedLater(done, multi, body, more, k, lookup, log);
    }
  }

  /** Loading the commands that follow, from client c on. */
  function LoadedFrom(c: Client, cs: seq<Command>, lookup: Command -> Kind): Loaded {
    Ended(After(Encode, c, cs, c.validUpTo, lookup, true), false, true)
  }

  lemma NotExecuted(done: seq<Command>, multi: Command, body: seq<Command>, more: seq<Command>, lookup: Command -> Kind, log: string)
    requires Opened(done, multi, body, lookup) && Known(more, lookup) && NoExec(more, lookup)
    requires log == Text(done + [multi] + body) + Text(more)
    ensures LoadFile(log, lookup, true) == Loaded(RanBefore(done, lookup), Truncated(CutAt(done, body + more, multi, lookup)))
  {
    assert more[..|more|] == more;
    StaysOpen(done, multi, body, more, |more|, lookup);
    TextConcat(done + [multi] + body, more);
    OpenTransaction(done, multi, body + more, lookup);
  }

  lemma ExecutedLater(done: seq<Command>, multi: Command, body: seq<Command>, more: seq<Command>, k: nat, lookup: Command -> Kind, log: string)
    requires Opened(done, multi, body, lookup) && Known(more, lookup) && k < |more| && NoExec(more[..k], lookup) && lookup(more[k]).Exec?
    requires log == Text(done + [multi] + body) + Text(more)
    ensures LoadFile(log, lookup, true) == LoadedFrom(Resumed(done, multi, body + more[..k], more[k], lookup), more[k + 1..], lookup)
  {
    var cs := done + [multi] + body + more;
    StaysOpen(done, multi, body, more, k, lookup);
    TextConcat(done + [multi] + body, more);
    LoadsAll(cs, lookup);
    ExecCloses(done, multi, body + more[..k], more[k], more[k + 1..], lookup);
  }

  lemma StaysOpen(done: seq<Command>, multi: Command, body: seq<Command>, more: seq<Command>, k: nat, lookup: Command -> Kind)
    requires Opened(done, multi, body, lookup) && Known(more, lookup) && k <= |more| && NoExec(more[..k], lookup)
    ensures Opened(done, multi, body + more[..k], lookup) && Known(done + [multi] + body + more, lookup)
    ensures k == |more| ==> done + [multi] + body + more == done + [multi] + (body + more)
    ensures k < |more| ==> done + [multi] + body + more == done + [multi] + (body + more[..k]) + [more[k]] + more[k + 1..]
  {
    KnownConcat(done + [multi] + body, more, lookup);
    assert done + [multi] + (body + more[..k]) == (done + [multi] + body + more)[..|done| + 1 + |body| + k];
  }

  lemma KnownConcat(xs: seq<Command>, ys: seq<Command>, lookup: Command -> Kind)
    requires Known(xs, lookup) && Known(ys, lookup)
    ensures Known(xs + ys, lookup)
  {}

  /** In particular, whatever a first EXEC releases has run, and with nothing but plain commands after it the load
      reports no problem. */
  lemma HalfTransactionRuns(done: seq<Command>, multi: Command, body: seq<Command>, more: seq<Command>, k: nat, lookup: Command -> Kind, log: string)
    requires Opened(done, multi, body, lookup) && Known(more, lookup) && log == Text(done + [multi] + body) + Text(more)
    requires FirstExec(more, k, lookup) && k < |more| && Plain(more[k + 1..], lookup)
    ensures LoadFile(log, lookup, true) == Loaded(RanBefore(done, lookup) + (body + more[..k]) + more[k + 1..], Ok)
  {
    var j := WrittenAfterOpenCut(done, multi, body, more, lookup, log);
    PlainFrom(Resumed(done, multi, body + more[..k], more[k], lookup), more[k + 1..], lookup);
  }

  lemma PlainFrom(c: Client, cs: seq<Command>, lookup: Command -> Kind)
    requires Plain(cs, lookup) && !c.inMulti
    ensures LoadedFrom(c, cs, lookup) == Loaded(c.ran + cs, Ok)
  {
    AfterPlain(Encode, c, cs, c.validUpTo, lookup, true);
  }

  // ----- One log ------------------------------------------------------------------------------------------------

  function KindOf(c: Command): Kind {
    if c == ["MULTI"] then Multi else if c == ["EXEC"] then Exec else Other
  }

  /** A transaction of two commands, cut off inside the second. */
  const MULTI: Command := ["MULTI"]
  const EXEC: Command := ["EXEC"]
  const FIRST: Command := ["SET", "a", "1"]
  const SECOND: Command := ["SET", "b", "1"]
  const LATER: Command := ["SET", "c", "1"]

  lemma SmallStorable(c: Command)
    requires 0 < |c| <= 3 && forall i :: 0 <= i < |c| ==> |c[i]| <= 5
    ensures Storable(c)
  {
    assert Pow10(1) == 10;
    Pow10Grows(1, 20);
  }

  lemma {:induction false} Pow10Grows(j: nat, k: nat)
    requires j <= k
    ensures Pow10(j) <= Pow10(k)
  {
    if j < k { Pow10Grows(j, k - 1); }
  }

  /** The cut log is truncated after MULTI and the first SET. Loading that again is not content; and once the server
      has appended a transaction of its own, the half transaction runs. */
  lemma CutTransactionExample(n: nat)
    requires |Text([MULTI, FIRST])| < n < |Text([MULTI, FIRST, SECOND])|
    ensures LoadFile(Text([MULTI, FIRST, SECOND])[..n], KindOf, true) == Loaded([], Truncated(|Text([MULTI, FIRST])|))
    ensures LoadFile(Text([MULTI, FIRST]), KindOf, true) == Loaded([], Truncated(0))
    ensures LoadFile(Text([MULTI, FIRST]) + Text([MULTI, LATER, EXEC]), KindOf, true) == Loaded([FIRST, MULTI, LATER], Ok)
  {
    var cs := [MULTI, FIRST, SECOND];
    ExampleKnown();
    assert [] + [MULTI] + [FIRST] == [MULTI, FIRST] == cs[..2] && cs[..3] == cs;
    WholeBetween(cs, 2, n);
    var k, end, c := LoadsWhole(cs, n, KindOf);
    MultiOpens([], MULTI, [FIRST], KindOf);
    OpenTransaction([], MULTI, [FIRST], KindOf);
    ExampleCut();
    ExampleRuns();
  }

  lemma ExampleKnown()
    ensures Known([MULTI, FIRST, SECOND], KindOf) && Known([MULTI, LATER, EXEC], KindOf) && Opened([], MULTI, [FIRST], KindOf)
  {
    SmallStorable(MULTI);
    SmallStorable(EXEC);
    SmallStorable(FIRST);
    SmallStorable(SECOND);
    SmallStorable(LATER);
    assert [] + [MULTI] + [FIRST] == [MULTI, FIRST];
  }

  lemma ExampleCut()
    ensures CutAt([], [FIRST], MULTI, KindOf) == 0
  {
    LastMultiOf(Encode, FIRST, |Text([] + [MULTI])|, 0, KindOf);
    assert Text([]) == [];
  }

  lemma LastMultiOf(enc: Command -> string, c: Command, at: nat, b: nat, lookup: Command -> Kind)
    ensures BeforeLastMulti(enc, [c], at, b, lookup) == if lookup(c).Multi? then at else b
  {
    assert [c][1..] == [];
  }

  lemma ExampleRuns()
    ensures LoadFile(Text([MULTI, FIRST]) + Text([MULTI, LATER, EXEC]), KindOf, true) == Loaded([FIRST, MULTI, LATER], Ok)
  {
    var more := [MULTI, LATER, EXEC];
    ExampleKnown();
    assert FirstExec(more, 2, KindOf) by { assert more[..2] == [MULTI, LATER]; }
    assert [FIRST] + more[..2] == [FIRST, MULTI, LATER] && more[3..] == [];
    assert [] + [MULTI] + [FIRST] == [MULTI, FIRST];
    HalfTransactionRuns([], MULTI, [FIRST], more, 2, KindOf, Text([MULTI, FIRST]) + Text(more));
    assert [] + [FIRST, MULTI, LATER] + [] == [FIRST, MULTI, LATER];
  }

  lemma WholeBetween(cs: seq<Command>, k: nat, n: nat)
    requires k < |cs| && |Text(cs[..k])| < n < |Text(cs[..k + 1])|
    ensures Whole(Encode, cs, n) == k && n <= |Text(cs)|
  {
    BetweenFrom(Encode, cs, k, n);
  }

  lemma {:induction false} BetweenFrom(enc: Command -> string, cs: seq<Command>, k: nat, n: nat)
    requires k < |cs| && |EncodeAll(enc, cs[..k])| < n < |EncodeAll(enc, cs[..k + 1])|
    ensures Whole(enc, cs, n) == k && n <= |EncodeAll(enc, cs)|
    decreases k
  {
    assert cs[..k + 1][0] == cs[0] && cs[..k + 1][1..] == cs[1..][..k];
    if k > 0 {
      assert cs[..k][0] == cs[0] && cs[..k][1..] == cs[1..][..k - 1];
      BetweenFrom(enc, cs[1..], k - 1, n - |enc(cs[0])|);
    }
  }

  lemma TextConcat(xs: seq<Command>, ys: seq<Command>)
    ensures Text(xs + ys) == Text(xs) + Text(ys)
  {
    EncodeConcat(Encode, xs, ys);
  }

  lemma {:induction false} EncodeConcat(enc: Command -> string, xs: seq<Command>, ys: seq<Command>)
    ensures EncodeAll(enc, xs + ys) == EncodeAll(enc, xs) + EncodeAll(enc, ys)
    decreases xs
  {
    if xs == [] {
      assert xs + ys == ys;
    } else {
      assert (xs + ys)[0] == xs[0] && (xs + ys)[1..] == xs[1..] + ys;
      EncodeConcat(enc, xs[1..], ys);
    }
  }

  // ----- The loader's loops, on the stream of bytes not yet read ------------------------------------------------

  /** `fgets`. */
  method Fgets(s: string, max: nat) returns (line: string, rest: string)
    ensures line == Line(s, max) && rest == s[|line|..]
  {
    line, rest := [], s;
    var left := max;
    ghost var goal := Line(s, max);
    while rest != [] && left > 0
      invariant line + Line(rest, left) == goal && |line| <= |s| && rest == s[|line|..]
      decreases rest
    {
      var c := rest[0];
      LineTurn(line, rest, left);
      line, rest, left := line + [c], rest[1..], left - 1;
      if c == '\n' { return; }
    }
  }

  lemma LineTurn(line: string, rest: string, left: nat)
    requires rest != [] && left > 0
    ensures line + Line(rest, left) == if rest[0] == '\n' then line + [rest[0]] else line + [rest[0]] + Line(rest[1..], left - 1)
  {}

  /** One argument. */
  method ReadArgument(s: string) returns (arg: Arg)
    ensures arg == ReadArg(s)
  {
    if s == [] { return ShortArg; }
    var line, rest := Fgets(s, LINE_MAX);
    if line[0] != '$' { return BadArg; }
    var len := Number(line);
    if len < 0 { return BadArg; }
    if |rest| < len { return ShortArg; }
    var a := rest[..len];
    if |rest| - len < 2 { return ShortArg; }
    arg := Arg(a, rest[len + 2..]);
  }

  /** The argument loop. */
  method ReadArguments(s: string, argc: nat) returns (args: Args)
    ensures args == ReadArgs(ReadArg, s, argc, [])
  {
    args := ArgumentLoop(s, argc, ReadArg);
  }

  /** The loop need not know how an argument is read. */
  ghost predicate IsReadArg(one: string -> Arg) { forall s {:trigger ReadArg(s)} :: one(s) == ReadArg(s) }

  method ArgumentLoop(s: string, argc: nat, ghost one: string -> Arg) returns (args: Args)
    requires IsReadArg(one)
    ensures args == ReadArgs(one, s, argc, [])
  {
    var argv: Command, rest, left := [], s, argc;
    while left > 0
      invariant 0 <= left <= argc && ReadArgs(one, rest, left, argv) == ReadArgs(one, s, argc, [])
    {
      var arg := ReadArgumentAs(rest, one);
      if arg.ShortArg? { return Short; }
      if arg.BadArg? { return Bad; }
      argv, rest, left := argv + [arg.a], arg.rest, left - 1;
    }
    args := Read(argv, rest);
  }

  method ReadArgumentAs(s: string, ghost one: string -> Arg) returns (arg: Arg)
    requires IsReadArg(one)
    ensures arg == one(s)
  {
    arg := ReadArgument(s);
  }

  /** One turn: an annotation, a command, or an error. */
  method ReadTurn(s: string) returns (next: Next)
    requires s != []
    ensures next == ReadNext(s)
  {
    var line, rest := Fgets(s, LINE_MAX);
    if line[0] == '#' { return Annotation(rest); }
    if line[0] != '*' { return BadFormat; }
    if |line| == 1 || line[1] == '\0' {
      return if rest == [] && line[|line| - 1] != '\n' then CutShort else BadFormat;
    }
    var argc := Number(line);
    if argc < 1 { return BadFormat; }
    var args := ReadArguments(rest, argc);
    match args
    case Short => next := CutShort;
    case Bad => next := BadFormat;
    case Read(argv, more) => next := Next(argv, more);
  }

  method ExecuteCommand(c: Client, argv: Command, kind: Kind, end: nat, tolerant: bool) returns (c': Client)
    ensures c' == Executed(c, argv, kind, end, tolerant)
  {
    c' := c;
    if kind.Multi? { c' := c'.(beforeMulti := c'.validUpTo); }
    c' := Apply(c', argv, kind);
    if tolerant { c' := c'.(validUpTo := end); }
  }

  /** The command loop; an offset is what has been read so far. */
  method LoadSingle(f: string, lookup: Command -> Kind, tolerant: bool) returns (r: Loaded)
    ensures r == LoadFile(f, lookup, tolerant)
  {
    r := LoadCommands(f, lookup, tolerant, ReadNext);
  }

  ghost predicate IsReadNext(read: string -> Next) { forall s {:trigger ReadNext(s)} :: read(s) == ReadNext(s) }

  method LoadCommands(f: string, lookup: Command -> Kind, tolerant: bool, ghost read: string -> Next) returns (r: Loaded)
    requires IsReadNext(read)
    ensures r == Load(read, f, 0, Start(), lookup, tolerant)
  {
    var s, c, at: nat := f, Start(), 0;
    while s != []
      invariant Load(read, s, at, c, lookup, tolerant) == Load(read, f, 0, Start(), lookup, tolerant)
      decreases |s|
    {
      var next := ReadTurnAs(s, read);
      var stop;
      stop, s, at, c := LoadCommand(next, s, at, c, lookup, tolerant, read);
      if stop.Some? { return stop.value; }
    }
    if c.inMulti { return CutOff(c, c.beforeMulti, tolerant); }
    r := Loaded(c.ran, Ok);
  }

  /** One turn: the load ends here, or goes on with what is left. */
  method LoadCommand(next: Next, s: string, at: nat, c: Client, lookup: Command -> Kind, tolerant: bool, ghost read: string -> Next)
    returns (stop: Option<Loaded>, s': string, at': nat, c': Client)
    requires s != [] && next == read(s) && ((next.Annotation? || next.Next?) ==> |next.rest| < |s|)
    ensures stop.Some? ==> Load(read, s, at, c, lookup, tolerant) == stop.value
    ensures stop.None? ==> |s'| < |s| && Load(read, s', at', c', lookup, tolerant) == Load(read, s, at, c, lookup, tolerant)
  {
    s', at', c', stop := s, at, c, None;
    match next
    case CutShort => stop := Some(CutOff(c, c.validUpTo, tolerant));
    case BadFormat => stop := Some(Loaded(c.ran, Failed));
    case Annotation(rest) => s', at' := rest, at + |s| - |rest|;
    case Next(argv, rest) =>
      var kind := lookup(argv);
      if kind.Unknown? {
        stop := Some(Loaded(c.ran, Failed));
      } else {
        s', at' := rest, at + |s| - |rest|;
        c' := ExecuteCommand(c, argv, kind, at', tolerant);
      }
  }

  method ReadTurnAs(s: string, ghost read: string -> Next) returns (next: Next)
    requires s != [] && IsReadNext(read)
    ensures next == read(s) && ((next.Annotation? || next.Next?) ==> |next.rest| < |s|)
  {
    next := ReadTurn(s);
  }
}
