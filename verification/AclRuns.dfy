/**
  A selector over any run of rules: its bitmap, its first arguments and its rule log,
  what they mean, and what replaying the log rebuilds, with the command table the rules
  were set with or another one.
*/
module AclRuns {
  import opened Collections
  import opened AclRules
  import opened AclRuleString
  import SplitArgs

  // ----- Runs ----------------------------------------------------------------------

  datatype View = View(sem: Sem, all: bool, log: seq<LogRule>)

  /** The operations of `ACLSetSelector`; a change carries the text after the sign. The others are about keys and
      channels; all that matters here is whether they are accepted. */
  datatype Op = AllCommands | NoCommands | Change(allow: bool, text: string) | Other(accepted: bool)

  predicate Accepted(t: Table, allow: bool, name: string) {
    var target := Resolve(t, name);
    target.Some? && (target.value.Arg? ==> allow)
  }

  /** The effect of an accepted rule. */
  function Changed(t: Table, v: View, allow: bool, target: Target, name: string): View {
    View(Apply(t, v.sem, allow, target),
         v.all && (allow || InRange(TouchedIds(t, target)) == {}),
         UpdateLog(v.log, LogRule(allow, name)))
  }

  function SetOp(t: Table, v: View, op: Op): Option<View> {
    match op
    case AllCommands => Some(View(Base(true), true, []))
    case NoCommands => Some(View(Base(false), false, []))
    case Other(accepted) => if accepted then Some(v) else None
    case Change(allow, text) =>
      if Accepted(t, allow, Lower(text)) then Some(Changed(t, v, allow, Resolve(t, Lower(text)).value, Lower(text))) else None
  }

  /** A run; a rejected operation changes nothing. */
  function RunOps(t: Table, v: View, ops: seq<Op>): View
    decreases ops
  {
    if ops == [] then v
    else
      var next := SetOp(t, v, ops[0]);
      RunOps(t, if next.Some? then next.value else v, ops[1..])
  }

  const FRESH := View(Base(false), false, [])

  // ----- What a run of rules means ---------------------------------------------------

  function TargetOf(t: Table, op: Op): Option<Target> {
    if op.Change? && Accepted(t, op.allow, Lower(op.text)) then Resolve(t, Lower(op.text)) else None
  }

  /** The last accepted rule about an id decides; before any rule nothing is allowed. */
  function BitDecision(t: Table, ops: seq<Op>, id: nat): bool {
    if ops == [] then false
    else
      var op, rest := ops[|ops| - 1], ops[..|ops| - 1];
      match op
      case AllCommands => true
      case NoCommands => false
      case Other(_) => BitDecision(t, rest, id)
      case Change(allow, _) =>
        var target := TargetOf(t, op);
        if target.Some? && id in TouchedIds(t, target.value) then allow else BitDecision(t, rest, id)
  }

  /** A first argument is allowed if it was added after the last accepted rule about its command. */
  function ArgDecision(t: Table, ops: seq<Op>, p: (nat, string)): bool {
    if ops == [] then false
    else
      var op, rest := ops[|ops| - 1], ops[..|ops| - 1];
      var target := TargetOf(t, op);
      if op.AllCommands? || op.NoCommands? then false
      else if target.None? then ArgDecision(t, rest, p)
      else p in AddedArgs(t, target.value) || (p.0 !in ClearedIds(t, target.value) && ArgDecision(t, rest, p))
  }

  lemma {:induction false} RunLast(t: Table, v: View, ops: seq<Op>, op: Op)
    ensures var before, next := RunOps(t, v, ops), SetOp(t, RunOps(t, v, ops), op);
      RunOps(t, v, ops + [op]) == if next.Some? then next.value else before
    decreases ops
  {
    if ops == [] {
      assert ops + [op] == [op] && [op][1..] == [];
    } else {
      assert (ops + [op])[1..] == ops[1..] + [op];
      var next := SetOp(t, v, ops[0]);
      RunLast(t, if next.Some? then next.value else v, ops[1..], op);
    }
  }

  /** The bitmap and the first arguments after any run are what the last rule about each of them says. */
  lemma {:induction false} LastRuleDecides(t: Table, ops: seq<Op>, id: nat, p: (nat, string))
    ensures id in RunOps(t, FRESH, ops).sem.bits <==> id < BITS && BitDecision(t, ops, id)
    ensures p in RunOps(t, FRESH, ops).sem.args <==> ArgDecision(t, ops, p)
  {
    if ops != [] {
      var op, rest := ops[|ops| - 1], ops[..|ops| - 1];
      assert ops == rest + [op];
      RunLast(t, FRESH, rest, op);
      LastRuleDecides(t, rest, id, p);
    }
  }

  /** No rule is superseded by a later one. */
  ghost predicate Compact(log: seq<LogRule>) {
    log == [] || (Compact(log[1..]) && forall r :: r in log[1..] ==> !Superseded(log[0].name, r.name))
  }

  lemma {:induction false} SurvivorsAre(log: seq<LogRule>, n: string)
    ensures forall r :: r in Survivors(log, n) <==> r in log && !Superseded(r.name, n)
  {
    if log != [] { SurvivorsAre(log[1..], n); }
  }

  lemma {:induction false} SurvivorsCompact(log: seq<LogRule>, n: string)
    requires Compact(log)
    ensures Compact(Survivors(log, n))
  {
    if log != [] {
      SurvivorsCompact(log[1..], n);
      SurvivorsAre(log[1..], n);
      var rest := Survivors(log[1..], n);
      assert ([log[0]] + rest)[1..] == rest;
    }
  }

  lemma {:induction false} AppendCompact(log: seq<LogRule>, r: LogRule)
    requires Compact(log) && forall x :: x in log ==> !Superseded(x.name, r.name)
    ensures Compact(log + [r])
  {
    if log == [] {
      assert log + [r] == [r] && [r][1..] == [];
    } else {
      assert (log + [r])[1..] == log[1..] + [r];
      AppendCompact(log[1..], r);
    }
  }

  lemma UpdateCompact(log: seq<LogRule>, r: LogRule)
    requires Compact(log)
    ensures Compact(UpdateLog(log, r))
  {
    SurvivorsCompact(log, r.name);
    SurvivorsAre(log, r.name);
    AppendCompact(Survivors(log, r.name), r);
  }

  /** The start of a replay: all or nothing, as the reserved bit says. */
  function BaseOf(v: View): Sem { Base(RESERVED in v.sem.bits) }

  ghost predicate Faithful(t: Table, v: View) {
    && ValidLog(t, v.log) && Compact(v.log)
    && ReplayLog(t, BaseOf(v), v.log) == v.sem
    && (v.all ==> v.sem.bits == AllBits())
  }

  /** No rule about a command or a category touches the reserved bit. */
  lemma CommandIdsNotReserved(c: Command, k: string)
    requires ValidCommand(c)
    ensures RESERVED !in WholeIds(c) && RESERVED !in CatIds(c, k)
  {}

  lemma ReservedUntouched(t: Table, s: Sem, allow: bool, target: Target)
    requires ValidTable(t)
    ensures RESERVED in Apply(t, s, allow, target).bits <==> RESERVED in s.bits
  {
    forall c, k | c in t.commands
      ensures RESERVED !in WholeIds(t.commands[c]) && RESERVED !in CatIds(t.commands[c], k)
    {
      CommandIdsNotReserved(t.commands[c], k);
    }
    assert RESERVED !in TouchedIds(t, target);
  }

  lemma AllStaysAll(t: Table, s: Sem, allow: bool, target: Target)
    requires s.bits == AllBits() && (allow || InRange(TouchedIds(t, target)) == {})
    ensures Apply(t, s, allow, target).bits == AllBits()
  {
    var ids := InRange(TouchedIds(t, target));
    assert forall i :: i in ids ==> InBitmap(i);
    assert s.bits + ids == s.bits;
    assert !allow ==> s.bits - ids == s.bits;
  }

  lemma SetOpFaithful(t: Table, v: View, op: Op)
    requires ValidTable(t) && Faithful(t, v) && SetOp(t, v, op).Some?
    ensures Faithful(t, SetOp(t, v, op).value)
  {
    match op
    case AllCommands => assert InBitmap(RESERVED);
    case NoCommands =>
    case Other(_) =>
    case Change(allow, text) =>
      var r := LogRule(allow, Lower(text));
      var target := Resolve(t, r.name).value;
      LowerOfLower(text);
      CompactionPreserves(t, BaseOf(v), v.log, r);
      ReservedUntouched(t, v.sem, allow, target);
      UpdateCompact(v.log, r);
      SurvivorsAre(v.log, r.name);
      if SetOp(t, v, op).value.all { AllStaysAll(t, v.sem, allow, target); }
  }

  lemma {:induction false} RunFaithful(t: Table, v: View, ops: seq<Op>)
    requires ValidTable(t) && Faithful(t, v)
    ensures Faithful(t, RunOps(t, v, ops))
    decreases ops
  {
    if ops != [] {
      var next := SetOp(t, v, ops[0]);
      if next.Some? { SetOpFaithful(t, v, ops[0]); }
      RunFaithful(t, if next.Some? then next.value else v, ops[1..]);
    }
  }

  /** The operations that a rule log stands for. */
  function LogOps(log: seq<LogRule>): seq<Op> {
    if log == [] then [] else [Change(log[0].allow, log[0].name)] + LogOps(log[1..])
  }

  ghost predicate AllAccepted(t: Table, v: View, ops: seq<Op>)
    decreases ops
  {
    ops == [] || (SetOp(t, v, ops[0]).Some? && AllAccepted(t, SetOp(t, v, ops[0]).value, ops[1..]))
  }

  lemma {:induction false} SurvivorsAll(log: seq<LogRule>, n: string)
    requires forall r :: r in log ==> !Superseded(r.name, n)
    ensures Survivors(log, n) == log
  {
    if log != [] {
      assert log[0] in log;
      SurvivorsAll(log[1..], n);
    }
  }

  lemma {:induction false} CompactSplit(done: seq<LogRule>, rest: seq<LogRule>, r: LogRule)
    requires Compact(done + rest) && r in rest
    ensures forall x :: x in done ==> !Superseded(x.name, r.name)
    decreases done
  {
    if done != [] {
      assert (done + rest)[1..] == done[1..] + rest;
      assert r in (done + rest)[1..];
      CompactSplit(done[1..], rest, r);
    }
  }

  /** A rule of a compact log, applied after those before it, is accepted and only appended. */
  lemma ReplayOne(t: Table, v: View, rest: seq<LogRule>)
    requires rest != [] && Compact(v.log + rest) && ValidRule(t, rest[0])
    ensures var r := rest[0]; var next := SetOp(t, v, Change(r.allow, r.name));
      && next.Some? && next.value.log == v.log + [r]
      && next.value.sem == Apply(t, v.sem, r.allow, Resolve(t, r.name).value)
  {
    CompactSplit(v.log, rest, rest[0]);
    SurvivorsAll(v.log, rest[0].name);
  }

  lemma {:induction false} ReplayRest(t: Table, v: View, rest: seq<LogRule>)
    requires Compact(v.log + rest) && ValidLog(t, rest)
    ensures AllAccepted(t, v, LogOps(rest))
    ensures RunOps(t, v, LogOps(rest)).log == v.log + rest
    ensures RunOps(t, v, LogOps(rest)).sem == ReplayLog(t, v.sem, rest)
    decreases rest
  {
    if rest == [] {
      assert v.log + rest == v.log;
    } else {
      var r, ops := rest[0], LogOps(rest);
      assert r in rest && ValidRule(t, r);
      ReplayOne(t, v, rest);
      assert ops[0] == Change(r.allow, r.name) && ops[1..] == LogOps(rest[1..]);
      var next := SetOp(t, v, ops[0]).value;
      assert next.log + rest[1..] == v.log + rest;
      ReplayRest(t, next, rest[1..]);
    }
  }

  /**
    After any run of rules, accepted or not, on a fresh selector, replaying its log from
    +@all or -@all is accepted rule by rule, rebuilds exactly the bitmap and the allowed
    first arguments, and leaves the log as it is.
  */
  lemma ReplayIsFaithful(t: Table, ops: seq<Op>)
    requires ValidTable(t)
    ensures var v := RunOps(t, FRESH, ops);
      var start := StartOf(v);
      && AllAccepted(t, start, LogOps(v.log))
      && RunOps(t, start, LogOps(v.log)).sem == v.sem
      && RunOps(t, start, LogOps(v.log)).log == v.log
      && (v.all ==> v.sem.bits == AllBits())
  {
    RunFaithful(t, FRESH, ops);
    var v := RunOps(t, FRESH, ops);
    assert [] + v.log == v.log;
    ReplayRest(t, StartOf(v), v.log);
  }

  // ----- Another command table --------------------------------------------------------

  ghost predicate Lowered(log: seq<LogRule>) { forall r :: r in log ==> Lower(r.name) == r.name }

  /** Where a replay starts. */
  function StartOf(v: View): View { View(BaseOf(v), RESERVED in v.sem.bits, []) }

  lemma {:induction false} AcceptedIfValid(t: Table, v: View, log: seq<LogRule>)
    requires Lowered(log)
    ensures AllAccepted(t, v, LogOps(log)) <==> ValidLog(t, log)
    decreases log
  {
    if log != [] {
      var r, ops := log[0], LogOps(log);
      assert log == [r] + log[1..];
      assert ops[0] == Change(r.allow, r.name) && ops[1..] == LogOps(log[1..]);
      assert r in log && Lower(r.name) == r.name;
      assert ValidRule(t, r) <==> SetOp(t, v, ops[0]).Some?;
      if SetOp(t, v, ops[0]).Some? { AcceptedIfValid(t, SetOp(t, v, ops[0]).value, log[1..]); }
    }
  }

  /**
    The rules were set with table t, and t' is the table after a module was loaded or unloaded.
    Replaying the log is accepted if and only if every logged rule still denotes something in t';
    then the log stays as it is and the meaning is that of the log in t'.
  */
  lemma ReplayOnTable(t: Table, t': Table, ops: seq<Op>)
    requires ValidTable(t)
    ensures var v := RunOps(t, FRESH, ops);
      var again := RunOps(t', StartOf(v), LogOps(v.log));
      && (AllAccepted(t', StartOf(v), LogOps(v.log)) <==> ValidLog(t', v.log))
      && (ValidLog(t', v.log) ==> again.log == v.log && again.sem == ReplayLog(t', BaseOf(v), v.log))
  {
    RunFaithful(t, FRESH, ops);
    var v := RunOps(t, FRESH, ops);
    AcceptedIfValid(t', StartOf(v), v.log);
    assert [] + v.log == v.log;
    if ValidLog(t', v.log) { ReplayRest(t', StartOf(v), v.log); }
  }

  /** A table with more commands and categories, the old ones being as they were. */
  ghost predicate Extends(t': Table, t: Table) {
    && (forall n :: n in t.commands ==> n in t'.commands && t'.commands[n] == t.commands[n])
    && t.categories <= t'.categories
  }

  /** Loading a module never makes a logged rule fail. */
  lemma LoadAccepts(t: Table, t': Table, log: seq<LogRule>)
    requires Extends(t', t) && ValidLog(t, log)
    ensures ValidLog(t', log)
  {
    forall r | r in log ensures ValidRule(t', r) {
      assert ValidRule(t, r);
      assert Resolve(t', r.name) == Resolve(t, r.name);
    }
  }

  /** Unloading one does, if a rule names one of its commands: here `m` goes away under a user with +m. */
  lemma UnloadRefuses()
    ensures var t := Table(map["m" := Command(0, {}, None)], {});
      var v := RunOps(t, FRESH, [Change(true, "m")]);
      ValidTable(t) && v.log == [LogRule(true, "m")] && !AllAccepted(Table(map[], {}), StartOf(v), LogOps(v.log))
  {
    var t := Table(map["m" := Command(0, {}, None)], {});
    var op := Change(true, "m");
    assert Lower("m") == "m" by { assert "m"[1..] == ""; }
    assert LastBar("m").None? by { assert "m"[..0] == ""; }
    assert Resolve(t, "m") == Some(Whole("m"));
    assert [op][1..] == [];
    var v := RunOps(t, FRESH, [op]);
    assert Accepted(t, true, "m") && Lower(op.text) == "m";
    assert SetOp(t, FRESH, op) == Some(Changed(t, FRESH, true, Whole("m"), "m"));
    assert v.log == [] + [LogRule(true, "m")] == [LogRule(true, "m")];
    assert LogOps(v.log)[0] == op;
    assert Resolve(Table(map[], {}), "m").None?;
  }

  // ----- The log string, split again --------------------------------------------------

  lemma {:induction false} TextsAre(log: seq<LogRule>)
    ensures forall w :: w in Texts(log) <==> exists r :: r in log && w == Text(r)
  {
    if log != [] {
      TextsAre(log[1..]);
      assert log == [log[0]] + log[1..];
    }
  }

  ghost predicate CleanNames(log: seq<LogRule>) {
    forall r, i :: r in log && 0 <= i < |r.name| ==> !SplitArgs.IsSpecial(r.name[i])
  }

  lemma CleanTexts(log: seq<LogRule>)
    ensures (forall w, i :: w in Texts(log) && 0 <= i < |w| ==> !SplitArgs.IsSpecial(w[i])) <==> CleanNames(log)
  {
    TextsAre(log);
    if forall w, i :: w in Texts(log) && 0 <= i < |w| ==> !SplitArgs.IsSpecial(w[i]) {
      forall r, i | r in log && 0 <= i < |r.name| ensures !SplitArgs.IsSpecial(r.name[i]) {
        assert Text(r) in Texts(log) && Text(r)[i + 1] == r.name[i];
      }
    }
  }

  /**
    `sdssplitargs` gives the rules of the log string back if and only if no rule name
    holds a blank that ends a word, or a quote. A first argument is not checked for these.
  */
  lemma LogStringSplits(log: seq<LogRule>)
    ensures SplitArgs.Split(Join(log)) == Some(Texts(log)) <==> CleanNames(log)
  {
    TextsAre(log);
    SplitArgs.SplitJoined(Texts(log));
    SplitArgs.NoSpecials(Texts(log));
    CleanTexts(log);
  }

  /** A first argument with a space becomes two words; one in quotes comes back without them. */
  lemma ArgumentsThatDoNotSplitBack()
    ensures SplitArgs.Split(Join([LogRule(true, "d|a b")])) == Some(["+d|a", "b"])
    ensures SplitArgs.Split(Join([LogRule(true, "d|'a'")])) == Some(["+d|a"])
  {
    JoinOne(LogRule(true, "d|a b"), "+d|a b");
    JoinOne(LogRule(true, "d|'a'"), "+d|'a'");
    SpacedSplits();
    QuotedSplits();
  }

  lemma JoinOne(r: LogRule, text: string)
    requires text == Text(r)
    ensures Join([r]) == text
  {
    assert [r][1..] == [] && Texts([r]) == [text];
  }

  lemma SpacedSplits()
    ensures SplitArgs.Split("+d|a b") == Some(["+d|a", "b"])
  {
    var words := ["+d|a", "b"];
    assert words[1..] == ["b"] && Glue(words) == "+d|a b";
    SplitArgs.NoSpecialsIn(words[0]);
    SplitArgs.NoSpecialsIn(words[1]);
    assert SplitArgs.TotalSpecials(words[1..][1..]) == 0;
    SplitArgs.CleanSplits(words);
  }

  lemma QuotedSplits()
    ensures SplitArgs.Split("+d|'a'") == Some(["+d|a"])
  {
    var s := "+d|'a'";
    assert SplitArgs.InSingle("'", "+d|a") == Some(SplitArgs.Token("+d|a", ""));
    assert SplitArgs.InSingle("a'", "+d|") == Some(SplitArgs.Token("+d|a", "")) by { assert "a'"[1..] == "'" && "+d|" + "a" == "+d|a"; }
    assert SplitArgs.Plain("'a'", "+d|") == Some(SplitArgs.Token("+d|a", "")) by { assert "'a'"[1..] == "a'"; }
    assert SplitArgs.Plain("|'a'", "+d") == Some(SplitArgs.Token("+d|a", "")) by { assert "|'a'"[1..] == "'a'" && "+d" + "|" == "+d|"; }
    assert SplitArgs.Plain("d|'a'", "+") == Some(SplitArgs.Token("+d|a", "")) by { assert "d|'a'"[1..] == "|'a'" && "+" + "d" == "+d"; }
    assert SplitArgs.Plain(s, "") == Some(SplitArgs.Token("+d|a", "")) by { assert s[1..] == "d|'a'" && "" + "+" == "+"; }
    assert SplitArgs.Split("") == Some([]) && SkipBlanks(s) == s;
    assert ["+d|a"] + [] == ["+d|a"];
  }

  // ----- Replaying the string ---------------------------------------------------------------

  /** How `ACLSetSelector` reads a word; other says whether it accepts a word that is not about commands. */
  function ReadOp(word: string, other: string -> bool): Op {
    if Lower(word) == "allcommands" || Lower(word) == "+@all" then AllCommands
    else if Lower(word) == "nocommands" || Lower(word) == "-@all" then NoCommands
    else if word != "" && word[0] == '+' then Change(true, word[1..])
    else if word != "" && word[0] == '-' then Change(false, word[1..])
    else Other(other(word))
  }

  function ReadOps(words: seq<string>, other: string -> bool): seq<Op> {
    if words == [] then [] else [ReadOp(words[0], other)] + ReadOps(words[1..], other)
  }

  /** Replaying the words of a string from the right base is accepted, and gives w. */
  ghost predicate Rebuilds(t: Table, v: View, rules: string, other: string -> bool, w: View) {
    && SplitArgs.Split(rules).Some?
    && var ops := ReadOps(SplitArgs.Split(rules).value, other);
       AllAccepted(t, StartOf(v), ops) && w == RunOps(t, StartOf(v), ops)
  }

  /** `all` is not a category, so a logged rule is never read as one of the two resets. */
  lemma ReadRule(r: LogRule, other: string -> bool)
    requires Lower(r.name) == r.name && r.name != "@all"
    ensures ReadOp(Text(r), other) == Change(r.allow, r.name)
  {
    var w := Text(r);
    assert w[1..] == r.name;
    assert Lower(w)[0] == w[0];
    assert Lower(w)[1..] == Lower(w[1..]);
  }

  lemma {:induction false} ReadRules(log: seq<LogRule>, other: string -> bool)
    requires Lowered(log) && forall r :: r in log ==> r.name != "@all"
    ensures ReadOps(Texts(log), other) == LogOps(log)
  {
    if log != [] {
      assert log[0] in log;
      ReadRule(log[0], other);
      ReadRules(log[1..], other);
    }
  }

  /** A valid rule is not named like the category of all commands. */
  lemma NoAllRule(t: Table, log: seq<LogRule>)
    requires ValidTable(t) && ValidLog(t, log)
    ensures Lowered(log) && forall r :: r in log ==> r.name != "@all"
  {
    forall r | r in log ensures r.name != "@all" {
      assert ValidRule(t, r);
      assert "@all"[1..] == "all";
    }
  }

  /** What the string of a clean log rebuilds with a table t', when its rules were set with table t. */
  lemma StringRebuilds(t: Table, t': Table, v: View, other: string -> bool)
    requires ValidTable(t) && Faithful(t, v) && CleanNames(v.log)
    ensures (exists w :: Rebuilds(t', v, Join(v.log), other, w)) <==> ValidLog(t', v.log)
    ensures forall w :: Rebuilds(t', v, Join(v.log), other, w) ==> w.log == v.log && w.sem == ReplayLog(t', BaseOf(v), v.log)
  {
    LogStringSplits(v.log);
    NoAllRule(t, v.log);
    ReadRules(v.log, other);
    AcceptedIfValid(t', StartOf(v), v.log);
    assert [] + v.log == v.log;
    if ValidLog(t', v.log) {
      ReplayRest(t', StartOf(v), v.log);
      assert Rebuilds(t', v, Join(v.log), other, RunOps(t', StartOf(v), LogOps(v.log)));
    }
  }
}
