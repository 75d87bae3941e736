/**
  The class that keeps a selector as acl.c does: the bitmap, the first arguments, and the
  log as a string; and the numbering of the commands.
*/
module AclSelector {
  import opened Collections
  import opened AclRules
  import opened AclRuleString
  import opened AclRuns
  import opened AclMeaning
  import SplitArgs

  // ----- The string ----------------------------------------------------------------------

  function UpdatedString(rules: string, allow: bool, name: string): string {
    var kept := Glue(Staying(Pieces(rules), name));
    (if kept == "" then "" else kept + " ") + (if allow then "+" else "-") + name
  }

  function StringAfter(rules: string, op: Op): string {
    match op
    case AllCommands => ""
    case NoCommands => ""
    case Other(_) => rules
    case Change(allow, text) => UpdatedString(rules, allow, Lower(text))
  }

  function StringRun(rules: string, ops: seq<Op>): string
    decreases ops
  {
    if ops == [] then rules else StringRun(StringAfter(rules, ops[0]), ops[1..])
  }

  lemma LowerSpace(rule: string)
    ensures ' ' in Lower(rule) <==> ' ' in rule
  {
    assert forall i :: 0 <= i < |rule| ==> (Lower(rule)[i] == ' ' <==> rule[i] == ' ');
    if ' ' in rule {
      var i :| 0 <= i < |rule| && rule[i] == ' ';
      assert Lower(rule)[i] == ' ';
    }
  }

  /** Updating the string of a log is updating the log, as long as no name has a space. */
  lemma UpdatedInStep(log: seq<LogRule>, rule: string, allow: bool)
    ensures NoSpaces(log) ==>
      var next := UpdateLog(log, LogRule(allow, Lower(rule)));
      && UpdatedString(Join(log), allow, Lower(rule)) == Join(next)
      && (NoSpaces(next) <==> ' ' !in rule)
  {
    if NoSpaces(log) {
      var r := LogRule(allow, Lower(rule));
      var kept := Survivors(log, r.name);
      SurvivorsAre(log, r.name);
      LowerSpace(rule);
      RemovedFromLog(log, r.name);
      TextsAppend(kept, r);
      GlueLast(Texts(kept), Text(r));
      JoinEmpty(kept);
      assert r in kept + [r];
      Assoc(Before(Texts(kept)), if allow then "+" else "-", r.name);
    }
  }

  lemma JoinEmpty(log: seq<LogRule>)
    ensures Join(log) == "" <==> log == []
  {
    if log != [] { GlueNotEmpty(Texts(log)); }
  }

  lemma {:induction false} ReadOpsAt(words: seq<string>, other: string -> bool)
    ensures |ReadOps(words, other)| == |words| && forall i :: 0 <= i < |words| ==> ReadOps(words, other)[i] == ReadOp(words[i], other)
  {
    if words != [] { ReadOpsAt(words[1..], other); }
  }

  lemma TurnAccepted(t: Table, v: View, rules: string, ops: seq<Op>, i: nat)
    requires i < |ops|
    ensures var next := SetOp(t, v, ops[i]);
      && (AllAccepted(t, v, ops[i..]) <==> next.Some? && AllAccepted(t, next.value, ops[i + 1..]))
      && (next.Some? ==> RunOps(t, v, ops[i..]) == RunOps(t, next.value, ops[i + 1..]))
    ensures StringRun(rules, ops[i..]) == StringRun(StringAfter(rules, ops[i]), ops[i + 1..])
  {
    assert ops[i..][0] == ops[i] && ops[i..][1..] == ops[i + 1..];
  }

  lemma StringOfRule(done: seq<LogRule>, rest: seq<LogRule>)
    requires rest != [] && Compact(done + rest) && NoSpaces(done + rest) && Lowered(rest)
    ensures UpdatedString(Join(done), rest[0].allow, Lower(rest[0].name)) == Join(done + [rest[0]])
  {
    var r := rest[0];
    assert r in rest && forall x :: x in done ==> x in done + rest;
    CompactSplit(done, rest, r);
    SurvivorsAll(done, r.name);
    UpdatedInStep(done, r.name, r.allow);
  }

  /** Replaying the rules of a compact log builds its string again. */
  lemma {:induction false} StringOfLog(done: seq<LogRule>, rest: seq<LogRule>)
    requires Compact(done + rest) && NoSpaces(done + rest) && Lowered(rest)
    ensures StringRun(Join(done), LogOps(rest)) == Join(done + rest)
    decreases rest
  {
    if rest == [] {
      assert done + rest == done;
    } else {
      var r, ops := rest[0], LogOps(rest);
      assert ops[0] == Change(r.allow, r.name) && ops[1..] == LogOps(rest[1..]);
      assert done + [r] + rest[1..] == done + rest;
      StringOfRule(done, rest);
      StringOfLog(done + [r], rest[1..]);
    }
  }

  /** The string of a clean log, split, read and replayed, is itself. */
  lemma StringBuiltAgain(t: Table, log: seq<LogRule>, other: string -> bool)
    requires ValidTable(t) && ValidLog(t, log) && Compact(log) && NoSpaces(log) && CleanNames(log)
    ensures SplitArgs.Split(Join(log)).Some? && StringRun("", ReadOps(SplitArgs.Split(Join(log)).value, other)) == Join(log)
  {
    LogStringSplits(log);
    NoAllRule(t, log);
    ReadRules(log, other);
    assert [] + log == log;
    StringOfLog([], log);
  }

  function ArgsAt(firstArgs: map<nat, seq<string>>, id: nat): seq<string> { if id in firstArgs then firstArgs[id] else [] }

  /** The argument is there, in some spelling. */
  predicate Spelled(items: seq<string>, sub: string) { exists i :: 0 <= i < |items| && Lower(items[i]) == Lower(sub) }

  // ----- The selector itself -------------------------------------------------------------

  function SetBits(bits: set<nat>, ids: set<nat>, value: bool): set<nat> {
    if value then bits + InRange(ids) else bits - InRange(ids)
  }

  lemma SetBitsTwice(bits: set<nat>, a: set<nat>, b: set<nat>, value: bool)
    ensures SetBits(SetBits(bits, a, value), b, value) == SetBits(bits, a + b, value)
    ensures InRange(a + b) == {} <==> InRange(a) == {} && InRange(b) == {}
  {
    assert InRange(a + b) == InRange(a) + InRange(b);
  }

  ghost function ArgPairs(firstArgs: map<nat, seq<string>>): set<(nat, string)> {
    set id, a | id in firstArgs && a in firstArgs[id] :: (id, Lower(a))
  }

  ghost function IdsAmong(t: Table, names: set<string>, k: string): set<nat> {
    set c, i | c in names && c in t.commands && i in CatIds(t.commands[c], k) :: i
  }

  ghost function ClearsAmong(t: Table, names: set<string>, k: string): set<nat> {
    set c, i | c in names && c in t.commands && i in CatClears(t.commands[c], k) :: i
  }

  lemma IdsGrow(t: Table, names: set<string>, name: string, k: string)
    requires name in t.commands
    ensures IdsAmong(t, names + {name}, k) == IdsAmong(t, names, k) + CatIds(t.commands[name], k)
  {}

  lemma ClearsGrow(t: Table, names: set<string>, name: string, k: string)
    requires name in t.commands
    ensures ClearsAmong(t, names + {name}, k) == ClearsAmong(t, names, k) + CatClears(t.commands[name], k)
  {}

  lemma RemoveTwice(m: map<nat, seq<string>>, a: set<nat>, b: set<nat>)
    ensures (m - a) - b == m - (a + b)
  {}

  lemma AmongGrows(t: Table, names: set<string>, name: string, k: string, bits: set<nat>, allow: bool, args: map<nat, seq<string>>)
    requires name in t.commands
    ensures var ids, own, more := IdsAmong(t, names, k), CatIds(t.commands[name], k), IdsAmong(t, names + {name}, k);
      && SetBits(SetBits(bits, ids, allow), own, allow) == SetBits(bits, more, allow)
      && (InRange(more) == {} <==> InRange(ids) == {} && InRange(own) == {})
    ensures (args - ClearsAmong(t, names, k)) - CatClears(t.commands[name], k) == args - ClearsAmong(t, names + {name}, k)
  {
    IdsGrow(t, names, name, k);
    ClearsGrow(t, names, name, k);
    SetBitsTwice(bits, IdsAmong(t, names, k), CatIds(t.commands[name], k), allow);
    RemoveTwice(args, ClearsAmong(t, names, k), CatClears(t.commands[name], k));
  }

  lemma AmongAll(t: Table, k: string)
    ensures IdsAmong(t, t.commands.Keys, k) == TouchedIds(t, Cat(k))
    ensures ClearsAmong(t, t.commands.Keys, k) == ClearedIds(t, Cat(k))
    ensures IdsAmong(t, {}, k) == {} == ClearsAmong(t, {}, k)
  {}

  lemma NothingAmong(bits: set<nat>, allow: bool, args: map<nat, seq<string>>)
    ensures SetBits(bits, {}, allow) == bits && InRange({}) == {} && args - {} == args
  {}

  class Selector {
    var allowed: set<nat>
    var allCommands: bool
    var firstArgs: map<nat, seq<string>>
    var rules: string
    ghost var log: seq<LogRule>

    /** The string is the joined log. */
    ghost predicate InStep()
      reads this
    {
      rules == Join(log) && NoSpaces(log)
    }

    ghost function Value(): View
      reads this
    {
      View(Sem(allowed, ArgPairs(firstArgs)), allCommands, log)
    }

    /** `ACLCreateSelector`, as far as commands go. */
    constructor ()
      ensures InStep() && Value() == FRESH && rules == ""
    {
      allowed, allCommands, firstArgs, rules, log := {}, false, map[], "", [];
    }

    /** `ACLSetSelectorCommandBit`. */
    method SetBit(id: nat, value: bool)
      modifies this`allowed, this`allCommands
      ensures allowed == SetBits(old(allowed), {id}, value)
      ensures allCommands == (old(allCommands) && (value || InRange({id}) == {}))
    {
      if id >= BITS {
        return;
      }
      assert InRange({id}) == {id};
      if value {
        allowed := allowed + {id};
      } else {
        allowed := allowed - {id};
        allCommands := false;
      }
    }

    /** `ACLChangeSelectorPerm`: a command, and the subcommands it contains, if any. */
    method ChangePerm(id: nat, subs: map<string, Sub>, allow: bool)
      modifies this`allowed, this`allCommands, this`firstArgs
      ensures var ids := {id} + IdsOf(subs);
        && allowed == SetBits(old(allowed), ids, allow)
        && allCommands == (old(allCommands) && (allow || InRange(ids) == {}))
      ensures firstArgs == old(firstArgs) - {id}
    {
      SetBit(id, allow);
      firstArgs := firstArgs - {id};
      var todo := subs.Keys;
      ghost var ids := {id};
      while todo != {}
        invariant todo <= subs.Keys
        invariant ids == {id} + (set m | m in subs && m !in todo :: subs[m].id)
        invariant allowed == SetBits(old(allowed), ids, allow)
        invariant allCommands == (old(allCommands) && (allow || InRange(ids) == {}))
        invariant firstArgs == old(firstArgs) - {id}
        decreases todo
      {
        var m :| m in todo;
        SetBitsTwice(old(allowed), ids, {subs[m].id}, allow);
        SetBit(subs[m].id, allow);
        ids := ids + {subs[m].id};
        todo := todo - {m};
      }
      assert ids == {id} + IdsOf(subs);
    }

    /** The subcommands of one container in `ACLSetSelectorCommandBitsForCategory`. */
    method ChangeCategorySubs(c: Command, cat: string, allow: bool)
      modifies this`allowed, this`allCommands, this`firstArgs
      ensures allowed == SetBits(old(allowed), CatSubIds(c, cat), allow)
      ensures allCommands == (old(allCommands) && (allow || InRange(CatSubIds(c, cat)) == {}))
      ensures firstArgs == old(firstArgs) - CatSubIds(c, cat)
    {
      var subs := SubsOf(c);
      var todo := subs.Keys;
      ghost var ids: set<nat> := {};
      assert InRange(ids) == {};
      while todo != {}
        invariant todo <= subs.Keys
        invariant ids == set m | m in subs && m !in todo && cat in subs[m].cats :: subs[m].id
        invariant allowed == SetBits(old(allowed), ids, allow)
        invariant allCommands == (old(allCommands) && (allow || InRange(ids) == {}))
        invariant firstArgs == old(firstArgs) - ids
        decreases todo
      {
        var m :| m in todo;
        if cat in subs[m].cats {
          SetBitsTwice(old(allowed), ids, {subs[m].id}, allow);
          NoSubIds(subs[m].id);
          ChangePerm(subs[m].id, map[], allow);
          ids := ids + {subs[m].id};
        }
        todo := todo - {m};
      }
      assert ids == CatSubIds(c, cat);
    }

    /** One command in `ACLSetSelectorCommandBitsForCategory`. */
    method ChangeCategoryCommand(c: Command, cat: string, allow: bool)
      modifies this`allowed, this`allCommands, this`firstArgs
      ensures allowed == SetBits(old(allowed), CatIds(c, cat), allow)
      ensures allCommands == (old(allCommands) && (allow || InRange(CatIds(c, cat)) == {}))
      ensures firstArgs == old(firstArgs) - CatClears(c, cat)
    {
      if cat in c.cats {
        SetBitsTwice(allowed, WholeIds(c), CatSubIds(c, cat), allow);
        ChangePerm(c.id, SubsOf(c), allow);
      } else {
        assert CatIds(c, cat) == CatSubIds(c, cat);
      }
      ChangeCategorySubs(c, cat, allow);
    }

    /** `ACLSetSelectorCommandBitsForCategory`. */
    method ChangeCategory(t: Table, cat: string, allow: bool)
      modifies this`allowed, this`allCommands, this`firstArgs
      ensures allowed == SetBits(old(allowed), TouchedIds(t, Cat(cat)), allow)
      ensures allCommands == (old(allCommands) && (allow || InRange(TouchedIds(t, Cat(cat))) == {}))
      ensures firstArgs == old(firstArgs) - ClearedIds(t, Cat(cat))
      ensures forall id: nat :: id in allowed <==> if id < BITS && InCategory(t, cat, id) then allow else id in old(allowed)
      ensures forall id: nat :: id in firstArgs <==> id in old(firstArgs) && !NamedByCategory(t, cat, id)
    {
      var todo := t.commands.Keys;
      ghost var done: set<string> := {};
      AmongAll(t, cat);
      NothingAmong(allowed, allow, firstArgs);
      while todo != {}
        invariant todo + done == t.commands.Keys && todo !! done
        invariant allowed == SetBits(old(allowed), IdsAmong(t, done, cat), allow)
        invariant allCommands == (old(allCommands) && (allow || InRange(IdsAmong(t, done, cat)) == {}))
        invariant firstArgs == old(firstArgs) - ClearsAmong(t, done, cat)
        decreases todo
      {
        var name :| name in todo;
        AmongGrows(t, done, name, cat, old(allowed), allow, old(firstArgs));
        ChangeCategoryCommand(t.commands[name], cat, allow);
        todo, done := todo - {name}, done + {name};
      }
      assert done == t.commands.Keys;
      forall id: nat
        ensures id in TouchedIds(t, Cat(cat)) <==> InCategory(t, cat, id)
        ensures id in ClearedIds(t, Cat(cat)) <==> NamedByCategory(t, cat, id)
      {
        CategoryIdsAre(t, cat, id);
      }
    }

    /** `ACLAddAllowedFirstArg`: appends the argument unless it is there in some spelling. */
    method AddFirstArg(id: nat, sub: string)
      modifies this`firstArgs
      ensures var items := ArgsAt(old(firstArgs), id);
        firstArgs == if Spelled(items, sub) then old(firstArgs) else old(firstArgs)[id := items + [sub]]
      ensures ArgPairs(firstArgs) == ArgPairs(old(firstArgs)) + {(id, Lower(sub))}
    {
      var items := ArgsAt(firstArgs, id);
      var i := 0;
      while i < |items|
        invariant 0 <= i <= |items| && forall k :: 0 <= k < i ==> Lower(items[k]) != Lower(sub)
      {
        if Lower(items[i]) == Lower(sub) {
          assert items[i] in firstArgs[id];
          assert (id, Lower(items[i])) in ArgPairs(firstArgs);
          return;
        }
        i := i + 1;
      }
      ArgPairsGrow(firstArgs, id, items, sub);
      firstArgs := firstArgs[id := items + [sub]];
    }

    /** `ACLUpdateCommandRules`. A rule with a space is where string and log part. */
    method UpdateRules(rule: string, allow: bool)
      modifies this`rules, this`log
      ensures rules == UpdatedString(old(rules), allow, Lower(rule))
      ensures log == UpdateLog(old(log), LogRule(allow, Lower(rule)))
      ensures old(InStep()) ==> (InStep() <==> ' ' !in rule)
    {
      var name := Lower(rule);
      UpdatedInStep(log, rule, allow);
      rules := RemoveRule(rules, name);
      if |rules| != 0 {
        rules := rules + " ";
      }
      rules := rules + (if allow then "+" else "-") + name;
      log := UpdateLog(log, LogRule(allow, name));
    }

    /** A rule about a whole command or one subcommand: `ACLChangeSelectorPerm`, `ACLUpdateCommandRules`. */
    method SetCommand(t: Table, found: Target, text: string, allow: bool)
      requires Lookup(t, Lower(text)) == Some(found)
      modifies this
      ensures Value() == Changed(t, old(Value()), allow, found, Lower(text))
      ensures rules == UpdatedString(old(rules), allow, Lower(text))
    {
      var c := t.commands[found.cmd];
      if found.Whole? {
        ChangePerm(c.id, SubsOf(c), allow);
        ClearedArgs(old(firstArgs), {c.id});
      } else {
        var id := SubsOf(c)[found.sub].id;
        ChangePerm(id, map[], allow);
        ClearedArgs(old(firstArgs), {id});
        NoSubIds(id);
      }
      UpdateRules(text, allow);
    }

    /** `ACLSetSelectorCategory`. */
    method SetCategory(t: Table, text: string, allow: bool) returns (v: Verdict)
      requires IsCategory(Lower(text))
      modifies this
      ensures v == Judge(t, allow, Lower(text))
      ensures v == Fine ==> Value() == Changed(t, old(Value()), allow, Cat(Lower(text)[1..]), Lower(text))
      ensures v == Fine ==> rules == UpdatedString(old(rules), allow, Lower(text))
      ensures v != Fine ==> Value() == old(Value()) && rules == old(rules)
    {
      var cat := Lower(text)[1..];
      if cat !in t.categories {
        return NoEntry;
      }
      UpdateRules(text, allow);
      ChangeCategory(t, cat, allow);
      ClearedArgs(old(firstArgs), ClearedIds(t, Cat(cat)));
      return Fine;
    }

    /** A first argument: `ACLAddAllowedFirstArg`. The argument keeps its spelling; the log has it in lower case. */
    method AllowFirstArg(t: Table, text: string, bar: nat)
      requires bar < |text| && Lower(text)[..bar] in t.commands
      modifies this
      ensures Value() == Changed(t, old(Value()), true, Arg(Lower(text)[..bar], Lower(text)[bar + 1..]), Lower(text))
      ensures rules == UpdatedString(old(rules), true, Lower(text))
    {
      AddFirstArg(t.commands[Lower(text)[..bar]].id, text[bar + 1..]);
      assert Lower(text[bar + 1..]) == Lower(text)[bar + 1..];
      NothingCleared(old(firstArgs));
      UpdateRules(text, true);
    }

    /** A subcommand, or a first argument of a command without subcommands. */
    method AllowKnownPart(t: Table, text: string, bar: nat) returns (ok: bool)
      requires LastBar(Lower(text)) == Some(bar) && bar < |text| && Lower(text)[..bar] in t.commands
      modifies this
      ensures ok <==> t.commands[Lower(text)[..bar]].subs.None? || Lookup(t, Lower(text)).Some?
      ensures !ok ==> Value() == old(Value()) && rules == old(rules)
      ensures ok ==> Value() == Changed(t, old(Value()), true, PartOrArg(t, Lower(text), bar), Lower(text))
      ensures ok ==> rules == UpdatedString(old(rules), true, Lower(text))
    {
      if t.commands[Lower(text)[..bar]].subs.None? {
        AllowFirstArg(t, text, bar);
        return true;
      }
      var found := Lookup(t, Lower(text));
      if found.None? {
        return false;
      }
      SetCommand(t, found.value, text, true);
      return true;
    }

    /** A rule with a '|' and a plus sign. */
    method AllowPart(t: Table, text: string, bar: nat) returns (v: Verdict)
      requires ValidTable(t) && LastBar(Lower(text)) == Some(bar) && bar < |text| && !IsCategory(Lower(text))
      modifies this
      ensures v == Judge(t, true, Lower(text))
      ensures v != Fine ==> Value() == old(Value()) && rules == old(rules)
      ensures v == Fine ==> Value() == Changed(t, old(Value()), true, PartOrArg(t, Lower(text), bar), Lower(text))
      ensures v == Fine ==> rules == UpdatedString(old(rules), true, Lower(text))
    {
      var base := Lower(text)[..bar];
      var cmd := Lookup(t, base);
      if cmd.None? {
        return NoEntry;
      }
      if cmd.value.Part? {
        return ChildArg;
      }
      LookupWhole(t, base);
      if bar + 1 == |text| {
        return Invalid;
      }
      var ok := AllowKnownPart(t, text, bar);
      return if ok then Fine else NoEntry;
    }

    /** The two resets. */
    method Reset(all: bool)
      modifies this
      ensures Value() == View(Base(all), all, []) && rules == "" && InStep()
    {
      assert ArgPairs(map[]) == {};
      allowed, allCommands, rules, firstArgs := if all then AllBits() else {}, all, "", map[];
      log := [];
    }

    method SetChange(t: Table, allow: bool, text: string) returns (v: Verdict)
      requires ValidTable(t)
      modifies this
      ensures v == Judge(t, allow, Lower(text))
      ensures v == Fine <==> Accepted(t, allow, Lower(text))
      ensures v == Fine ==> Value() == Changed(t, old(Value()), allow, Resolve(t, Lower(text)).value, Lower(text))
      ensures v == Fine ==> rules == UpdatedString(old(rules), allow, Lower(text))
      ensures v != Fine ==> Value() == old(Value()) && rules == old(rules)
    {
      var name := Lower(text);
      JudgeAccepts(t, allow, name);
      if IsCategory(name) {
        v := SetCategory(t, text, allow);
        return;
      }
      LookupResolves(t, name);
      LastBarIs(name);
      var bar := LastBar(name);
      if allow && bar.Some? {
        JudgeBar(t, name, bar.value);
        v := AllowPart(t, text, bar.value);
        return;
      }
      var found := Lookup(t, name);
      if found.None? {
        return NoEntry;
      }
      SetCommand(t, found.value, text, allow);
      return Fine;
    }

    /** `ACLSetSelector`: the command branches, and any other operation as one that leaves the commands alone. */
    method SetSelector(t: Table, op: Op) returns (v: Verdict)
      requires ValidTable(t)
      modifies this
      ensures v == (if op.Change? then Judge(t, op.allow, Lower(op.text)) else if op == Other(false) then Refused else Fine)
      ensures SetOp(t, old(Value()), op) == if v == Fine then Some(Value()) else None
      ensures rules == if v == Fine then StringAfter(old(rules), op) else old(rules)
      ensures v != Fine ==> Value() == old(Value())
      ensures old(InStep()) ==> (InStep() <==> v != Fine || !op.Change? || ' ' !in op.text)
    {
      if op.Change? { UpdatedInStep(log, op.text, op.allow); }
      match op
      case AllCommands =>
        Reset(true);
        return Fine;
      case NoCommands =>
        Reset(false);
        return Fine;
      case Other(accepted) =>
        return if accepted then Fine else Refused;
      case Change(allow, text) =>
        v := SetChange(t, allow, text);
    }

    method ReplayWord(t: Table, word: string, other: string -> bool) returns (ok: bool)
      requires ValidTable(t)
      modifies this
      ensures var next := SetOp(t, old(Value()), ReadOp(word, other)); if ok then next == Some(Value()) else next.None?
      ensures ok ==> rules == StringAfter(old(rules), ReadOp(word, other))
    {
      var verdict := SetSelector(t, ReadOp(word, other));
      return verdict == Fine;
    }

    /** The loop of `ACLDescribeSelectorCommandRules` and of the recomputation, up to the first refused word. */
    method Replay(t: Table, words: seq<string>, other: string -> bool) returns (ok: bool)
      requires ValidTable(t)
      modifies this
      ensures ok <==> AllAccepted(t, old(Value()), ReadOps(words, other))
      ensures ok ==> Value() == RunOps(t, old(Value()), ReadOps(words, other)) && rules == StringRun(old(rules), ReadOps(words, other))
    {
      ghost var ops, start, now := ReadOps(words, other), Value(), Value();
      ReadOpsAt(words, other);
      assert ops[0..] == ops;
      var i := 0;
      while i < |words|
        invariant 0 <= i <= |words| == |ops| && now == Value()
        invariant AllAccepted(t, start, ops) <==> AllAccepted(t, now, ops[i..])
        invariant RunOps(t, start, ops) == RunOps(t, now, ops[i..])
        invariant StringRun(old(rules), ops) == StringRun(rules, ops[i..])
      {
        TurnAccepted(t, now, rules, ops, i);
        ok := ReplayWord(t, words[i], other);
        if !ok { return; }
        now := Value();
        i := i + 1;
      }
      assert ops[i..] == [];
      return true;
    }

    /** A scratch selector is rebuilt from the string: is its bitmap the same? */
    method RebuildsSame(t: Table, other: string -> bool) returns (same: bool)
      requires ValidTable(t)
      ensures same <==> exists w :: Rebuilds(t, Value(), rules, other, w) && w.sem.bits == allowed
    {
      var words := SplitArgs.Split(rules);
      if words.None? { return false; }
      var fake := new Selector();
      fake.Reset(RESERVED in allowed);
      var ok := fake.Replay(t, words.value, other);
      if ok { assert Rebuilds(t, Value(), rules, other, fake.Value()); }
      return ok && fake.allowed == allowed;
    }

    /**
      `ACLDescribeSelectorCommandRules`: the rules as text, after rebuilding the bitmap from the string on a
      scratch selector; nothing when an assertion fails or the bitmap differs. With a log in step with the
      string, set with this table and without blanks and quotes, that never happens.
    */
    method Describe(t: Table, other: string -> bool) returns (text: Option<string>)
      requires ValidTable(t)
      ensures text.Some? <==> exists w :: Rebuilds(t, Value(), rules, other, w) && w.sem.bits == allowed
      ensures text.Some? ==> text.value == (if RESERVED in allowed then "+@all" else "-@all") + (if rules == "" then "" else " " + rules)
      ensures InStep() && Faithful(t, Value()) && CleanNames(log) ==> text.Some? && Describes(t, text.value, Value(), other)
    {
      ghost var v := Value();
      if Faithful(t, v) && CleanNames(v.log) {
        StringRebuilds(t, t, v, other);
        DescriptionRebuilds(t, v, other);
        JoinEmpty(v.log);
      }
      var same := RebuildsSame(t, other);
      if !same { return None; }
      var all := if RESERVED in allowed then "+@all" else "-@all";
      return Some(if |rules| == 0 then all else all + " " + rules);
    }

    /**
      `ACLRecomputeCommandBitsFromCommandRulesAllUsers`, for one selector, with the table t' there is now;
      ok says whether every assertion holds. For rules set with an earlier table t, in step with their string
      and without blanks and quotes, it is ok exactly if every rule still denotes something, and then the
      string stays as it is and the bitmap is what it means now.
    */
    method Recompute(t': Table, other: string -> bool, ghost t: Table) returns (ok: bool)
      requires ValidTable(t')
      modifies this
      ensures ok <==> exists w :: Rebuilds(t', old(Value()), old(rules), other, w)
      ensures ok ==> Rebuilds(t', old(Value()), old(rules), other, Value())
      ensures ValidTable(t) && old(InStep()) && Faithful(t, old(Value())) && CleanNames(old(log)) ==>
        && (ok <==> ValidLog(t', old(log)))
        && (ok ==> rules == old(rules) && log == old(log) && Value().sem == ReplayLog(t', BaseOf(old(Value())), log))
    {
      ghost var was, string_ := Value(), rules;
      ghost var clean := ValidTable(t) && InStep() && Faithful(t, was) && CleanNames(log);
      if clean {
        StringRebuilds(t, t', was, other);
        StringBuiltAgain(t, log, other);
      }
      var words := SplitArgs.Split(rules);
      if words.None? { return false; }
      Reset(RESERVED in allowed);
      ok := Replay(t', words.value, other);
      if ok { assert Rebuilds(t', was, string_, other, Value()); }
    }
  }

  /** The outcome of a rule: C_OK, ENOENT, ECHILD or EINVAL; or an operation of another kind is refused. */
  datatype Verdict = Fine | NoEntry | ChildArg | Invalid | Refused

  /** `ACLLookupCommand`: a command, or one subcommand after a single '|'. */
  function Lookup(t: Table, name: string): (r: Option<Target>)
    ensures r.Some? ==> (r.value.Whole? || r.value.Part?) && r.value.cmd in t.commands
    ensures r.Some? && r.value.Part? ==> r.value.sub in SubsOf(t.commands[r.value.cmd])
  {
    match LastBar(name)
    case None => if name in t.commands then Some(Whole(name)) else None
    case Some(i) =>
      if i < |name| && name[..i] in t.commands && name[i + 1..] in SubsOf(t.commands[name[..i]])
      then Some(Part(name[..i], name[i + 1..])) else None
  }

  /** How `ACLSetSelector` judges a rule name in lower case, in the order it checks. */
  function Judge(t: Table, allow: bool, name: string): Verdict {
    if IsCategory(name) then
      if name[1..] in t.categories then Fine else NoEntry
    else
      var bar := LastBar(name);
      if !allow || bar.None? || bar.value >= |name| then
        if Lookup(t, name).Some? then Fine else NoEntry
      else JudgePart(t, Lookup(t, name[..bar.value]), name[bar.value + 1..] == [], Lookup(t, name).Some?)
  }

  predicate IsCategory(name: string) { name != [] && name[0] == '@' }

  /** ... for an added rule with a '|': what was found before it, whether nothing follows, whether all of it was found. */
  function JudgePart(t: Table, cmd: Option<Target>, nothing: bool, found: bool): Verdict {
    if cmd.None? then NoEntry
    else if !cmd.value.Whole? then ChildArg
    else if nothing then Invalid
    else if cmd.value.cmd in t.commands && t.commands[cmd.value.cmd].subs.Some? && !found then NoEntry
    else Fine
  }

  lemma LookupWhole(t: Table, name: string)
    requires ValidTable(t) && Lookup(t, name).Some? && Lookup(t, name).value.Whole?
    ensures Lookup(t, name).value == Whole(name) && name in t.commands
  {}

  lemma LookupResolves(t: Table, name: string)
    requires ValidTable(t) && !IsCategory(name)
    ensures Lookup(t, name) == (if Resolve(t, name).Some? && !Resolve(t, name).value.Arg? then Resolve(t, name) else None)
  {
    LastBarIs(name);
  }

  /** What a name with a '|' denotes: a subcommand, or a first argument. */
  function PartOrArg(t: Table, name: string, bar: nat): Target
    requires bar < |name|
  {
    var base, sub := name[..bar], name[bar + 1..];
    if base in t.commands && t.commands[base].subs.Some? then Part(base, sub) else Arg(base, sub)
  }

  lemma LookupBase(t: Table, base: string)
    requires ValidTable(t)
    ensures Lookup(t, base) == Some(Whole(base)) <==> base in t.commands
    ensures Lookup(t, base).Some? && Lookup(t, base).value.Whole? ==> base in t.commands
  {
    LastBarIs(base);
  }

  lemma ResolveBar(t: Table, name: string, bar: nat)
    requires LastBar(name) == Some(bar) && bar < |name| && name[0] != '@'
    ensures var base, sub := name[..bar], name[bar + 1..];
      && (Resolve(t, name).Some? <==>
           base in t.commands && sub != [] && (t.commands[base].subs.Some? ==> sub in t.commands[base].subs.value))
      && (Resolve(t, name).Some? ==> Resolve(t, name).value == PartOrArg(t, name, bar))
      && (Lookup(t, name).Some? <==> base in t.commands && sub in SubsOf(t.commands[base]))
  {}

  lemma JudgeBar(t: Table, name: string, bar: nat)
    requires ValidTable(t) && LastBar(name) == Some(bar) && bar < |name| && !IsCategory(name)
    ensures Judge(t, true, name) == Fine <==> Resolve(t, name).Some?
    ensures Judge(t, true, name) == Fine ==> Resolve(t, name) == Some(PartOrArg(t, name, bar))
  {
    LookupBase(t, name[..bar]);
    ResolveBar(t, name, bar);
    JudgePartFine(t, name[..bar], name[bar + 1..], Lookup(t, name[..bar]), Lookup(t, name).Some?);
  }

  lemma JudgePartFine(t: Table, base: string, sub: string, cmd: Option<Target>, found: bool)
    requires cmd.Some? && cmd.value.Whole? <==> base in t.commands
    requires base in t.commands ==> cmd == Some(Whole(base))
    requires found <==> base in t.commands && sub in SubsOf(t.commands[base])
    ensures JudgePart(t, cmd, sub == [], found) == Fine <==>
      base in t.commands && sub != [] && (t.commands[base].subs.Some? ==> sub in t.commands[base].subs.value)
  {}

  /** A rule is accepted exactly when it denotes something, and a first argument is only ever allowed. */
  lemma JudgeAccepts(t: Table, allow: bool, name: string)
    requires ValidTable(t)
    ensures Judge(t, allow, name) == Fine <==> Accepted(t, allow, name)
  {
    LastBarIs(name);
    if !IsCategory(name) {
      LookupResolves(t, name);
      if allow && LastBar(name).Some? { JudgeBar(t, name, LastBar(name).value); }
    }
  }

  // ----- Verdicts, said of the command table ---------------------------------------------------

  lemma CategoryVerdict(t: Table, allow: bool, k: string)
    ensures Judge(t, allow, "@" + k) == if k in t.categories then Fine else NoEntry
  {
    assert ("@" + k)[1..] == k;
  }

  lemma CommandVerdict(t: Table, allow: bool, name: string)
    requires !IsCategory(name) && '|' !in name
    ensures Judge(t, allow, name) == if name in t.commands then Fine else NoEntry
  {
    LastBarIs(name);
  }

  /** The name of a subcommand of some command, with its '|'. */
  ghost predicate NamesSub(t: Table, name: string) { exists a, b :: HasSub(t, a, b) && name == a + "|" + b }

  lemma SubFound(t: Table, a: string, b: string)
    requires ValidTable(t) && HasSub(t, a, b)
    ensures Lookup(t, a + "|" + b) == Some(Part(a, b))
  {
    var name := a + "|" + b;
    assert ValidCommand(t.commands[a]) && b in SubsOf(t.commands[a]);
    BarAt(a, b);
    assert name[..|a|] == a && name[|a| + 1..] == b;
  }

  lemma FoundSub(t: Table, name: string)
    requires Lookup(t, name).Some? && Lookup(t, name).value.Part?
    ensures NamesSub(t, name)
  {
    LastBarIs(name);
    var i := LastBar(name).value;
    assert HasSub(t, name[..i], name[i + 1..]) && name == name[..i] + "|" + name[i + 1..];
  }

  lemma LookupSub(t: Table, name: string)
    requires ValidTable(t)
    ensures Lookup(t, name).Some? && Lookup(t, name).value.Part? <==> NamesSub(t, name)
  {
    if a, b :| HasSub(t, a, b) && name == a + "|" + b { SubFound(t, a, b); }
    if Lookup(t, name).Some? && Lookup(t, name).value.Part? { FoundSub(t, name); }
  }

  /** A rule with a '|'. Forbidding needs a subcommand. Allowing needs a command before the '|', not a subcommand, something
      after it, and, if the command has a table of subcommands, a subcommand. */
  lemma PartVerdict(t: Table, allow: bool, c: string, m: string)
    requires ValidTable(t) && '|' !in m && !IsCategory(c + "|" + m)
    ensures Judge(t, allow, c + "|" + m) ==
      if !allow then (if HasSub(t, c, m) then Fine else NoEntry)
      else if c in t.commands then
        (if m == "" then Invalid else if t.commands[c].subs.Some? && !HasSub(t, c, m) then NoEntry else Fine)
      else if NamesSub(t, c) then ChildArg else NoEntry
  {
    var name := c + "|" + m;
    BarAt(c, m);
    assert name[..|c|] == c && name[|c| + 1..] == m;
    LookupSub(t, c);
    LookupBase(t, c);
    ResolveBar(t, name, |c|);
  }

  lemma NoSubIds(id: nat)
    ensures {id} + IdsOf(map[]) == {id}
  {}

  lemma NothingCleared(m: map<nat, seq<string>>)
    ensures (set p | p in ArgPairs(m) && p.0 !in {}) == ArgPairs(m)
  {}

  lemma ClearedArgs(m: map<nat, seq<string>>, ids: set<nat>)
    ensures ArgPairs(m - ids) == set p | p in ArgPairs(m) && p.0 !in ids
  {
    forall p | p in ArgPairs(m) && p.0 !in ids ensures p in ArgPairs(m - ids) {
      var i, a :| i in m && a in m[i] && p == (i, Lower(a));
      assert i in m - ids && a in (m - ids)[i];
    }
  }

  lemma ArgPairsGrow(m: map<nat, seq<string>>, id: nat, items: seq<string>, sub: string)
    requires items == if id in m then m[id] else []
    ensures ArgPairs(m[id := items + [sub]]) == ArgPairs(m) + {(id, Lower(sub))}
  {
    var m' := m[id := items + [sub]];
    forall p | p in ArgPairs(m) ensures p in ArgPairs(m') {
      var i, a :| i in m && a in m[i] && p == (i, Lower(a));
      assert i in m' && a in m'[i];
    }
    assert id in m' && sub in m'[id];
    forall p | p in ArgPairs(m') ensures p in ArgPairs(m) + {(id, Lower(sub))} {
      var i, a :| i in m' && a in m'[i] && p == (i, Lower(a));
      if i != id || a in items { assert i in m && a in m[i]; }
    }
  }

  // ----- Command identifiers ----------------------------------------------------------------

  /** `ACLGetCommandID`: sequential ids, one per name, skipping the reserved one. */
  class CommandIds {
    var ids: map<string, nat>
    var nextId: nat

    ghost predicate Valid()
      reads this
    {
      && nextId != RESERVED
      && (forall n :: n in ids ==> ids[n] < nextId && ids[n] != RESERVED)
      && (forall n, m :: n in ids && m in ids && ids[n] == ids[m] ==> n == m)
    }

    constructor ()
      ensures Valid() && ids == map[]
    {
      ids, nextId := map[], 0;
    }

    method GetId(name: string) returns (id: nat)
      requires Valid()
      modifies this
      ensures Valid() && Lower(name) in ids && ids[Lower(name)] == id && id != RESERVED
      ensures forall n :: n in old(ids) ==> n in ids && ids[n] == old(ids)[n]
      ensures ids.Keys == old(ids).Keys + {Lower(name)}
    {
      var lower := Lower(name);
      if lower in ids {
        return ids[lower];
      }
      id := nextId;
      ids := ids[lower := id];
      nextId := nextId + 1;
      if nextId == RESERVED {
        nextId := nextId + 1;
      }
    }
  }

  ghost predicate CleanNamesOf(t: Table) {
    && (forall n :: n in t.commands ==> CleanName(n) && forall m :: m in SubsOf(t.commands[n]) ==> CleanName(m))
    && (forall k :: k in t.categories ==> '|' !in k && Lower(k) == k && k != "all")
  }

  /** Every command has the number of its name, every subcommand that of its full name. */
  ghost predicate Numbered(t: Table, ids: map<string, nat>) {
    forall n :: n in t.commands ==>
      && n in ids && t.commands[n].id == ids[n]
      && forall m :: m in SubsOf(t.commands[n]) ==> n + "|" + m in ids && SubsOf(t.commands[n])[m].id == ids[n + "|" + m]
  }

  lemma FullNames(n: string, m: string, n': string, m': string)
    requires '|' !in n && '|' !in n'
    ensures n + "|" + m != n' && (n + "|" + m == n' + "|" + m' ==> n == n' && m == m')
  {
    var a, b := n + "|" + m, n' + "|" + m';
    FirstBar(n, m);
    FirstBar(n', m');
    assert '|' in a;
    assert a == b ==> |n| == |n'|;
    assert a[..|n|] == n && a[|n| + 1..] == m && b[..|n'|] == n' && b[|n'| + 1..] == m';
  }

  lemma FirstBar(n: string, m: string)
    requires '|' !in n
    ensures var a := n + "|" + m; a[|n|] == '|' && forall i :: 0 <= i < |n| ==> a[i] != '|'
  {}

  /** Numbers given out by `ACLGetCommandID` make a valid table: they are distinct, for subcommands too, and none
      is the reserved one. */
  lemma NumbersMakeValidTable(c: CommandIds, t: Table)
    requires c.Valid() && CleanNamesOf(t) && Numbered(t, c.ids)
    ensures ValidTable(t)
    ensures forall n, m, n', m' :: n in t.commands && m in SubsOf(t.commands[n]) && n' in t.commands && m' in SubsOf(t.commands[n']) ==>
      SubsOf(t.commands[n])[m].id == SubsOf(t.commands[n'])[m'].id ==> n == n' && m == m'
  {
    forall n, n', m' | n in t.commands && n' in t.commands && m' in SubsOf(t.commands[n'])
      ensures t.commands[n].id != SubsOf(t.commands[n'])[m'].id
    {
      FullNames(n', m', n, "");
    }
    forall n, m, n', m' | n in t.commands && m in SubsOf(t.commands[n]) && n' in t.commands && m' in SubsOf(t.commands[n'])
      ensures SubsOf(t.commands[n])[m].id == SubsOf(t.commands[n'])[m'].id ==> n == n' && m == m'
    {
      FullNames(n, m, n', m');
    }
  }
}
