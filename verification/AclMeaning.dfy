/**
  What each kind of ACL rule (acl.c, `ACLSetSelector`) does to the bitmap and the first arguments,
  said of the command table itself.
*/
module AclMeaning {
  import opened Collections
  import opened AclRules
  import opened AclRuleString
  import opened AclRuns
  import SplitArgs

  /** The subcommand m of command c. */
  predicate HasSub(t: Table, c: string, m: string) {
    c in t.commands && t.commands[c].subs.Some? && m in t.commands[c].subs.value
  }

  function SubAt(t: Table, c: string, m: string): Sub
    requires HasSub(t, c, m)
  {
    t.commands[c].subs.value[m]
  }

  /** The id of a command, or of one of its subcommands. */
  ghost predicate IdWithin(t: Table, c: string, id: nat)
    requires c in t.commands
  {
    id == t.commands[c].id || exists m :: HasSub(t, c, m) && id == SubAt(t, c, m).id
  }

  /** The id of a command in the category, or of any subcommand of such a command, or of a subcommand that is in the
      category itself. */
  ghost predicate InCategory(t: Table, k: string, id: nat) {
    || (exists c :: c in t.commands && k in t.commands[c].cats && IdWithin(t, c, id))
    || (exists c, m :: HasSub(t, c, m) && k in SubAt(t, c, m).cats && id == SubAt(t, c, m).id)
  }

  /** The id of a command or subcommand that is in the category itself. */
  ghost predicate NamedByCategory(t: Table, k: string, id: nat) {
    || (exists c :: c in t.commands && k in t.commands[c].cats && id == t.commands[c].id)
    || (exists c, m :: HasSub(t, c, m) && k in SubAt(t, c, m).cats && id == SubAt(t, c, m).id)
  }

  lemma WholeIdsAre(t: Table, c: string, id: nat)
    requires c in t.commands
    ensures id in WholeIds(t.commands[c]) <==> IdWithin(t, c, id)
  {
    if exists m :: HasSub(t, c, m) && id == SubAt(t, c, m).id {
      var m :| HasSub(t, c, m) && id == SubAt(t, c, m).id;
      assert m in SubsOf(t.commands[c]) && SubsOf(t.commands[c])[m].id == id;
    }
    if id in IdsOf(SubsOf(t.commands[c])) {
      var m :| m in SubsOf(t.commands[c]) && SubsOf(t.commands[c])[m].id == id;
      assert HasSub(t, c, m) && SubAt(t, c, m).id == id;
    }
  }

  lemma CatSubIdsAre(t: Table, c: string, k: string, id: nat)
    requires c in t.commands
    ensures id in CatSubIds(t.commands[c], k) <==> exists m :: HasSub(t, c, m) && k in SubAt(t, c, m).cats && id == SubAt(t, c, m).id
  {
    if exists m :: HasSub(t, c, m) && k in SubAt(t, c, m).cats && id == SubAt(t, c, m).id {
      var m :| HasSub(t, c, m) && k in SubAt(t, c, m).cats && id == SubAt(t, c, m).id;
      assert m in SubsOf(t.commands[c]) && SubsOf(t.commands[c])[m] == SubAt(t, c, m);
    }
    if id in CatSubIds(t.commands[c], k) {
      var m :| m in SubsOf(t.commands[c]) && k in SubsOf(t.commands[c])[m].cats && SubsOf(t.commands[c])[m].id == id;
      assert HasSub(t, c, m) && SubAt(t, c, m) == SubsOf(t.commands[c])[m];
    }
  }

  /** The ids a category rule sets, and those it resets first arguments for. */
  lemma CategoryIdsAre(t: Table, k: string, id: nat)
    ensures id in TouchedIds(t, Cat(k)) <==> InCategory(t, k, id)
    ensures id in ClearedIds(t, Cat(k)) <==> NamedByCategory(t, k, id)
  {
    forall c | c in t.commands
      ensures id in WholeIds(t.commands[c]) <==> IdWithin(t, c, id)
      ensures id in CatSubIds(t.commands[c], k) <==> exists m :: HasSub(t, c, m) && k in SubAt(t, c, m).cats && id == SubAt(t, c, m).id
    {
      WholeIdsAre(t, c, id);
      CatSubIdsAre(t, c, k, id);
    }
    if id in TouchedIds(t, Cat(k)) {
      var c :| c in t.commands && id in CatIds(t.commands[c], k);
    }
    if InCategory(t, k, id) {
      var c :| c in t.commands && ((k in t.commands[c].cats && IdWithin(t, c, id)) || id in CatSubIds(t.commands[c], k));
      assert id in CatIds(t.commands[c], k);
    }
    if NamedByCategory(t, k, id) {
      var c :| c in t.commands && ((k in t.commands[c].cats && id == t.commands[c].id) || id in CatSubIds(t.commands[c], k));
      assert id in CatClears(t.commands[c], k);
    }
  }

  // ----- One rule ------------------------------------------------------------------------------

  /**
    A category rule is accepted if there is the category. It allows or forbids every command in the category with all
    its subcommands, and every subcommand that is in it itself, and leaves all other bits alone; the first arguments
    of exactly the commands and subcommands that are in it themselves are dropped.
  */
  lemma CategoryRule(t: Table, v: View, allow: bool, text: string, k: string, id: nat, p: (nat, string))
    requires Lower(text) == "@" + k
    ensures var w := SetOp(t, v, Change(allow, text));
      && (w.Some? <==> k in t.categories)
      && (w.Some? ==> (id in w.value.sem.bits <==> if id < BITS && InCategory(t, k, id) then allow else id in v.sem.bits))
      && (w.Some? ==> (p in w.value.sem.args <==> p in v.sem.args && !NamedByCategory(t, k, p.0)))
      && (w.Some? && allow ==> w.value.all == v.all)
      && (w.Some? && !allow && id < BITS && InCategory(t, k, id) ==> !w.value.all)
  {
    assert Lower(text)[0] == '@' && Lower(text)[1..] == k;
    CategoryIdsAre(t, k, id);
    CategoryIdsAre(t, k, p.0);
  }

  /** A command rule allows or forbids the command with all its subcommands, and drops its first arguments. */
  lemma CommandRule(t: Table, v: View, allow: bool, text: string, id: nat, p: (nat, string))
    requires text != [] && Lower(text)[0] != '@' && '|' !in Lower(text)
    ensures var w, c := SetOp(t, v, Change(allow, text)), Lower(text);
      && (w.Some? <==> c in t.commands)
      && (w.Some? ==> (id in w.value.sem.bits <==> if id < BITS && IdWithin(t, c, id) then allow else id in v.sem.bits))
      && (w.Some? ==> (p in w.value.sem.args <==> p in v.sem.args && p.0 != t.commands[c].id))
      && (w.Some? && allow ==> w.value.all == v.all)
      && (w.Some? && !allow && id < BITS && IdWithin(t, c, id) ==> !w.value.all)
  {
    LastBarIs(Lower(text));
    if Lower(text) in t.commands { WholeIdsAre(t, Lower(text), id); }
  }

  lemma {:induction false} BarAt(c: string, m: string)
    requires '|' !in m
    ensures LastBar(c + "|" + m) == Some(|c|)
    decreases m
  {
    var s := c + "|" + m;
    if m == [] {
      assert s[|s| - 1] == '|';
    } else {
      var front := m[..|m| - 1];
      assert s[|s| - 1] == m[|m| - 1] && s[..|s| - 1] == c + "|" + front;
      BarAt(c, front);
    }
  }

  lemma PartResolves(t: Table, name: string, c: string, m: string)
    requires name == c + "|" + m && '|' !in m && name[0] != '@'
    ensures Resolve(t, name) ==
      if c !in t.commands || m == "" then None
      else if t.commands[c].subs.None? then Some(Arg(c, m))
      else if HasSub(t, c, m) then Some(Part(c, m)) else None
  {
    BarAt(c, m);
    assert name[..|c|] == c && name[|c| + 1..] == m;
  }

  /**
    A rule with a '|' is about a subcommand, or, for a command without a table of subcommands, about a first argument,
    which can only be allowed. The first allows or forbids that subcommand and drops its first arguments; the second
    adds the argument and changes nothing else.
  */
  lemma PartRule(t: Table, v: View, allow: bool, text: string, c: string, m: string, id: nat, p: (nat, string))
    requires Lower(text) == c + "|" + m && '|' !in m && Lower(text)[0] != '@'
    ensures var w := SetOp(t, v, Change(allow, text));
      && (w.Some? <==> m != "" && (HasSub(t, c, m) || (c in t.commands && t.commands[c].subs.None? && allow)))
      && (w.Some? && HasSub(t, c, m) ==>
           && (id in w.value.sem.bits <==> if id < BITS && id == SubAt(t, c, m).id then allow else id in v.sem.bits)
           && (p in w.value.sem.args <==> p in v.sem.args && p.0 != SubAt(t, c, m).id))
      && (w.Some? && !HasSub(t, c, m) ==>
           w.value.sem.bits == v.sem.bits && w.value.sem.args == v.sem.args + {(t.commands[c].id, m)})
  {
    PartResolves(t, Lower(text), c, m);
    if HasSub(t, c, m) {
      assert TouchedIds(t, Part(c, m)) == {SubAt(t, c, m).id} == ClearedIds(t, Part(c, m));
    } else {
      assert InRange({}) == {};
    }
  }

  /** The log after a rule: the rule is its last, and of the others exactly those are gone that have its name, or its name
      and a '|' in front. */
  lemma LogMeans(log: seq<LogRule>, rule: LogRule, r: LogRule)
    ensures var log' := UpdateLog(log, rule);
      && log' != [] && log'[|log'| - 1] == rule
      && (r in log' <==> r == rule || (r in log && r.name != rule.name && !(rule.name + "|" <= r.name)))
  {
    SurvivorsAre(log, rule.name);
    var n, o := rule.name, r.name;
    assert n + "|" <= o <==> |o| > |n| && o[..|n|] == n && o[|n|] == '|' by {
      if n + "|" <= o {
        assert o[..|n| + 1] == n + "|";
        assert o[..|n|] == (n + "|")[..|n|] && o[|n|] == (n + "|")[|n|];
      }
    }
  }

  // ----- The description read again ---------------------------------------------------------------

  /** The words that allow everything and those that forbid everything; both drop all rules and first arguments. */
  lemma ResetWords(t: Table, v: View, word: string, other: string -> bool, id: nat)
    ensures var w := SetOp(t, v, ReadOp(word, other));
      && (Lower(word) == "+@all" || Lower(word) == "allcommands" ==>
           w.Some? && (id in w.value.sem.bits <==> id < BITS) && w.value.all && w.value.sem.args == {} && w.value.log == [])
      && (Lower(word) == "-@all" || Lower(word) == "nocommands" ==>
           w.Some? && id !in w.value.sem.bits && !w.value.all && w.value.sem.args == {} && w.value.log == [])
  {
    assert id < BITS ==> InBitmap(id);
  }

  /** A text whose words, read on any selector, are accepted and leave the bitmap, the first arguments and the log of v. */
  ghost predicate Describes(t: Table, text: string, v: View, other: string -> bool) {
    && SplitArgs.Split(text).Some?
    && var ops := ReadOps(SplitArgs.Split(text).value, other);
       forall start :: AllAccepted(t, start, ops) && RunOps(t, start, ops).sem == v.sem && RunOps(t, start, ops).log == v.log
  }

  function AllWord(all: bool): string { if all then "+@all" else "-@all" }

  lemma AllWordReads(all: bool, other: string -> bool)
    ensures ReadOp(AllWord(all), other) == if all then AllCommands else NoCommands
    ensures SplitArgs.Specials(AllWord(all)) == 0 && AllWord(all) != [] && !IsSpace(AllWord(all)[0])
  {
    SplitArgs.NoSpecialsIn(AllWord(all));
    assert Lower(AllWord(all)) == AllWord(all);
  }

  lemma FirstWordSplits(w: string, words: seq<string>)
    requires w != [] && !IsSpace(w[0]) && SplitArgs.Specials(w) == 0
    requires SplitArgs.Started(words) && SplitArgs.TotalSpecials(words) == 0
    ensures SplitArgs.Split(w + if words == [] then "" else " " + Glue(words)) == Some([w] + words)
  {
    var all := [w] + words;
    assert all[1..] == words;
    assert Glue(all) == w + if words == [] then "" else " " + Glue(words);
    SplitArgs.CleanSplits(all);
  }

  lemma WordsSplit(all: bool, log: seq<LogRule>, other: string -> bool)
    requires CleanNames(log)
    ensures SplitArgs.Split(AllWord(all) + if log == [] then "" else " " + Join(log)) == Some([AllWord(all)] + Texts(log))
  {
    AllWordReads(all, other);
    TextsAre(log);
    CleanTexts(log);
    SplitArgs.NoSpecials(Texts(log));
    FirstWordSplits(AllWord(all), Texts(log));
  }

  lemma WordsRead(all: bool, t: Table, log: seq<LogRule>, other: string -> bool)
    requires ValidTable(t) && ValidLog(t, log) && CleanNames(log)
    ensures ReadOps([AllWord(all)] + Texts(log), other) == [if all then AllCommands else NoCommands] + LogOps(log)
  {
    AllWordReads(all, other);
    NoAllRule(t, log);
    ReadRules(log, other);
    var words := [AllWord(all)] + Texts(log);
    assert words[1..] == Texts(log);
  }

  lemma RunsToView(t: Table, v: View, start: View, first: Op)
    requires ValidTable(t) && Faithful(t, v) && first == if RESERVED in v.sem.bits then AllCommands else NoCommands
    ensures var ops := [first] + LogOps(v.log);
      AllAccepted(t, start, ops) && RunOps(t, start, ops).sem == v.sem && RunOps(t, start, ops).log == v.log
  {
    var ops := [first] + LogOps(v.log);
    assert ops[1..] == LogOps(v.log) && [] + v.log == v.log;
    ReplayRest(t, StartOf(v), v.log);
    assert SetOp(t, start, first) == Some(StartOf(v));
  }

  /** The description of a selector whose rules hold no blanks and quotes rebuilds it. */
  lemma DescriptionRebuilds(t: Table, v: View, other: string -> bool)
    requires ValidTable(t) && Faithful(t, v) && CleanNames(v.log)
    ensures Describes(t, AllWord(RESERVED in v.sem.bits) + if v.log == [] then "" else " " + Join(v.log), v, other)
  {
    var all := RESERVED in v.sem.bits;
    WordsSplit(all, v.log, other);
    WordsRead(all, t, v.log, other);
    var ops := [if all then AllCommands else NoCommands] + LogOps(v.log);
    forall start ensures AllAccepted(t, start, ops) && RunOps(t, start, ops).sem == v.sem && RunOps(t, start, ops).log == v.log {
      RunsToView(t, v, start, if all then AllCommands else NoCommands);
    }
  }
}
