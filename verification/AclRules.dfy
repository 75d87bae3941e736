/**
  ACL command rules (acl.c): a selector's bitmap and first-argument table, kept in
  step with a compacted log of the rules that produced them.

  A rule's meaning is its effect on `Sem`, the bitmap and the set of allowed
  first arguments. `UpdateLog` drops the older rules a new one supersedes;
  `CompactionPreserves` says that replaying the shorter log still gives the same
  meaning, and `ReplayIsFaithful` says so of every run of accepted rules.
*/
module AclRules {
  import opened Collections

  const BITS := 1024
  const RESERVED := BITS - 1

  // ----- Names ------------------------------------------------------------------

  /** The part before and the part after the last '|'. */
  function LastBar(s: string): Option<nat> {
    if s == [] then None
    else if s[|s| - 1] == '|' then Some(|s| - 1)
    else LastBar(s[..|s| - 1])
  }

  lemma {:induction false} LastBarIs(s: string)
    ensures LastBar(s).None? <==> '|' !in s
    ensures LastBar(s).Some? ==> var i := LastBar(s).value;
      i < |s| && s[i] == '|' && '|' !in s[i + 1..]
  {
    if s != [] && s[|s| - 1] != '|' {
      var front := s[..|s| - 1];
      LastBarIs(front);
      assert s == front + [s[|s| - 1]];
      if LastBar(front).Some? {
        var i := LastBar(front).value;
        assert s[i + 1..] == front[i + 1..] + [s[|s| - 1]];
      }
    }
  }

  // ----- The command table ----------------------------------------------------------

  datatype Sub = Sub(id: nat, cats: set<string>)

  /** subs is None for a command without a subcommand table. */
  datatype Command = Command(id: nat, cats: set<string>, subs: Option<map<string, Sub>>)

  /** Commands and categories by lower-case name. */
  datatype Table = Table(commands: map<string, Command>, categories: set<string>)

  predicate CleanName(s: string) { s != [] && s[0] != '@' && '|' !in s && Lower(s) == s }

  function SubsOf(c: Command): map<string, Sub> { if c.subs.Some? then c.subs.value else map[] }

  ghost predicate ValidCommand(c: Command) {
    c.id != RESERVED && forall m :: m in SubsOf(c) ==> CleanName(m) && SubsOf(c)[m].id != RESERVED
  }

  /** Names are clean, and `all` is not a category; ids are distinct, and none is the reserved one. */
  ghost predicate ValidTable(t: Table) {
    && (forall n :: n in t.commands ==> CleanName(n) && ValidCommand(t.commands[n]))
    && (forall n, n' :: n in t.commands && n' in t.commands && t.commands[n].id == t.commands[n'].id ==> n == n')
    && (forall n, n', m :: n in t.commands && n' in t.commands && m in SubsOf(t.commands[n']) ==>
         t.commands[n].id != SubsOf(t.commands[n'])[m].id)
    && (forall k :: k in t.categories ==> '|' !in k && Lower(k) == k && k != "all")
  }

  /** What a rule name, in lower case, denotes. */
  datatype Target =
    | Whole(cmd: string)
    | Part(cmd: string, sub: string)
    | Arg(cmd: string, arg: string)
    | Cat(cat: string)

  function Resolve(t: Table, name: string): Option<Target> {
    if name != [] && name[0] == '@' then
      if name[1..] in t.categories then Some(Cat(name[1..])) else None
    else match LastBar(name)
      case None => if name in t.commands then Some(Whole(name)) else None
      case Some(i) =>
        if i >= |name| then None else
        var base, sub := name[..i], name[i + 1..];
        if base !in t.commands || sub == [] then None
        else if t.commands[base].subs.None? then Some(Arg(base, sub))
        else if sub in t.commands[base].subs.value then Some(Part(base, sub))
        else None
  }

  // ----- Meaning ------------------------------------------------------------------------

  /** The bitmap, and the allowed first arguments by command id, in lower case. */
  datatype Sem = Sem(bits: set<nat>, args: set<(nat, string)>)

  function IdsOf(subs: map<string, Sub>): set<nat> { set m | m in subs :: subs[m].id }

  function WholeIds(c: Command): set<nat> { {c.id} + IdsOf(SubsOf(c)) }

  function CatSubIds(c: Command, k: string): set<nat> {
    set m | m in SubsOf(c) && k in SubsOf(c)[m].cats :: SubsOf(c)[m].id
  }

  /** One command's share in a category rule: the ids it sets, and those it resets first arguments for. */
  function CatIds(c: Command, k: string): set<nat> {
    (if k in c.cats then WholeIds(c) else {}) + CatSubIds(c, k)
  }

  function CatClears(c: Command, k: string): set<nat> {
    (if k in c.cats then {c.id} else {}) + CatSubIds(c, k)
  }

  /** The ids whose bit the rule sets, whatever their size. */
  function TouchedIds(t: Table, target: Target): set<nat> {
    match target
    case Whole(c) => if c in t.commands then WholeIds(t.commands[c]) else {}
    case Part(c, m) => if c in t.commands && m in SubsOf(t.commands[c]) then {SubsOf(t.commands[c])[m].id} else {}
    case Arg(_, _) => {}
    case Cat(k) => set c, i | c in t.commands && i in CatIds(t.commands[c], k) :: i
  }

  /** The ids whose first-argument list the rule resets. */
  function ClearedIds(t: Table, target: Target): set<nat> {
    match target
    case Whole(c) => if c in t.commands then {t.commands[c].id} else {}
    case Part(c, m) => if c in t.commands && m in SubsOf(t.commands[c]) then {SubsOf(t.commands[c])[m].id} else {}
    case Arg(_, _) => {}
    case Cat(k) => set c, i | c in t.commands && i in CatClears(t.commands[c], k) :: i
  }

  function AddedArgs(t: Table, target: Target): set<(nat, string)> {
    match target
    case Arg(c, a) => if c in t.commands then {(t.commands[c].id, a)} else {}
    case _ => {}
  }

  function InRange(ids: set<nat>): set<nat> { set i | i in ids && i < BITS }

  function Apply(t: Table, s: Sem, allow: bool, target: Target): Sem {
    var ids := InRange(TouchedIds(t, target));
    Sem(if allow then s.bits + ids else s.bits - ids,
        (set p | p in s.args && p.0 !in ClearedIds(t, target)) + AddedArgs(t, target))
  }

  predicate InBitmap(i: nat) { i < BITS }

  function AllBits(): set<nat> { set i: nat | i < BITS && InBitmap(i) }

  /** What +@all and -@all leave. */
  function Base(all: bool): Sem { Sem(if all then AllBits() else {}, {}) }

  // ----- The rule log -----------------------------------------------------------------------

  datatype LogRule = LogRule(allow: bool, name: string)

  /** A rule is superseded by one of the same name, or of the command it belongs to. */
  predicate Superseded(old_: string, new_: string) {
    old_ == new_ || (|old_| > |new_| && old_[..|new_|] == new_ && old_[|new_|] == '|')
  }

  function Survivors(log: seq<LogRule>, name: string): seq<LogRule> {
    if log == [] then []
    else if Superseded(log[0].name, name) then Survivors(log[1..], name)
    else [log[0]] + Survivors(log[1..], name)
  }

  /** `ACLUpdateCommandRules`, on the parsed log. */
  function UpdateLog(log: seq<LogRule>, rule: LogRule): seq<LogRule> { Survivors(log, rule.name) + [rule] }

  ghost predicate ValidRule(t: Table, r: LogRule) {
    Resolve(t, r.name).Some? && Lower(r.name) == r.name && (Resolve(t, r.name).value.Arg? ==> r.allow)
  }

  ghost predicate ValidLog(t: Table, log: seq<LogRule>) { forall r :: r in log ==> ValidRule(t, r) }

  function ReplayLog(t: Table, s: Sem, log: seq<LogRule>): Sem
    decreases log
  {
    if log == [] then s
    else
      var target := Resolve(t, log[0].name);
      ReplayLog(t, if target.Some? then Apply(t, s, log[0].allow, target.value) else s, log[1..])
  }

  // ----- Compaction -----------------------------------------------------------------------------

  /** First arguments exist only for commands without a subcommand table. */
  ghost predicate ArgsAtLeaves(t: Table, s: Sem) {
    forall p :: p in s.args ==> exists c :: c in t.commands && t.commands[c].subs.None? && t.commands[c].id == p.0
  }

  /** Two meanings differ at most where the rule for target overwrites. */
  ghost predicate AgreeBeyond(t: Table, a: Sem, b: Sem, target: Target) {
    && (forall i :: i !in InRange(TouchedIds(t, target)) ==> (i in a.bits <==> i in b.bits))
    && (forall p: (nat, string) :: p.0 !in ClearedIds(t, target) && p !in AddedArgs(t, target) ==> (p in a.args <==> p in b.args))
  }

  lemma ApplyKeepsLeaves(t: Table, s: Sem, allow: bool, target: Target)
    requires ArgsAtLeaves(t, s) && (target.Arg? ==> target.cmd in t.commands && t.commands[target.cmd].subs.None?)
    ensures ArgsAtLeaves(t, Apply(t, s, allow, target))
  {}

  lemma ApplyKeepsAgreement(t: Table, a: Sem, b: Sem, target: Target, allow: bool, other: Target)
    requires AgreeBeyond(t, a, b, target)
    ensures AgreeBeyond(t, Apply(t, a, allow, other), Apply(t, b, allow, other), target)
  {}

  lemma AgreementErased(t: Table, a: Sem, b: Sem, target: Target, allow: bool)
    requires AgreeBeyond(t, a, b, target)
    ensures Apply(t, a, allow, target) == Apply(t, b, allow, target)
  {
    var x, y := Apply(t, a, allow, target), Apply(t, b, allow, target);
    assert x.bits == y.bits;
    assert x.args == y.args;
  }

  /** A bar inside a name is inside its tail, and inside its base or right after it. */
  lemma BarInside(o: string, k: nat, i: nat)
    requires 0 < k < |o| && o[k] == '|' && i < |o| && o[i] == '|' && '|' !in o[i + 1..]
    ensures '|' in o[1..]
    ensures k == i || '|' in o[..i]
  {
    assert o[1..][k - 1] == '|';
    assert k < i ==> o[k] in o[..i];
  }

  /** A superseded rule is about the same target, or about a part of the command the new rule names. */
  lemma SupersededTarget(t: Table, o: string, n: string)
    requires ValidTable(t) && Superseded(o, n) && Resolve(t, o).Some? && Resolve(t, n).Some?
    ensures var ot, nt := Resolve(t, o).value, Resolve(t, n).value;
      ot == nt || (nt.Whole? && (ot.Part? || ot.Arg?) && ot.cmd == nt.cmd)
  {
    if o != n {
      LastBarIs(o);
      LastBarIs(n);
      assert o[|n|] == '|';
      assert o[0] == n[0] by { assert o[..|n|] == n; }
      var i := LastBar(o).value;
      BarInside(o, |n|, i);
    }
  }

  /** A rule about a part of a command touches only what a rule about the whole command overwrites. */
  lemma PartWithinWhole(t: Table, s: Sem, allow: bool, part: Target)
    requires ValidTable(t) && ArgsAtLeaves(t, s)
    requires (part.Part? || part.Arg?) && part.cmd in t.commands
    ensures AgreeBeyond(t, Apply(t, s, allow, part), s, Whole(part.cmd))
  {
    assert TouchedIds(t, part) <= TouchedIds(t, Whole(part.cmd));
  }

  lemma SupersededErased(t: Table, s: Sem, o: LogRule, n: string)
    requires ValidTable(t) && ArgsAtLeaves(t, s)
    requires Superseded(o.name, n) && Resolve(t, o.name).Some? && Resolve(t, n).Some?
    ensures AgreeBeyond(t, Apply(t, s, o.allow, Resolve(t, o.name).value), s, Resolve(t, n).value)
  {
    SupersededTarget(t, o.name, n);
    var ot, nt := Resolve(t, o.name).value, Resolve(t, n).value;
    if ot != nt { PartWithinWhole(t, s, o.allow, ot); }
  }

  lemma ResolvedArgIsLeaf(t: Table, name: string)
    requires Resolve(t, name).Some? && Resolve(t, name).value.Arg?
    ensures var a := Resolve(t, name).value; a.cmd in t.commands && t.commands[a.cmd].subs.None?
  {}

  /** Dropping superseded rules changes the meaning at most where the new rule overwrites it. */
  lemma {:induction false} SurvivorsAgree(t: Table, a: Sem, b: Sem, log: seq<LogRule>, n: string)
    requires ValidTable(t) && ValidLog(t, log) && Resolve(t, n).Some?
    requires ArgsAtLeaves(t, a) && ArgsAtLeaves(t, b) && AgreeBeyond(t, a, b, Resolve(t, n).value)
    ensures AgreeBeyond(t, ReplayLog(t, a, Survivors(log, n)), ReplayLog(t, b, log), Resolve(t, n).value)
    decreases log
  {
    if log != [] {
      var r, rest := log[0], log[1..];
      assert r in log && ValidRule(t, r);
      var target := Resolve(t, r.name).value;
      var b' := Apply(t, b, r.allow, target);
      if target.Arg? { ResolvedArgIsLeaf(t, r.name); }
      ApplyKeepsLeaves(t, b, r.allow, target);
      if Superseded(r.name, n) {
        SupersededErased(t, b, r, n);
        SurvivorsAgree(t, a, b', rest, n);
      } else {
        var a' := Apply(t, a, r.allow, target);
        ApplyKeepsLeaves(t, a, r.allow, target);
        ApplyKeepsAgreement(t, a, b, Resolve(t, n).value, r.allow, target);
        SurvivorsAgree(t, a', b', rest, n);
        assert ([r] + Survivors(rest, n))[1..] == Survivors(rest, n);
      }
    }
  }

  lemma {:induction false} ReplayAppend(t: Table, s: Sem, log: seq<LogRule>, r: LogRule)
    requires Resolve(t, r.name).Some?
    ensures ReplayLog(t, s, log + [r]) == Apply(t, ReplayLog(t, s, log), r.allow, Resolve(t, r.name).value)
    decreases log
  {
    if log == [] {
      assert log + [r] == [r] && [r][1..] == [];
    } else {
      assert (log + [r])[1..] == log[1..] + [r];
      var target := Resolve(t, log[0].name);
      ReplayAppend(t, if target.Some? then Apply(t, s, log[0].allow, target.value) else s, log[1..], r);
    }
  }

  /** Replaying the compacted log is replaying the old log and then the new rule. */
  lemma CompactionPreserves(t: Table, s: Sem, log: seq<LogRule>, r: LogRule)
    requires ValidTable(t) && ValidLog(t, log) && ValidRule(t, r) && ArgsAtLeaves(t, s)
    ensures ReplayLog(t, s, UpdateLog(log, r)) == Apply(t, ReplayLog(t, s, log), r.allow, Resolve(t, r.name).value)
  {
    ReplayAppend(t, s, Survivors(log, r.name), r);
    SurvivorsAgree(t, s, s, log, r.name);
    AgreementErased(t, ReplayLog(t, s, Survivors(log, r.name)), ReplayLog(t, s, log), Resolve(t, r.name).value, r.allow);
  }
}
