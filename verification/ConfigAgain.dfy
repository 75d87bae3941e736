/**
  CONFIG REWRITE made twice with the same calls (config.c): exactly when the second rewrite leaves the
  file as the first one left it, but for an empty line at its end.
*/
module ConfigAgain {
  import opened Collections
  import opened ConfigRewrite
  import opened ConfigParse
  import opened ConfigFile
  import opened ConfigSettled
  import SplitArgs
  import SdsRepr

  // ----- Which calls write a line ------------------------------------------------------------

  /** The lines that calls write for an option with p old lines; force is what the state says. */
  function Chosen(p: nat, cs: seq<Call>, o: Opt, force: bool): seq<string>
    decreases cs
  {
    if cs == [] then []
    else if cs[0].Mark? || cs[0].o != o then Chosen(p, cs[1..], o, force)
    else if p > 0 then [cs[0].line] + Chosen(p - 1, cs[1..], o, force)
    else (if cs[0].force || force then [cs[0].line] else []) + Chosen(0, cs[1..], o, force)
  }

  /** No call must write a line for the option. */
  predicate NoForce(cs: seq<Call>, o: Opt) { forall i :: 0 <= i < |cs| ==> cs[i].Rewrite? && cs[i].o == o ==> !cs[i].force }

  /** A call that writes no line for an option, which has none left, is followed by none that must write one. */
  predicate FirstOnly(p: nat, cs: seq<Call>, o: Opt, force: bool)
    decreases cs
  {
    if cs == [] then true
    else if cs[0].Mark? || cs[0].o != o then FirstOnly(p, cs[1..], o, force)
    else if p > 0 then FirstOnly(p - 1, cs[1..], o, force)
    else if cs[0].force || force then FirstOnly(0, cs[1..], o, force)
    else NoForce(cs[1..], o)
  }

  lemma StepPending(s: State, c: Call, o: Opt)
    requires Inv(s)
    ensures var used := c.Rewrite? && c.o == o && Pending(s, o) != [];
      Pending(Step(s, c), o) == if used then Pending(s, o)[1..] else Pending(s, o)
    ensures Step(s, c).forceWrite == s.forceWrite && Step(s, c).rewritten == s.rewritten + {c.o}
    ensures o in s.index <==> Pending(s, o) != []
  {
    if c.o in s.index { NextLine(s, c.o); }
  }

  lemma {:induction false} EmittedIs(s: State, cs: seq<Call>, o: Opt)
    requires Inv(s)
    ensures EmittedAll(s, cs, o) == Chosen(|Pending(s, o)|, cs, o, s.forceWrite)
    decreases cs
  {
    if cs != [] {
      StepKeeps(s, cs[0]);
      StepPending(s, cs[0], o);
      EmittedIs(Step(s, cs[0]), cs[1..], o);
      var more := EmittedAll(Step(s, cs[0]), cs[1..], o);
      assert [] + more == more;
    }
  }

  /** Every line written is some call's. */
  lemma {:induction false} ChosenFrom(p: nat, cs: seq<Call>, o: Opt, force: bool, line: string)
    requires line in Chosen(p, cs, o, force)
    ensures exists i :: 0 <= i < |cs| && cs[i].Rewrite? && cs[i].o == o && cs[i].line == line
    decreases cs
  {
    var mine := cs[0].Rewrite? && cs[0].o == o;
    var p' := if mine && p > 0 then p - 1 else p;
    if !(mine && cs[0].line == line) {
      ChosenFrom(p', cs[1..], o, force, line);
      var i :| 0 <= i < |cs[1..]| && cs[1..][i].Rewrite? && cs[1..][i].o == o && cs[1..][i].line == line;
      assert cs[i + 1] == cs[1..][i];
    }
  }

  // ----- The same calls again ------------------------------------------------------------------

  lemma {:induction false} MoreOld(p: nat, cs: seq<Call>, o: Opt, force: bool)
    ensures |Chosen(p, cs, o, force)| >= |Chosen(0, cs, o, force)|
    decreases cs
  {
    if cs != [] { MoreOld(if cs[0].Rewrite? && cs[0].o == o && p > 0 then p - 1 else p, cs[1..], o, force); }
  }

  lemma {:induction false} NoneForced(cs: seq<Call>, o: Opt)
    ensures Chosen(0, cs, o, false) == [] <==> NoForce(cs, o)
    decreases cs
  {
    if cs != [] {
      NoneForced(cs[1..], o);
      assert NoForce(cs, o) <==> NoForce([cs[0]], o) && NoForce(cs[1..], o) by { assert cs == [cs[0]] + cs[1..]; }
    }
  }

  /** With the lines written the first time as the old ones, the calls write the same lines, or more of them. */
  lemma {:induction false} ChosenAgain(p: nat, cs: seq<Call>, o: Opt, force: bool)
    ensures var once := Chosen(p, cs, o, force);
      var twice := Chosen(|once|, cs, o, force);
      if FirstOnly(p, cs, o, force) then twice == once else |twice| > |once|
    decreases cs
  {
    if cs != [] {
      if cs[0].Mark? || cs[0].o != o {
        ChosenAgain(p, cs[1..], o, force);
      } else if p > 0 {
        ChosenAgain(p - 1, cs[1..], o, force);
      } else if cs[0].force || force {
        ChosenAgain(0, cs[1..], o, force);
      } else {
        NoneForced(cs[1..], o);
        var n := |Chosen(0, cs[1..], o, force)|;
        if n > 0 { MoreOld(n - 1, cs[1..], o, force); }
      }
    }
  }

  ghost function Options(cs: seq<Call>): set<Opt> { set i | 0 <= i < |cs| :: cs[i].o }

  lemma OptionsStep(cs: seq<Call>)
    requires cs != []
    ensures Options(cs) == {cs[0].o} + Options(cs[1..])
  {
    forall o ensures o in Options(cs) <==> o in {cs[0].o} + Options(cs[1..]) {
      if o in Options(cs) {
        var i :| 0 <= i < |cs| && cs[i].o == o;
        if i > 0 { assert cs[1..][i - 1].o == o; }
      }
      if o in Options(cs[1..]) {
        var i :| 0 <= i < |cs[1..]| && cs[1..][i].o == o;
        assert cs[i + 1].o == o;
      }
    }
  }

  lemma {:induction false} RunRewritten(s: State, cs: seq<Call>)
    requires Inv(s)
    ensures Run(s, cs).rewritten == s.rewritten + Options(cs) && Run(s, cs).forceWrite == s.forceWrite
    decreases cs
  {
    if cs != [] {
      StepKeeps(s, cs[0]);
      StepPending(s, cs[0], cs[0].o);
      RunRewritten(Step(s, cs[0]), cs[1..]);
      OptionsStep(cs);
    }
  }

  /** The lines an option has left to use. */
  function Left(s: State, o: Opt): seq<string>
    requires |s.owner| == |s.lines| && Tracks(s, o)
  {
    PositionsOk(s.owner, o);
    LinesAt(s.lines, Pending(s, o))
  }

  /** The lines an option has left are those the calls write for it. */
  ghost predicate Steady(s: State, cs: seq<Call>, o: Opt)
    requires Inv(s)
  {
    Tracks(s, o) && Left(s, o) == Chosen(|Pending(s, o)|, cs, o, s.forceWrite)
  }

  lemma SteadyCall(s: State, cs: seq<Call>)
    requires Inv(s) && cs != [] && Steady(s, cs, cs[0].o)
    ensures Step(s, cs[0]).lines == s.lines
  {
    var c := cs[0];
    if c.Rewrite? && Emits(s, c.o, c.force) {
      StepPending(s, c, c.o);
      assert c.o in s.index;
      NextLine(s, c.o);
      assert Left(s, c.o)[0] == c.line;
    }
  }

  lemma LinesAtTail(lines: seq<string>, at: seq<nat>)
    requires at != [] && forall i :: 0 <= i < |at| ==> at[i] < |lines|
    ensures LinesAt(lines, at[1..]) == LinesAt(lines, at)[1..]
  {}

  lemma SteadyStep(s: State, cs: seq<Call>, o: Opt)
    requires Inv(s) && cs != [] && Steady(s, cs, o) && Step(s, cs[0]).lines == s.lines
    ensures Inv(Step(s, cs[0])) && Steady(Step(s, cs[0]), cs[1..], o)
  {
    StepKeeps(s, cs[0]);
    StepPending(s, cs[0], o);
    assert Tracks(Step(s, cs[0]), o);
    PositionsOk(s.owner, o);
    SteadyLines(s.lines, Pending(s, o), cs, o, s.forceWrite);
  }

  lemma SteadyLines(lines: seq<string>, at: seq<nat>, cs: seq<Call>, o: Opt, force: bool)
    requires cs != [] && forall i :: 0 <= i < |at| ==> at[i] < |lines|
    requires LinesAt(lines, at) == Chosen(|at|, cs, o, force)
    ensures var left := if cs[0].Rewrite? && cs[0].o == o && at != [] then at[1..] else at;
      LinesAt(lines, left) == Chosen(|left|, cs[1..], o, force)
  {
    if at != [] { LinesAtTail(lines, at); }
  }

  /** Then the calls change no line, and leave none over. */
  lemma {:induction false} SteadyRun(s: State, cs: seq<Call>, all: set<Opt>)
    requires Inv(s) && (forall o :: o in all ==> Steady(s, cs, o)) && Options(cs) <= all
    ensures Run(s, cs).lines == s.lines && forall o :: o in all ==> Pending(Run(s, cs), o) == []
    decreases cs
  {
    if cs == [] {
      forall o | o in all ensures Pending(s, o) == [] { assert Steady(s, cs, o); }
    } else {
      OptionsStep(cs);
      assert Steady(s, cs, cs[0].o);
      SteadyCall(s, cs);
      forall o | o in all ensures Inv(Step(s, cs[0])) && Steady(Step(s, cs[0]), cs[1..], o) { SteadyStep(s, cs, o); }
      StepKeeps(s, cs[0]);
      SteadyRun(Step(s, cs[0]), cs[1..], all);
    }
  }

  // ----- Lines of an option in a file ---------------------------------------------------------------

  /** The lines that of gives to an option. */
  function LinesFor(of: string -> Owner, lines: seq<string>, o: Opt): seq<string> {
    if lines == [] then []
    else
      var n := |lines| - 1;
      LinesFor(of, lines[..n], o) + if of(lines[n]) == Of(o) then [lines[n]] else []
  }

  lemma {:induction false} LinesForConcat(of: string -> Owner, a: seq<string>, b: seq<string>, o: Opt)
    ensures LinesFor(of, a + b, o) == LinesFor(of, a, o) + LinesFor(of, b, o)
    decreases |b|
  {
    if b == [] {
      assert a + b == a;
    } else {
      var n := |b| - 1;
      assert (a + b)[..|a| + n] == a + b[..n];
      LinesForConcat(of, a, b[..n], o);
    }
  }

  lemma LinesForFirst(of: string -> Owner, line: string, rest: seq<string>, o: Opt)
    ensures LinesFor(of, [line] + rest, o) == (if of(line) == Of(o) then [line] else []) + LinesFor(of, rest, o)
  {
    LinesForConcat(of, [line], rest, o);
    LinesForOne(of, line, o);
  }

  lemma LinesForOne(of: string -> Owner, line: string, o: Opt)
    ensures LinesFor(of, [line], o) == if of(line) == Of(o) then [line] else []
  {
    var one := [line];
    assert one[..0] == [] && LinesFor(of, one[..0], o) == [];
    var last := if of(line) == Of(o) then [line] else [];
    assert LinesFor(of, one, o) == [] + last == last;
  }

  /** Blank lines are no option's, so gluing does not lose or add any. */
  lemma {:induction false} LinesForCollapse(of: string -> Owner, lines: seq<string>, wasEmpty: bool, o: Opt)
    requires of("") != Of(o)
    ensures LinesFor(of, Collapse(lines, wasEmpty), o) == LinesFor(of, lines, o)
    decreases lines
  {
    if lines != [] {
      var line, more := lines[0], lines[1..];
      var rest := Collapse(more, line == "");
      LinesForCollapse(of, more, line == "", o);
      assert lines == [line] + more;
      LinesForFirst(of, line, more, o);
      LinesForFirst(of, line, rest, o);
      assert Collapse(lines, wasEmpty) == if line == "" && wasEmpty then [] + rest else [line] + rest;
      assert [] + rest == rest;
    }
  }

  lemma {:induction false} OwnedIs(of: string -> Owner, lines: seq<string>, owner: seq<Owner>, o: Opt)
    requires |lines| == |owner| && forall i :: 0 <= i < |lines| ==> (of(lines[i]) == Of(o) <==> owner[i] == Of(o))
    ensures forall i :: 0 <= i < |Positions(owner, o)| ==> Positions(owner, o)[i] < |lines|
    ensures LinesAt(lines, Positions(owner, o)) == LinesFor(of, lines, o)
    decreases |lines|
  {
    PositionsOk(owner, o);
    if lines != [] {
      var n := |lines| - 1;
      OwnedIs(of, lines[..n], owner[..n], o);
      PositionsOk(owner[..n], o);
    }
  }

  // ----- The new file -----------------------------------------------------------------------------------

  /** How files are read: the options known, and whether the server is a sentinel; and whether every option is written. */
  datatype Mode = Mode(known: string -> Option<Opt>, sentinel: bool, force: bool)

  function Read(m: Mode, line: string): OldLine { Classify(line, m.known, m.sentinel) }

  function OwnerRead(m: Mode): string -> Owner { line => OwnerOf(Read(m, line)) }

  /** The lines of calls are lines of their options. */
  ghost predicate Readable(m: Mode, cs: seq<Call>) {
    forall i :: 0 <= i < |cs| && cs[i].Rewrite? ==> '\n' !in cs[i].line && Read(m, cs[i].line) == Setting(cs[i].o, cs[i].line)
  }

  function OldLines(m: Mode, content: string): seq<OldLine> { FileLines(content, m.known, m.sentinel) }

  ghost function OldState(m: Mode, content: string): (s: State)
    ensures Fresh(s) && s.forceWrite == m.force
  {
    ReadOldFresh(OldLines(m, content), m.force);
    ReadForce(OldLines(m, content), m.force);
    ReadOld(OldLines(m, content), m.force)
  }

  lemma {:induction false} ReadForce(ls: seq<OldLine>, force: bool)
    ensures ReadOld(ls, force).forceWrite == force
  {
    if ls != [] { ReadForce(ls[..|ls| - 1], force); }
  }

  /** What the calls make of a file. */
  ghost function NewState(m: Mode, content: string, cs: seq<Call>): (t: State)
    ensures |t.lines| == |t.owner|
  {
    RunKeeps(OldState(m, content), cs, "");
    Orphaned(Run(OldState(m, content), cs))
  }

  ghost function NewLines(m: Mode, content: string, cs: seq<Call>): seq<string> { Collapse(NewState(m, content, cs).lines, false) }

  ghost function Output(m: Mode, content: string, cs: seq<Call>): string { Glued(NewLines(m, content, cs)) }

  /** A line of the file, and whose it is. */
  ghost predicate Reads(m: Mode, line: string, w: Owner) {
    '\n' !in line && Read(m, line) == if w.Of? then Setting(w.o, line) else Remark(line)
  }

  lemma {:induction false} ClassifiedAt(m: Mode, lines: seq<string>, i: nat)
    requires i < |lines|
    ensures |ClassifyAll(lines, m.known, m.sentinel)| == |lines| && ClassifyAll(lines, m.known, m.sentinel)[i] == Read(m, lines[i])
    decreases lines
  {
    if i > 0 {
      ClassifiedAt(m, lines[1..], i - 1);
    } else if |lines| > 1 {
      ClassifiedAt(m, lines[1..], 0);
    }
  }

  lemma OldReads(m: Mode, content: string, i: nat)
    requires i < |OldLines(m, content)|
    ensures var l := OldLines(m, content)[i]; Reads(m, TextOf(l), OwnerOf(l))
  {
    var lines := LinesOf(content);
    LinesHaveNoNewline(content);
    ClassifiedAt(m, lines, 0);
    ClassifiedAt(m, lines, i);
    ReadAgain(lines[i], m.known, m.sentinel);
  }

  lemma EmptyReads(m: Mode)
    ensures Read(m, "") == Remark("")
  {}

  lemma CommentReads(m: Mode, line: string)
    requires line != "" && line[0] == '#' && Trimmed(line)
    ensures Read(m, line) == Remark(line)
  {
    TrimIs(line);
  }

  lemma SignatureReads(m: Mode)
    ensures Reads(m, SIGNATURE, Signature)
  {
    var line := SIGNATURE;
    assert line[0] == '#' && line[|line| - 1] == 'E' && '\n' !in line;
    CommentReads(m, line);
  }

  /** A line written for an option reads as a line of it. */
  lemma WrittenReads(m: Mode, cs: seq<Call>, p: nat, o: Opt, line: string)
    requires Readable(m, cs) && line in Chosen(p, cs, o, m.force)
    ensures Reads(m, line, Of(o))
  {
    ChosenFrom(p, cs, o, m.force, line);
  }

  /** The lines of an option in the new file are those written for it. */
  lemma NewOwned(m: Mode, content: string, cs: seq<Call>, o: Opt)
    requires o in Options(cs)
    ensures OwnedLines(NewState(m, content, cs), o) == Chosen(|Pending(OldState(m, content), o)|, cs, o, m.force)
  {
    var s := OldState(m, content);
    NewFile(OldLines(m, content), m.force, cs);
    RunRewritten(s, cs);
    EmittedIs(s, cs, o);
  }

  lemma OwnedReads(m: Mode, content: string, cs: seq<Call>, i: nat)
    requires Readable(m, cs) && i < |NewState(m, content, cs).lines|
    requires var w := NewState(m, content, cs).owner[i]; w.Of? && w.o in Options(cs)
    ensures Reads(m, NewState(m, content, cs).lines[i], NewState(m, content, cs).owner[i])
  {
    var t := NewState(m, content, cs);
    var o := t.owner[i].o;
    NewOwned(m, content, cs, o);
    Listed(t.owner, o, i);
    PositionsOk(t.owner, o);
    var k :| 0 <= k < |Positions(t.owner, o)| && Positions(t.owner, o)[k] == i;
    assert OwnedLines(t, o)[k] == t.lines[i];
    WrittenReads(m, cs, |Pending(OldState(m, content), o)|, o, t.lines[i]);
  }

  /** Every line of the new file reads as what it is. */
  lemma NewReads(m: Mode, content: string, cs: seq<Call>, i: nat)
    requires Readable(m, cs) && i < |NewState(m, content, cs).lines|
    ensures Reads(m, NewState(m, content, cs).lines[i], NewState(m, content, cs).owner[i])
  {
    var t, ls := NewState(m, content, cs), OldLines(m, content);
    NewFile(ls, m.force, cs);
    RunRewritten(OldState(m, content), cs);
    assert t.rewritten == Options(cs);
    if t.owner[i].Of? && t.owner[i].o in Options(cs) {
      OwnedReads(m, content, cs, i);
    } else if i >= |ls| {
      SignatureReads(m);
    } else if t.owner[i] == OwnerOf(ls[i]) {
      OldReads(m, content, i);
    } else {
      EmptyReads(m);
    }
  }

  lemma NewSettled(m: Mode, content: string, cs: seq<Call>)
    requires Readable(m, cs)
    ensures Settled(NewLines(m, content, cs), m.known, m.sentinel)
  {
    var t := NewState(m, content, cs);
    forall i | 0 <= i < |t.lines| ensures '\n' !in t.lines[i] && TextOf(Read(m, t.lines[i])) == t.lines[i] { NewReads(m, content, cs, i); }
    CollapseSettled(t.lines, false, m.known, m.sentinel);
  }

  /** The lines of the new file that read as an option's are those written for it. */
  lemma NewLinesFor(m: Mode, content: string, cs: seq<Call>, o: Opt)
    requires Readable(m, cs) && o in Options(cs)
    ensures LinesFor(OwnerRead(m), NewLines(m, content, cs), o) == Chosen(|Pending(OldState(m, content), o)|, cs, o, m.force)
  {
    var t := NewState(m, content, cs);
    forall i | 0 <= i < |t.lines| ensures OwnerRead(m)(t.lines[i]) == Of(o) <==> t.owner[i] == Of(o) { NewReads(m, content, cs, i); }
    OwnedIs(OwnerRead(m), t.lines, t.owner, o);
    NewOwned(m, content, cs, o);
    EmptyReads(m);
    LinesForCollapse(OwnerRead(m), t.lines, false, o);
  }

  // ----- Reading it again --------------------------------------------------------------------------------------

  lemma ReadBackLines(m: Mode, lines: seq<string>)
    requires lines != [] && Settled(lines, m.known, m.sentinel)
    ensures var s, more := OldState(m, Glued(lines)), lines + [""];
      s.lines == more && |s.owner| == |more| && forall i :: 0 <= i < |more| ==> s.owner[i] == OwnerRead(m)(more[i])
  {
    var s, ls, more := OldState(m, Glued(lines)), OldLines(m, Glued(lines)), lines + [""];
    SplitGlued(lines);
    EmptyReads(m);
    ReadOldTexts(ls, m.force);
    ClassifiedAt(m, more, 0);
    forall i | 0 <= i < |more| ensures s.lines[i] == more[i] && s.owner[i] == OwnerRead(m)(more[i]) {
      ClassifiedAt(m, more, i);
      assert i < |lines| ==> more[i] == lines[i];
    }
  }

  lemma ReadBack(m: Mode, lines: seq<string>, o: Opt)
    requires lines != [] && Settled(lines, m.known, m.sentinel)
    ensures var s := OldState(m, Glued(lines));
      s.lines == lines + [""] && Tracks(s, o) && Left(s, o) == LinesFor(OwnerRead(m), lines, o)
  {
    var s, of := OldState(m, Glued(lines)), OwnerRead(m);
    ReadBackLines(m, lines);
    OwnedIs(of, s.lines, s.owner, o);
    LinesForConcat(of, lines, [""], o);
    LinesForOne(of, "", o);
    EmptyReads(m);
    assert Tracks(s, o) && Used(s, o) == 0;
    assert Pending(s, o) == Positions(s.owner, o);
  }

  /** No unforced call that writes nothing before a forced one, for any option. */
  ghost predicate Repeatable(m: Mode, content: string, cs: seq<Call>) {
    forall o :: o in Options(cs) ==> FirstOnly(|Pending(OldState(m, content), o)|, cs, o, m.force)
  }

  lemma SteadyAgain(m: Mode, content: string, cs: seq<Call>, o: Opt)
    requires Readable(m, cs) && o in Options(cs) && NewLines(m, content, cs) != []
    requires FirstOnly(|Pending(OldState(m, content), o)|, cs, o, m.force)
    ensures Steady(OldState(m, Output(m, content, cs)), cs, o)
  {
    NewSettled(m, content, cs);
    ReadBack(m, NewLines(m, content, cs), o);
    NewLinesFor(m, content, cs, o);
    ChosenAgain(|Pending(OldState(m, content), o)|, cs, o, m.force);
  }

  lemma NoneOrphaned(s: State)
    requires |s.owner| == |s.lines| && forall o :: o in s.rewritten ==> Pending(s, o) == []
    ensures Orphaned(s).lines == s.lines
  {}

  lemma LinesAgain(m: Mode, content: string, cs: seq<Call>)
    requires Readable(m, cs) && NewLines(m, content, cs) != [] && Repeatable(m, content, cs)
    ensures NewState(m, Output(m, content, cs), cs).lines == NewLines(m, content, cs) + [""]
  {
    var s := OldState(m, Output(m, content, cs));
    NewSettled(m, content, cs);
    ReadBack(m, NewLines(m, content, cs), "");
    forall o | o in Options(cs) ensures Steady(s, cs, o) { SteadyAgain(m, content, cs, o); }
    SteadyRun(s, cs, Options(cs));
    RunRewritten(s, cs);
    RunKeeps(s, cs, "");
    NoneOrphaned(Run(s, cs));
  }

  /** A file left empty was empty, and the calls wrote nothing. */
  lemma NothingWritten(m: Mode, content: string, cs: seq<Call>)
    requires NewLines(m, content, cs) == []
    ensures content == "" && Repeatable(m, content, cs)
  {
    var s, t := OldState(m, content), NewState(m, content, cs);
    assert t.lines == [];
    NewFile(OldLines(m, content), m.force, cs);
    if content != "" { LinesHaveNoNewline(content); }
    ReadOldTexts(OldLines(m, content), m.force);
    forall o | o in Options(cs) ensures FirstOnly(|Pending(s, o)|, cs, o, m.force) {
      assert Tracks(s, o);
      assert s.owner == [] && Pending(s, o) == [];
      NewOwned(m, content, cs, o);
      PositionsOk(t.owner, o);
      ChosenAgain(0, cs, o, m.force);
    }
  }

  lemma BlankAdded(lines: seq<string>)
    requires NoBlankRuns(lines)
    ensures Glued(Collapse(lines + [""], false)) == Glued(lines) + if EndsBlank(lines, false) then "" else "\n"
  {
    CollapseBlankLast(lines, false);
    CollapseNothing(lines, false);
    GluedAppend(lines, "");
    assert lines + [] == lines && Glued(lines) + ("" + "\n") == Glued(lines) + "\n";
  }

  lemma GluedEqual(a: seq<string>, b: seq<string>)
    requires a != [] && b != [] && Glued(a) == Glued(b)
    requires (forall i :: 0 <= i < |a| ==> '\n' !in a[i]) && forall i :: 0 <= i < |b| ==> '\n' !in b[i]
    ensures a == b
  {
    SplitGlued(a);
    SplitGlued(b);
    assert (a + [""])[..|a|] == a && (b + [""])[..|b|] == b;
  }

  /** Files are the same, but for an empty line at the end, only if their lines are. */
  lemma GluedSame(m: Mode, a: seq<string>, b: seq<string>, o: Opt)
    requires a != [] && b != [] && Settled(a, m.known, m.sentinel) && Settled(b, m.known, m.sentinel)
    requires Glued(b) == Glued(a) || Glued(b) == Glued(a) + "\n"
    ensures LinesFor(OwnerRead(m), b, o) == LinesFor(OwnerRead(m), a, o)
  {
    if Glued(b) == Glued(a) {
      GluedEqual(a, b);
    } else {
      GluedAppend(a, "");
      assert "" + "\n" == "\n";
      GluedEqual(a + [""], b);
      LinesForConcat(OwnerRead(m), a, [""], o);
      LinesForOne(OwnerRead(m), "", o);
      EmptyReads(m);
    }
  }

  lemma MoreLines(m: Mode, content: string, cs: seq<Call>, o: Opt)
    requires Readable(m, cs) && o in Options(cs) && NewLines(m, content, cs) != []
    requires !FirstOnly(|Pending(OldState(m, content), o)|, cs, o, m.force)
    ensures |LinesFor(OwnerRead(m), NewLines(m, Output(m, content, cs), cs), o)| > |LinesFor(OwnerRead(m), NewLines(m, content, cs), o)|
  {
    NewSettled(m, content, cs);
    ReadBack(m, NewLines(m, content, cs), o);
    NewLinesFor(m, content, cs, o);
    NewLinesFor(m, Output(m, content, cs), cs, o);
    ChosenAgain(|Pending(OldState(m, content), o)|, cs, o, m.force);
  }

  lemma Different(m: Mode, content: string, cs: seq<Call>, o: Opt)
    requires Readable(m, cs) && o in Options(cs) && NewLines(m, content, cs) != []
    requires !FirstOnly(|Pending(OldState(m, content), o)|, cs, o, m.force)
    ensures var once := Output(m, content, cs); var twice := Output(m, once, cs); twice != once && twice != once + "\n"
  {
    var once := Output(m, content, cs);
    var a, b := NewLines(m, content, cs), NewLines(m, once, cs);
    MoreLines(m, content, cs, o);
    NewSettled(m, content, cs);
    NewSettled(m, once, cs);
    if Glued(b) == Glued(a) || Glued(b) == Glued(a) + "\n" { GluedSame(m, a, b, o); }
  }

  /**
    Rewriting a file again with the same calls leaves it as it is, but for an empty line at its end, if and only if
    for no option an unforced call that found no line to use is followed by a forced one.
  */
  lemma RewriteAgain(m: Mode, content: string, cs: seq<Call>)
    requires Readable(m, cs)
    ensures var once := Output(m, content, cs);
      var twice := Output(m, once, cs);
      && (Repeatable(m, content, cs) <==> twice == once || twice == once + "\n")
      && (Repeatable(m, content, cs) ==> (twice == once <==> once == "" || EndsBlank(NewLines(m, content, cs), false)))
  {
    var lines := NewLines(m, content, cs);
    if lines == [] {
      NothingWritten(m, content, cs);
    } else {
      NotEmpty(m, content, cs);
      if Repeatable(m, content, cs) {
        LinesAgain(m, content, cs);
        CollapseOnlyBlanks(NewState(m, content, cs).lines, false);
        BlankAdded(lines);
      } else {
        var o :| o in Options(cs) && !FirstOnly(|Pending(OldState(m, content), o)|, cs, o, m.force);
        Different(m, content, cs, o);
      }
    }
  }

  lemma NotEmpty(m: Mode, content: string, cs: seq<Call>)
    requires Readable(m, cs) && NewLines(m, content, cs) != []
    ensures Output(m, content, cs) != ""
  {
    NewSettled(m, content, cs);
    SplitGlued(NewLines(m, content, cs));
  }

  method MakeCall(state: RewriteState, c: Call)
    requires Inv(state.Now())
    modifies state
    ensures Inv(state.Now()) && state.Now() == old(Step(state.Now(), c))
  {
    StepKeeps(state.Now(), c);
    if c.Rewrite? {
      var written := state.RewriteLine(c.o, c.line, c.force);
    } else {
      state.MarkAsProcessed(c.o);
    }
  }

  method MakeCalls(state: RewriteState, cs: seq<Call>)
    requires Inv(state.Now())
    modifies state
    ensures Inv(state.Now()) && state.Now() == old(Run(state.Now(), cs))
  {
    ghost var now, goal := state.Now(), Run(state.Now(), cs);
    assert cs[0..] == cs;
    var i := 0;
    while i < |cs|
      invariant 0 <= i <= |cs| && now == state.Now() && Inv(now) && Run(now, cs[i..]) == goal
    {
      assert cs[i..][0] == cs[i] && cs[i..][1..] == cs[i + 1..];
      MakeCall(state, cs[i]);
      now := state.Now();
      i := i + 1;
    }
  }

  /** `rewriteConfig`, with the calls its options make. */
  method RewriteFile(m: Mode, content: string, cs: seq<Call>) returns (written: string)
    ensures written == Output(m, content, cs)
  {
    var state := new RewriteState(m.force);
    state.ReadFile(content, m.known, m.sentinel);
    MakeCalls(state, cs);
    state.RemoveOrphaned();
    written := state.GetContent();
  }

  // ----- The lines of string options --------------------------------------------------------------------------

  lemma {:induction false} NoZero(s: string)
    requires '\0' !in s
    ensures CString(s) == s
  {
    if s != [] { NoZero(s[1..]); }
  }

  /** A word of printable characters without blanks and quotes. */
  ghost predicate CleanWord(w: string) {
    w != [] && w[0] != '#' && forall i :: 0 <= i < |w| ==> SdsRepr.IsPrint(w[i]) && !SplitArgs.IsSpecial(w[i])
  }

  lemma ValueLineIs(name: string, v: string)
    requires CleanWord(name) && SdsRepr.Bytes(v)
    ensures var line := name + " " + SdsRepr.Repr(v); '\n' !in line && CString(line) == line && Trim(line) == line && line[0] != '#'
  {
    var line := name + " " + SdsRepr.Repr(v);
    SdsRepr.BodyPrints(v);
    forall i | 0 <= i < |line| ensures SdsRepr.IsPrint(line[i]) {}
    NoZero(line);
    assert line[0] == name[0] && line[|line| - 1] == '"';
    TrimIs(line);
  }

  /** A name and a quoted value, whatever bytes the value holds: a line of the option the name stands for, in any letter
      case; of the name itself if it is one of the words that only files have; else unknown. */
  lemma ValueLineReads(m: Mode, name: string, v: string)
    requires CleanWord(name) && SdsRepr.Bytes(v) && !m.sentinel
    ensures var line, o := name + " " + SdsRepr.Repr(v), m.known(Lower(name));
      '\n' !in line && Read(m, line) ==
        if o.Some? then Setting(Lower(o.value), line)
        else if Lower(name) in {"include", "rename-command", "user", "loadmodule", "sentinel"} then Setting(Lower(name), line)
        else Unknown(line)
  {
    ValueLineIs(name, v);
    SplitArgs.NoSpecialsIn(name);
    SdsRepr.ValueSplits(name, v);
  }

  /** The line `rewriteConfigStringOption` writes reads as a line of its option. */
  lemma StringLineReads(m: Mode, name: string, v: string)
    requires CleanWord(name) && Lower(name) == name && SdsRepr.Bytes(v) && m.known(name) == Some(name) && !m.sentinel
    ensures Readable(m, [Rewrite(name, name + " " + SdsRepr.Repr(v), true)])
  {
    ValueLineReads(m, name, v);
  }

  // ----- One option ---------------------------------------------------------------------------------------------

  function OnlyO(name: string): Option<Opt> { if name == "o" then Some("o") else None }

  const ONLY_O: Mode := Mode(OnlyO, false, false)

  /** A line of two one-letter words. */
  lemma LetterReads(v: char)
    requires 'a' <= v <= 'z'
    ensures Read(ONLY_O, "o " + [v]) == Setting("o", "o " + [v]) && '\n' !in "o " + [v]
  {
    TrimIs("o " + [v]);
    LetterSplits(v);
    assert Lower("o") == "o";
  }

  lemma LetterSplits(v: char)
    requires 'a' <= v <= 'z'
    ensures SplitArgs.Split(CString("o " + [v])) == Some(["o", [v]])
  {
    var words, line := ["o", [v]], "o " + [v];
    assert words[1..] == [[v]] && Glue(words) == line;
    NoZero(line);
    SplitArgs.NoSpecials(words);
    SplitArgs.CleanSplits(words);
  }

  /** An option forced into an empty file stands under the signature. */
  lemma ForcedIntoEmpty()
    ensures Output(ONLY_O, "", [Rewrite("o", "o b", true)]) == "# Generated by CONFIG REWRITE\no b\n"
  {
    var c := Rewrite("o", "o b", true);
    var s := OldState(ONLY_O, "");
    assert [c][1..] == [];
    var lines := [SIGNATURE, "o b"];
    assert Run(s, [c]).lines == lines;
    NoneOrphaned(Run(s, [c]));
    assert lines[1..] == ["o b"] && ["o b"][1..] == [];
    assert Collapse(lines, false) == lines;
    assert Glued(lines) == SIGNATURE + "\n" + ("o b" + "\n" + "");
  }

  function TwoCalls(o: Opt, a: string, b: string): seq<Call> { [Rewrite(o, a, false), Rewrite(o, b, true)] }

  lemma NotRepeatable(o: Opt, a: string, b: string)
    ensures !Repeatable(ONLY_O, "", TwoCalls(o, a, b))
  {
    var cs := TwoCalls(o, a, b);
    assert cs[1..] == [Rewrite(o, b, true)] && cs[1..][0].force;
    assert cs[0].o == o && o in Options(cs);
    assert Pending(OldState(ONLY_O, ""), o) == [];
    assert !FirstOnly(0, cs, o, false);
  }

  lemma ExampleReads()
    ensures Readable(ONLY_O, TwoCalls("o", "o a", "o b"))
  {
    LetterReads('a');
    LetterReads('b');
    assert "o " + ['a'] == "o a" && "o " + ['b'] == "o b";
  }

  /** An unforced call, and then a forced one, as for limits of which only the second is not the default: rewriting an
      empty file again gives something else. */
  lemma UnforcedThenForced()
    ensures var cs := TwoCalls("o", "o a", "o b");
      var once := Output(ONLY_O, "", cs);
      var twice := Output(ONLY_O, once, cs);
      Readable(ONLY_O, cs) && twice != once && twice != once + "\n"
  {
    ExampleReads();
    NotRepeatable("o", "o a", "o b");
    RewriteAgain(ONLY_O, "", TwoCalls("o", "o a", "o b"));
  }
}
