/**
  CONFIG REWRITE (config.c): the lines of the old file, the index from options to their lines, and
  what a sequence of rewrite calls leaves of them.
*/
module ConfigRewrite {
  import opened Collections

  /** An option, in lower case: the dictionaries of options do not tell letter case apart. */
  type Opt = string

  const SIGNATURE: string := "# Generated by CONFIG REWRITE"

  /** Whose a line is: a comment or blank, an option's, the signature added here, or blanked as orphaned. */
  datatype Owner = Comment | Of(o: Opt) | Signature | Blanked

  datatype State = State(
    lines: seq<string>,
    owner: seq<Owner>,              // for the statements only: the code does not keep it
    index: map<Opt, seq<nat>>,      // option_to_line
    rewritten: set<Opt>,
    needsSignature: bool,
    forceWrite: bool)

  /** One call: a line for an option, or the option marked as processed. */
  datatype Call = Rewrite(o: Opt, line: string, force: bool) | Mark(o: Opt)

  // ----- Operations -------------------------------------------------------------------------

  function Pending(s: State, o: Opt): seq<nat> { if o in s.index then s.index[o] else [] }

  function Marked(s: State, o: Opt): State { s.(rewritten := s.rewritten + {o}) }

  function Dropped(index: map<Opt, seq<nat>>, o: Opt): map<Opt, seq<nat>>
    requires o in index && index[o] != []
  {
    if |index[o]| == 1 then index - {o} else index[o := index[o][1..]]
  }

  function Appended(s: State, line: string, owner: Owner): State { s.(lines := s.lines + [line], owner := s.owner + [owner]) }

  predicate Emits(s: State, o: Opt, force: bool) { o in s.index || force || s.forceWrite }

  /** The next old line of the option is used again. */
  function Reused(s: State, o: Opt, line: string): State
    requires o in s.index && s.index[o] != [] && s.index[o][0] < |s.lines|
  {
    s.(lines := s.lines[s.index[o][0] := line], index := Dropped(s.index, o))
  }

  /** A new line at the end, after the signature if it is missing. */
  function Added(s: State, o: Opt, line: string): State {
    var signed := if s.needsSignature then Appended(s, SIGNATURE, Signature).(needsSignature := false) else s;
    Appended(signed, line, Of(o))
  }

  // ----- Which lines belong to an option ---------------------------------------------------------

  /** The positions of an option's lines, in order. */
  function Positions(owner: seq<Owner>, o: Opt): seq<nat> {
    if owner == [] then []
    else
      var n := |owner| - 1;
      Positions(owner[..n], o) + if owner[n] == Of(o) then [n] else []
  }

  function LinesAt(lines: seq<string>, at: seq<nat>): seq<string>
    requires forall i :: 0 <= i < |at| ==> at[i] < |lines|
  {
    seq(|at|, i requires 0 <= i < |at| => lines[at[i]])
  }

  lemma {:induction false} PositionsOk(owner: seq<Owner>, o: Opt)
    ensures forall i :: 0 <= i < |Positions(owner, o)| ==> Positions(owner, o)[i] < |owner| && owner[Positions(owner, o)[i]] == Of(o)
    ensures forall i, j :: 0 <= i < j < |Positions(owner, o)| ==> Positions(owner, o)[i] < Positions(owner, o)[j]
  {
    if owner != [] { PositionsOk(owner[..|owner| - 1], o); }
  }

  lemma PositionsAppend(owner: seq<Owner>, w: Owner, o: Opt)
    ensures Positions(owner + [w], o) == Positions(owner, o) + if w == Of(o) then [|owner|] else []
  {
    assert (owner + [w])[..|owner|] == owner;
  }

  // ----- Invariant --------------------------------------------------------------------------------

  /** How many of an option's lines have been written already. */
  function Used(s: State, o: Opt): int { |Positions(s.owner, o)| - |Pending(s, o)| }

  /** The lines still to be used are the last of the option's lines. */
  predicate Tracks(s: State, o: Opt) { Used(s, o) >= 0 && Pending(s, o) == Positions(s.owner, o)[Used(s, o)..] }

  ghost predicate Inv(s: State) {
    && |s.owner| == |s.lines| && (forall o :: Tracks(s, o)) && (forall o :: o in s.index ==> s.index[o] != [])
  }

  /** The lines written for an option so far, in the order they stand. */
  function WrittenLines(s: State, o: Opt): seq<string>
    requires |s.owner| == |s.lines| && Used(s, o) >= 0
  {
    PositionsOk(s.owner, o);
    LinesAt(s.lines, Positions(s.owner, o)[..Used(s, o)])
  }

  // ----- Calls --------------------------------------------------------------------------------------

  lemma NextLine(s: State, o: Opt)
    requires Inv(s) && o in s.index
    ensures s.index[o] != [] && s.index[o][0] < |s.lines| && s.owner[s.index[o][0]] == Of(o)
    ensures 0 <= Used(s, o) < |Positions(s.owner, o)| && s.index[o][0] == Positions(s.owner, o)[Used(s, o)]
  {
    assert Tracks(s, o);
    PositionsOk(s.owner, o);
  }

  ghost function Step(s: State, c: Call): State
    requires Inv(s)
  {
    match c
    case Mark(o) => Marked(s, o)
    case Rewrite(o, line, force) =>
      if !Emits(s, o, force) then Marked(s, o)
      else if o in s.index then (NextLine(s, o); Reused(Marked(s, o), o, line))
      else Added(Marked(s, o), o, line)
  }

  /** The line a call writes for option o, if any. */
  function Emitted(s: State, c: Call, o: Opt): seq<string> {
    if c.Rewrite? && c.o == o && Emits(s, o, c.force) then [c.line] else []
  }

  lemma LinesExtend(lines: seq<string>, at: seq<nat>, u: nat, line: string)
    requires u < |at| && (forall i :: 0 <= i < |at| ==> at[i] < |lines|) && forall i, j :: 0 <= i < j < |at| ==> at[i] < at[j]
    ensures LinesAt(lines[at[u] := line], at[..u + 1]) == LinesAt(lines, at[..u]) + [line]
  {}

  lemma LinesUntouched(lines: seq<string>, at: seq<nat>, k: nat, line: string)
    requires k < |lines| && forall i :: 0 <= i < |at| ==> at[i] < |lines| && at[i] != k
    ensures LinesAt(lines[k := line], at) == LinesAt(lines, at)
  {}

  /** Reusing a line: the option has one more written line, the others are as before. */
  lemma ReusedTracks(s: State, o: Opt, line: string, p: Opt)
    requires Inv(s) && Tracks(s, p) && o in s.index && s.index[o] != [] && s.index[o][0] < |s.lines|
    ensures var s' := Reused(s, o, line);
      Tracks(s', p) && WrittenLines(s', p) == WrittenLines(s, p) + if p == o then [line] else []
  {
    var s', at := Reused(s, o, line), Positions(s.owner, p);
    NextLine(s, o);
    PositionsOk(s.owner, p);
    if p == o {
      assert Pending(s', o) == Pending(s, o)[1..];
      LinesExtend(s.lines, at, Used(s, o), line);
    } else {
      assert Pending(s', p) == Pending(s, p);
      LinesUntouched(s.lines, at[..Used(s, p)], s.index[o][0], line);
      assert WrittenLines(s, p) + [] == WrittenLines(s, p);
    }
  }

  /** Adding a line at the end. */
  lemma AppendedTracks(s: State, line: string, w: Owner, p: Opt)
    requires |s.owner| == |s.lines| && Tracks(s, p) && (w == Of(p) ==> p !in s.index)
    ensures var s' := Appended(s, line, w);
      Tracks(s', p) && WrittenLines(s', p) == WrittenLines(s, p) + if w == Of(p) then [line] else []
  {
    PositionsOk(s.owner, p);
    PositionsAppend(s.owner, w, p);
  }

  lemma AddedTracks(s: State, o: Opt, line: string, p: Opt)
    requires Inv(s) && Tracks(s, p) && o !in s.index
    ensures var s' := Added(s, o, line);
      Tracks(s', p) && WrittenLines(s', p) == WrittenLines(s, p) + if p == o then [line] else []
  {
    assert Tracks(s, p);
    var signed := if s.needsSignature then Appended(s, SIGNATURE, Signature).(needsSignature := false) else s;
    if s.needsSignature { AppendedTracks(s, SIGNATURE, Signature, p); }
    assert Pending(signed, p) == Pending(s, p);
    AppendedTracks(signed, line, Of(o), p);
  }

  lemma MarkedTracks(s: State, o: Opt, p: Opt)
    requires |s.owner| == |s.lines| && Tracks(s, p)
    ensures Tracks(Marked(s, o), p) && WrittenLines(Marked(s, o), p) == WrittenLines(s, p)
  {
    assert Pending(Marked(s, o), p) == Pending(s, p);
  }

  lemma MarkedKeeps(s: State, o: Opt)
    requires Inv(s)
    ensures Inv(Marked(s, o))
  {
    forall p ensures Tracks(Marked(s, o), p) {
      assert Tracks(s, p);
      MarkedTracks(s, o, p);
    }
  }

  lemma StepTracks(s: State, c: Call, p: Opt)
    requires Inv(s) && Tracks(s, p)
    ensures |Step(s, c).owner| == |Step(s, c).lines| && Tracks(Step(s, c), p)
    ensures WrittenLines(Step(s, c), p) == WrittenLines(s, p) + Emitted(s, c, p)
  {
    var m := Marked(s, c.o);
    MarkedKeeps(s, c.o);
    MarkedTracks(s, c.o, p);
    if c.Rewrite? && Emits(s, c.o, c.force) {
      if c.o in s.index {
        NextLine(s, c.o);
        ReusedTracks(m, c.o, c.line, p);
      } else {
        AddedTracks(m, c.o, c.line, p);
      }
    }
  }

  lemma StepKeeps(s: State, c: Call)
    requires Inv(s)
    ensures Inv(Step(s, c))
  {
    forall p ensures Tracks(Step(s, c), p) {
      assert Tracks(s, p);
      StepTracks(s, c, p);
    }
    assert Tracks(s, c.o);
    StepTracks(s, c, c.o);
  }

  ghost function Run(s: State, cs: seq<Call>): State
    requires Inv(s)
    decreases cs
  {
    if cs == [] then s
    else
      StepKeeps(s, cs[0]);
      Run(Step(s, cs[0]), cs[1..])
  }

  /** The lines a sequence of calls writes for option o, in order. */
  ghost function EmittedAll(s: State, cs: seq<Call>, o: Opt): seq<string>
    requires Inv(s)
    decreases cs
  {
    if cs == [] then []
    else
      StepKeeps(s, cs[0]);
      Emitted(s, cs[0], o) + EmittedAll(Step(s, cs[0]), cs[1..], o)
  }

  lemma {:induction false} RunKeeps(s: State, cs: seq<Call>, o: Opt)
    requires Inv(s)
    ensures Inv(Run(s, cs)) && Tracks(s, o) && Tracks(Run(s, cs), o)
    ensures WrittenLines(Run(s, cs), o) == WrittenLines(s, o) + EmittedAll(s, cs, o)
    decreases cs
  {
    assert Tracks(s, o);
    if cs == [] {
      assert WrittenLines(s, o) + [] == WrittenLines(s, o);
    } else {
      StepKeeps(s, cs[0]);
      StepTracks(s, cs[0], o);
      RunKeeps(Step(s, cs[0]), cs[1..], o);
      Assoc(WrittenLines(s, o), Emitted(s, cs[0], o), EmittedAll(Step(s, cs[0]), cs[1..], o));
    }
  }

  // ----- Lines that are not the processed options' -----------------------------------------------------

  /** Not a line of an option in the set. */
  predicate Foreign(w: Owner, done: set<Opt>) { w.Of? ==> w.o !in done }

  /** A line added at the end: the signature, or a line of a processed option. */
  predicate New(w: Owner, line: string, done: set<Opt>) { (w.Signature? && line == SIGNATURE) || (w.Of? && w.o in done) }

  /** The lines of t that were in s are where they were, and those of other owners are unchanged; the others are
      new; and no line is listed again. */
  ghost predicate KeepsOthers(s: State, t: State) {
    && |s.owner| == |s.lines| && |t.owner| == |t.lines| && |s.lines| <= |t.lines| && t.owner[..|s.owner|] == s.owner
    && s.rewritten <= t.rewritten
    && (forall i :: 0 <= i < |s.lines| && Foreign(s.owner[i], t.rewritten) ==> t.lines[i] == s.lines[i])
    && (forall i :: |s.lines| <= i < |t.lines| ==> New(t.owner[i], t.lines[i], t.rewritten))
    && (forall o, n :: n in Pending(t, o) ==> n in Pending(s, o))
  }

  lemma StepKeepsOthers(s: State, c: Call)
    requires Inv(s)
    ensures KeepsOthers(s, Step(s, c))
  {
    if c.o in s.index { NextLine(s, c.o); }
  }

  lemma KeepsTransitive(s: State, t: State, u: State)
    requires KeepsOthers(s, t) && KeepsOthers(t, u)
    ensures KeepsOthers(s, u)
  {
    assert u.owner[..|s.owner|] == u.owner[..|t.owner|][..|s.owner|];
    forall i | 0 <= i < |s.lines| && Foreign(s.owner[i], u.rewritten) ensures u.lines[i] == s.lines[i] {
      assert t.owner[..|s.owner|][i] == t.owner[i];
    }
    forall i | |s.lines| <= i < |u.lines| ensures New(u.owner[i], u.lines[i], u.rewritten) {
      if i < |t.lines| { assert u.owner[..|t.owner|][i] == u.owner[i]; }
    }
  }

  lemma {:induction false} RunKeepsOthers(s: State, cs: seq<Call>)
    requires Inv(s)
    ensures KeepsOthers(s, Run(s, cs))
    decreases cs
  {
    if cs != [] {
      StepKeeps(s, cs[0]);
      StepKeepsOthers(s, cs[0]);
      RunKeepsOthers(Step(s, cs[0]), cs[1..]);
      KeepsTransitive(s, Step(s, cs[0]), Run(s, cs));
    } else {
      assert s.owner[..|s.owner|] == s.owner;
    }
  }

  // ----- The signature ---------------------------------------------------------------------------------------

  function Signatures(owner: seq<Owner>): nat {
    if owner == [] then 0 else Signatures(owner[..|owner| - 1]) + if owner[|owner| - 1].Signature? then 1 else 0
  }

  lemma SignaturesAppend(owner: seq<Owner>, w: Owner)
    ensures Signatures(owner + [w]) == Signatures(owner) + if w.Signature? then 1 else 0
  {
    assert (owner + [w])[..|owner|] == owner;
  }

  function Budget(s: State): nat { Signatures(s.owner) + if s.needsSignature then 1 else 0 }

  /** A call never adds a signature unless one is missing. */
  lemma StepBudget(s: State, c: Call)
    requires Inv(s)
    ensures Budget(Step(s, c)) == Budget(s)
  {
    if c.Rewrite? && Emits(s, c.o, c.force) && c.o !in s.index {
      SignaturesAppend(s.owner, Signature);
      SignaturesAppend(s.owner, Of(c.o));
      SignaturesAppend(s.owner + [Signature], Of(c.o));
    }
  }

  lemma {:induction false} RunBudget(s: State, cs: seq<Call>)
    requires Inv(s)
    ensures Budget(Run(s, cs)) == Budget(s)
    decreases cs
  {
    if cs != [] {
      StepKeeps(s, cs[0]);
      StepBudget(s, cs[0]);
      RunBudget(Step(s, cs[0]), cs[1..]);
    }
  }
}
