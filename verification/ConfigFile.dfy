/**
  CONFIG REWRITE from the old file to the new one (config.c): reading the lines, removing orphaned
  lines, gluing the result, and what the new file holds.
*/
module ConfigFile {
  import opened Collections
  import opened ConfigRewrite
  import opened ConfigParse

  // ----- Orphaned lines ------------------------------------------------------------------------

  /** A line of a processed option that no call used again. */
  predicate Orphan(s: State, i: nat) {
    i < |s.owner| && s.owner[i].Of? && s.owner[i].o in s.rewritten && i in Pending(s, s.owner[i].o)
  }

  /** `rewriteConfigRemoveOrphaned`. */
  function Orphaned(s: State): State
    requires |s.owner| == |s.lines|
  {
    s.(lines := seq(|s.lines|, i requires 0 <= i < |s.lines| => if Orphan(s, i) then "" else s.lines[i]),
       owner := seq(|s.owner|, i requires 0 <= i < |s.owner| => if Orphan(s, i) then Blanked else s.owner[i]),
       index := map o | o in s.index :: if o in s.rewritten then [] else s.index[o])
  }

  /** The numbers of p below t. */
  function Cut(p: seq<nat>, t: nat): seq<nat> {
    if p == [] then [] else Cut(p[..|p| - 1], t) + if p[|p| - 1] < t then [p[|p| - 1]] else []
  }

  lemma {:induction false} CutAll(p: seq<nat>, t: nat)
    requires forall i :: 0 <= i < |p| ==> p[i] < t
    ensures Cut(p, t) == p
  {
    if p != [] { CutAll(p[..|p| - 1], t); }
  }

  lemma {:induction false} CutIs(p: seq<nat>, t: nat, k: nat)
    requires k <= |p| && (forall i :: 0 <= i < k ==> p[i] < t) && forall i :: k <= i < |p| ==> p[i] >= t
    ensures Cut(p, t) == p[..k]
    decreases |p|
  {
    if k == |p| {
      CutAll(p, t);
      assert p[..k] == p;
    } else {
      CutIs(p[..|p| - 1], t, k);
      assert p[..|p| - 1][..k] == p[..k];
    }
  }

  /** Taking an option's lines from t on away from it. */
  lemma {:induction false} PositionsCut(owner: seq<Owner>, owner': seq<Owner>, o: Opt, t: nat)
    requires |owner| == |owner'| && forall i :: 0 <= i < |owner| ==> (owner'[i] == Of(o) <==> owner[i] == Of(o) && i < t)
    ensures Positions(owner', o) == Cut(Positions(owner, o), t)
    decreases |owner|
  {
    if owner != [] {
      var n := |owner| - 1;
      PositionsCut(owner[..n], owner'[..n], o, t);
      var p := Positions(owner[..n], o);
      assert (p + [n])[..|p|] == p && p + [] == p;
      assert Cut(p, t) + [] == Cut(p, t);
    }
  }

  /** The orphaned lines of an option are those from some line on. */
  lemma OrphansFrom(s: State, o: Opt) returns (t: nat)
    requires Inv(s) && o in s.rewritten
    ensures Tracks(s, o)
    ensures forall i :: 0 <= i < |s.owner| && s.owner[i] == Of(o) ==> (Orphan(s, i) <==> i >= t)
    ensures Cut(Positions(s.owner, o), t) == Positions(s.owner, o)[..Used(s, o)]
  {
    assert Tracks(s, o);
    var p, u := Positions(s.owner, o), Used(s, o);
    PositionsOk(s.owner, o);
    t := if u < |p| then p[u] else |s.owner|;
    CutIs(p, t, u);
    forall i | 0 <= i < |s.owner| && s.owner[i] == Of(o) ensures Orphan(s, i) <==> i >= t { Listed(s.owner, o, i); }
  }

  /** Every line of an option has its place among the option's lines. */
  lemma {:induction false} Listed(owner: seq<Owner>, o: Opt, i: nat)
    requires i < |owner| && owner[i] == Of(o)
    ensures exists k :: 0 <= k < |Positions(owner, o)| && Positions(owner, o)[k] == i
    decreases |owner|
  {
    var n := |owner| - 1;
    var p := Positions(owner[..n], o);
    if i == n {
      assert Positions(owner, o)[|p|] == i;
    } else {
      Listed(owner[..n], o, i);
      var k :| 0 <= k < |p| && p[k] == i;
      assert Positions(owner, o)[k] == i;
    }
  }

  /** After the orphans are gone, a processed option owns exactly the lines written for it. */
  lemma OrphanedLines(s: State, o: Opt)
    requires Inv(s) && o in s.rewritten
    ensures Tracks(s, o) && var t := Orphaned(s);
      (forall i :: 0 <= i < |Positions(t.owner, o)| ==> Positions(t.owner, o)[i] < |t.lines|)
      && LinesAt(t.lines, Positions(t.owner, o)) == WrittenLines(s, o)
  {
    var from := OrphansFrom(s, o);
    var t := Orphaned(s);
    PositionsCut(s.owner, t.owner, o, from);
    PositionsOk(s.owner, o);
    PositionsOk(t.owner, o);
  }

  lemma OrphanedKeepsOthers(s: State, i: nat)
    requires Inv(s) && i < |s.lines| && Foreign(s.owner[i], s.rewritten)
    ensures Orphaned(s).lines[i] == s.lines[i] && Orphaned(s).owner[i] == s.owner[i]
  {}

  // ----- The old file --------------------------------------------------------------------------

  function OwnerOf(l: OldLine): Owner { if l.Setting? then Of(l.o) else Comment }

  function Empty(force: bool): State { State([], [], map[], {}, true, force) }

  /** One more line of the old file. */
  function Loaded(s: State, l: OldLine): State {
    var s1 := Appended(s, TextOf(l), OwnerOf(l));
    if l.Setting? then s1.(index := s.index[l.o := Pending(s, l.o) + [|s.lines|]])
    else if l.Remark? && l.text == SIGNATURE then s1.(needsSignature := false)
    else s1
  }

  function ReadOld(ls: seq<OldLine>, force: bool): State {
    if ls == [] then Empty(force) else Loaded(ReadOld(ls[..|ls| - 1], force), ls[|ls| - 1])
  }

  /** A freshly read file: every option's lines are all still to be used. */
  ghost predicate Fresh(s: State) { Inv(s) && (forall o :: Used(s, o) == 0) && Signatures(s.owner) == 0 && s.rewritten == {} }

  lemma LoadedTracks(s: State, l: OldLine, o: Opt)
    requires |s.owner| == |s.lines| && Tracks(s, o) && Used(s, o) == 0
    ensures Tracks(Loaded(s, l), o) && Used(Loaded(s, l), o) == 0
  {
    PositionsAppend(s.owner, OwnerOf(l), o);
    assert Pending(Loaded(s, l), o) == if OwnerOf(l) == Of(o) then Pending(s, o) + [|s.lines|] else Pending(s, o);
  }

  lemma LoadedFresh(s: State, l: OldLine)
    requires Fresh(s)
    ensures Fresh(Loaded(s, l))
  {
    var s' := Loaded(s, l);
    assert Signatures(s'.owner) == 0 by { SignaturesAppend(s.owner, OwnerOf(l)); }
    forall o ensures Used(s', o) == 0 && Tracks(s', o) {
      assert Tracks(s, o) && Used(s, o) == 0;
      LoadedTracks(s, l, o);
    }
  }

  lemma {:induction false} ReadOldFresh(ls: seq<OldLine>, force: bool)
    ensures Fresh(ReadOld(ls, force))
  {
    if ls != [] {
      ReadOldFresh(ls[..|ls| - 1], force);
      LoadedFresh(ReadOld(ls[..|ls| - 1], force), ls[|ls| - 1]);
    } else {
      assert forall o :: Tracks(Empty(force), o);
    }
  }

  ghost predicate Holds(lines: seq<string>, owner: seq<Owner>, ls: seq<OldLine>) {
    |lines| == |owner| == |ls| && forall i :: 0 <= i < |ls| ==> lines[i] == TextOf(ls[i]) && owner[i] == OwnerOf(ls[i])
  }

  lemma {:induction false} ReadOldTexts(ls: seq<OldLine>, force: bool)
    ensures Holds(ReadOld(ls, force).lines, ReadOld(ls, force).owner, ls)
  {
    if ls != [] {
      var before, l := ls[..|ls| - 1], ls[|ls| - 1];
      ReadOldTexts(before, force);
      assert ls == before + [l];
      HoldsNext(ReadOld(before, force).lines, ReadOld(before, force).owner, before, l);
    }
  }

  lemma HoldsNext(lines: seq<string>, owner: seq<Owner>, ls: seq<OldLine>, l: OldLine)
    requires Holds(lines, owner, ls)
    ensures Holds(lines + [TextOf(l)], owner + [OwnerOf(l)], ls + [l])
  {}

  lemma {:induction false} ReadOldSignature(ls: seq<OldLine>, force: bool)
    ensures ReadOld(ls, force).needsSignature <==> Remark(SIGNATURE) !in ls
  {
    if ls != [] {
      ReadOldSignature(ls[..|ls| - 1], force);
      assert ls == ls[..|ls| - 1] + [ls[|ls| - 1]];
    }
  }

  lemma ReadOldNext(ls: seq<OldLine>, force: bool, i: nat)
    requires i < |ls|
    ensures ReadOld(ls[..i + 1], force) == Loaded(ReadOld(ls[..i], force), ls[i])
  {
    assert ls[..i + 1][..i] == ls[..i];
  }

  // ----- The new file ----------------------------------------------------------------------------

  /** For every old file and every sequence of calls: a processed option's lines are the lines emitted for it,
      in emission order, and what it does not own any more is blank; all other lines are where they were,
      unchanged; only lines of processed options and a signature are added; at most one signature was added, and
      none if a comment already was one. */
  lemma NewFile(ls: seq<OldLine>, force: bool, cs: seq<Call>)
    ensures Fresh(ReadOld(ls, force)) && Inv(Run(ReadOld(ls, force), cs))
    ensures var s := ReadOld(ls, force);
      var t := Orphaned(Run(s, cs));
      && (forall o :: o in t.rewritten ==> OwnedLines(t, o) == EmittedAll(s, cs, o))
      && |ls| <= |t.lines| == |t.owner|
      && (forall i :: 0 <= i < |ls| ==> t.owner[i] == OwnerOf(ls[i]) || (t.owner[i].Blanked? && t.lines[i] == ""))
      && (forall i :: |ls| <= i < |t.lines| ==> New(t.owner[i], t.lines[i], t.rewritten))
      && (forall i :: 0 <= i < |ls| && Foreign(OwnerOf(ls[i]), t.rewritten) ==> t.lines[i] == TextOf(ls[i]))
      && Signatures(t.owner) <= if Remark(SIGNATURE) in ls then 0 else 1
  {
    var s := ReadOld(ls, force);
    ReadOldFresh(ls, force);
    ReadOldTexts(ls, force);
    ReadOldSignature(ls, force);
    RunKeeps(s, cs, "");
    var r := Run(s, cs);
    var t := Orphaned(r);
    forall o | o in t.rewritten ensures OwnedLines(t, o) == EmittedAll(s, cs, o) {
      RunKeeps(s, cs, o);
      OrphanedLines(r, o);
      assert Used(s, o) == 0;
      assert WrittenLines(s, o) == [];
    }
    RunKeepsOthers(s, cs);
    forall i | 0 <= i < |ls| && Foreign(OwnerOf(ls[i]), t.rewritten) ensures t.lines[i] == TextOf(ls[i]) {
      assert r.owner[..|s.owner|][i] == r.owner[i];
      OrphanedKeepsOthers(r, i);
    }
    forall i | |ls| <= i < |t.lines| ensures New(t.owner[i], t.lines[i], t.rewritten) { NotListed(s, r, i); }
    RunBudget(s, cs);
    SignaturesLess(r.owner, t.owner);
  }

  /** A new line is never an orphan. */
  lemma NotListed(s: State, r: State, i: nat)
    requires Inv(s) && KeepsOthers(s, r) && |s.lines| <= i < |r.lines|
    ensures !Orphan(r, i)
  {
    if Orphan(r, i) {
      var o := r.owner[i].o;
      assert i in Pending(s, o) && Tracks(s, o);
      PositionsOk(s.owner, o);
      assert false;
    }
  }

  /** The lines an option owns. */
  function OwnedLines(s: State, o: Opt): seq<string>
    requires |s.owner| == |s.lines|
  {
    PositionsOk(s.owner, o);
    LinesAt(s.lines, Positions(s.owner, o))
  }

  lemma {:induction false} SignaturesLess(a: seq<Owner>, b: seq<Owner>)
    requires |a| == |b| && forall i :: 0 <= i < |a| ==> b[i].Signature? ==> a[i].Signature?
    ensures Signatures(b) <= Signatures(a)
  {
    if a != [] { SignaturesLess(a[..|a| - 1], b[..|b| - 1]); }
  }

  // ----- Gluing the lines -------------------------------------------------------------------------

  /** The lines with every run of blank lines made one. */
  function Collapse(lines: seq<string>, wasEmpty: bool): seq<string>
    decreases lines
  {
    if lines == [] then []
    else if lines[0] == "" then (if wasEmpty then [] else [""]) + Collapse(lines[1..], true)
    else [lines[0]] + Collapse(lines[1..], false)
  }

  function Glued(lines: seq<string>): string { if lines == [] then "" else lines[0] + "\n" + Glued(lines[1..]) }

  function NonBlank(lines: seq<string>): seq<string> {
    if lines == [] then [] else (if lines[0] == "" then [] else [lines[0]]) + NonBlank(lines[1..])
  }

  predicate NoBlankRuns(lines: seq<string>) { forall i :: 0 < i < |lines| ==> !(lines[i - 1] == "" && lines[i] == "") }

  /** Collapsing keeps every other line in order, leaves no run of blank lines, and starts with a blank one only
      if the line before was not blank. */
  lemma {:induction false} CollapseOnlyBlanks(lines: seq<string>, wasEmpty: bool)
    ensures NonBlank(Collapse(lines, wasEmpty)) == NonBlank(lines) && NoBlankRuns(Collapse(lines, wasEmpty))
    ensures wasEmpty && Collapse(lines, wasEmpty) != [] ==> Collapse(lines, wasEmpty)[0] != ""
    decreases lines
  {
    if lines != [] {
      var blank := lines[0] == "";
      CollapseOnlyBlanks(lines[1..], blank);
      var rest := Collapse(lines[1..], blank);
      assert ([lines[0]] + rest)[1..] == rest && [] + rest == rest;
    }
  }

  lemma TailNoRuns(lines: seq<string>)
    requires NoBlankRuns(lines) && lines != []
    ensures NoBlankRuns(lines[1..]) && (lines[0] == "" && lines[1..] != [] ==> lines[1..][0] != "")
  {
    var tail := lines[1..];
    assert tail != [] ==> tail[0] == lines[1];
    forall i | 0 < i < |tail| ensures !(tail[i - 1] == "" && tail[i] == "") {
      assert tail[i - 1] == lines[i] && tail[i] == lines[i + 1];
    }
  }

  /** Lines without runs of blank lines stay as they are. */
  lemma {:induction false} CollapseNothing(lines: seq<string>, wasEmpty: bool)
    requires NoBlankRuns(lines) && (wasEmpty && lines != [] ==> lines[0] != "")
    ensures Collapse(lines, wasEmpty) == lines
    decreases lines
  {
    if lines != [] {
      TailNoRuns(lines);
      CollapseNothing(lines[1..], lines[0] == "");
      assert [lines[0]] + lines[1..] == lines;
    }
  }

  lemma CollapseNext(kept: seq<string>, rest: seq<string>, wasEmpty: bool)
    requires rest != []
    ensures kept + Collapse(rest, wasEmpty) ==
            if rest[0] == "" && wasEmpty then kept + Collapse(rest[1..], true)
            else kept + [rest[0]] + Collapse(rest[1..], rest[0] == "")
  {}

  /** A run of blank lines counts as one of them. */
  lemma {:induction false} CollapseRun(a: seq<string>, b: seq<string>, wasEmpty: bool)
    ensures Collapse(a + ["", ""] + b, wasEmpty) == Collapse(a + [""] + b, wasEmpty)
    decreases |a|
  {
    if a == [] {
      assert (a + ["", ""] + b)[1..] == [""] + b && ([""] + b)[1..] == b && a + [""] + b == [""] + b;
      assert [] + Collapse(b, true) == Collapse(b, true);
    } else {
      assert (a + ["", ""] + b)[1..] == a[1..] + ["", ""] + b && (a + [""] + b)[1..] == a[1..] + [""] + b;
      CollapseRun(a[1..], b, a[0] == "");
    }
  }

  lemma GluedAppend(a: seq<string>, l: string)
    ensures Glued(a + [l]) == Glued(a) + (l + "\n")
  {
    if a == [] {
      assert a + [l] == [l] && [l][1..] == [];
    } else {
      assert (a + [l])[1..] == a[1..] + [l];
      GluedAppend(a[1..], l);
    }
  }

  // ----- Clearing option by option ----------------------------------------------------------------

  function Blank(s: State, at: set<nat>): State
    requires |s.owner| == |s.lines|
  {
    s.(lines := seq(|s.lines|, i requires 0 <= i < |s.lines| => if i in at then "" else s.lines[i]),
       owner := seq(|s.owner|, i requires 0 <= i < |s.owner| => if i in at then Blanked else s.owner[i]))
  }

  lemma BlankTwice(s: State, a: set<nat>, b: set<nat>)
    requires |s.owner| == |s.lines|
    ensures Blank(Blank(s, a), b) == Blank(s, a + b)
  {}

  function Members(at: seq<nat>): set<nat> { set n | n in at }

  /** The lines still listed for an option made blank. */
  function Emptied(s: State, o: Opt): State
    requires |s.owner| == |s.lines| && o in s.index
  {
    Blank(s, Members(s.index[o])).(index := s.index[o := []])
  }

  function OrphansOf(s: State, done: set<Opt>): set<nat> {
    set i: nat | i < |s.owner| && Orphan(s, i) && s.owner[i].o in done
  }

  /** The orphaned lines of some options made blank. */
  function Cleared(s: State, done: set<Opt>): State
    requires |s.owner| == |s.lines|
  {
    Blank(s, OrphansOf(s, done)).(index := ClearedLists(s.index, s.rewritten, done))
  }

  lemma ClearedNone(s: State)
    requires |s.owner| == |s.lines|
    ensures Cleared(s, {}) == s
  {
    assert OrphansOf(s, {}) == {};
  }

  lemma ClearedAll(s: State)
    requires |s.owner| == |s.lines|
    ensures Cleared(s, s.index.Keys) == Orphaned(s)
  {}

  lemma OrphansNext(s: State, done: set<Opt>, o: Opt)
    requires Inv(s) && o in s.index && o !in done
    ensures forall n :: n in s.index[o] ==> n < |s.lines| && s.owner[n] == Of(o)
    ensures OrphansOf(s, done + {o}) == if o in s.rewritten then OrphansOf(s, done) + Members(s.index[o]) else OrphansOf(s, done)
  {
    assert Tracks(s, o);
    PositionsOk(s.owner, o);
    assert forall n :: n in s.index[o] ==> n < |s.lines| && s.owner[n] == Of(o);
  }

  lemma ClearedNext(s: State, done: set<Opt>, o: Opt)
    requires Inv(s) && o in s.index && o !in done
    ensures Cleared(s, done).index[o] == s.index[o] && forall n :: n in s.index[o] ==> n < |s.lines|
    ensures Cleared(s, done + {o}) == if o in s.rewritten then Emptied(Cleared(s, done), o) else Cleared(s, done)
  {
    OrphansNext(s, done, o);
    BlankTwice(s, OrphansOf(s, done), Members(s.index[o]));
    ClearedIndex(s.index, s.rewritten, done, o);
  }

  function ClearedLists(index: map<Opt, seq<nat>>, rewritten: set<Opt>, done: set<Opt>): map<Opt, seq<nat>> {
    map o | o in index :: if o in rewritten && o in done then [] else index[o]
  }

  lemma ClearedIndex(index: map<Opt, seq<nat>>, rewritten: set<Opt>, done: set<Opt>, o: Opt)
    requires o in index && o !in done
    ensures ClearedLists(index, rewritten, done + {o}) ==
            if o in rewritten then ClearedLists(index, rewritten, done)[o := []] else ClearedLists(index, rewritten, done)
  {}

  // ----- The state in memory -----------------------------------------------------------------------

  class RewriteState {
    var lines: seq<string>
    var index: map<Opt, seq<nat>>
    var rewritten: set<Opt>
    var needsSignature: bool
    var forceWrite: bool
    ghost var owner: seq<Owner>

    ghost function Now(): State
      reads this
    {
      State(lines, owner, index, rewritten, needsSignature, forceWrite)
    }

    constructor (force: bool)
      ensures Now() == Empty(force)
    {
      lines, index, rewritten, needsSignature, forceWrite, owner := [], map[], {}, true, force, [];
    }

    method AppendLine(line: string, ghost w: Owner)
      modifies this`lines, this`owner
      ensures Now() == old(Appended(Now(), line, w))
    {
      lines := lines + [line];
      owner := owner + [w];
    }

    method AddLineNumberToOption(o: Opt, n: nat)
      modifies this`index
      ensures Now() == old(Now().(index := index[o := Pending(Now(), o) + [n]]))
    {
      var l := if o in index then index[o] else [];
      index := index[o := l + [n]];
    }

    method MarkAsProcessed(o: Opt)
      modifies this`rewritten
      ensures Now() == old(Marked(Now(), o))
    {
      rewritten := rewritten + {o};
    }

    /** One line of the old file. */
    method ReadLine(l: OldLine, number: nat)
      requires number == |lines| == |owner|
      modifies this
      ensures Now() == old(Loaded(Now(), l))
    {
      if l.Remark? {
        if needsSignature && l.text == SIGNATURE { needsSignature := false; }
        AppendLine(l.text, Comment);
      } else if l.Unknown? {
        AppendLine("# ??? " + l.text, Comment);
      } else {
        AppendLine(l.text, Of(l.o));
        AddLineNumberToOption(l.o, number);
      }
    }

    /** The loop of `rewriteConfigReadOldFile`. */
    method Read(ls: seq<OldLine>)
      requires Now() == Empty(forceWrite)
      modifies this
      ensures Now() == ReadOld(ls, old(forceWrite)) && Fresh(Now())
    {
      var i := 0;
      ghost var force := forceWrite;
      while i < |ls|
        invariant 0 <= i <= |ls| && Now() == ReadOld(ls[..i], force)
      {
        ReadOldTexts(ls[..i], force);
        ReadOldNext(ls, force, i);
        ReadLine(ls[i], i);
        i := i + 1;
      }
      assert ls[..i] == ls;
      ReadOldFresh(ls, force);
    }

    /** `rewriteConfigReadOldFile`, given what the file holds. */
    method ReadFile(content: string, known: string -> Option<Opt>, sentinel: bool)
      requires Now() == Empty(forceWrite)
      modifies this
      ensures Now() == ReadOld(FileLines(content, known, sentinel), old(forceWrite)) && Fresh(Now())
    {
      if |content| == 0 {
        ReadOldFresh([], forceWrite);
        return;
      }
      var lines := SplitLines(content);
      Read(ClassifyAll(lines, known, sentinel));
    }

    /** `rewriteConfigRewriteLine`; says whether a line was written. */
    method RewriteLine(o: Opt, line: string, force: bool) returns (written: bool)
      requires Inv(Now())
      modifies this
      ensures Inv(Now()) && Now() == old(Step(Now(), Rewrite(o, line, force))) && written == old(Emits(Now(), o, force))
    {
      StepKeeps(Now(), Rewrite(o, line, force));
      MarkAsProcessed(o);
      if o !in index && !force && !forceWrite { return false; }
      if o in index {
        NextLine(old(Now()), o);
        var n := index[o][0];
        index := if |index[o]| == 1 then index - {o} else index[o := index[o][1..]];
        lines := lines[n := line];
      } else {
        if needsSignature {
          AppendLine(SIGNATURE, Signature);
          needsSignature := false;
        }
        AppendLine(line, Of(o));
      }
      written := true;
    }

    method ClearLine(o: Opt)
      requires |lines| == |owner| && o in index && index[o] != [] && index[o][0] < |lines|
      modifies this`lines, this`index, this`owner
      ensures Now() == old(Blank(Now(), {index[o][0]}).(index := index[o := index[o][1..]]))
    {
      var n := index[o][0];
      lines := lines[n := ""];
      owner := owner[n := Blanked];
      index := index[o := index[o][1..]];
    }

    /** The inner loop of `rewriteConfigRemoveOrphaned`. */
    method ClearOption(o: Opt)
      requires |lines| == |owner| && o in index && forall n :: n in index[o] ==> n < |lines|
      modifies this`lines, this`index, this`owner
      ensures Now() == old(Emptied(Now(), o))
    {
      ghost var s, done: set<nat>, all := Now(), {}, Members(index[o]);
      assert Blank(s, done) == s;
      while |index[o]| > 0
        invariant |lines| == |owner| == |s.lines| && o in index
        invariant done + Members(index[o]) == all && Now() == Blank(s, done).(index := s.index[o := index[o]])
        decreases |index[o]|
      {
        ghost var n, rest := index[o][0], index[o][1..];
        assert index[o] == [n] + rest;
        assert Members(index[o]) == {n} + Members(rest) && n in all;
        BlankTwice(s, done, {n});
        ClearLine(o);
        done := done + {n};
      }
      assert Members(index[o]) == {};
    }

    /** `rewriteConfigRemoveOrphaned`: the options come in any order. */
    method RemoveOrphaned()
      requires Inv(Now())
      modifies this`lines, this`index, this`owner
      ensures Now() == old(Orphaned(Now()))
    {
      ghost var s, done := Now(), {};
      var todo := index.Keys;
      ClearedNone(s);
      while todo != {}
        invariant done + todo == s.index.Keys && done !! todo && Now() == Cleared(s, done)
        decreases |todo|
      {
        var o :| o in todo;
        ClearedNext(s, done, o);
        if o in rewritten { ClearOption(o); }
        todo, done := todo - {o}, done + {o};
      }
      ClearedAll(s);
    }

    /** `rewriteConfigGetContentFromState`. */
    method GetContent() returns (content: string)
      ensures content == Glued(Collapse(lines, false))
    {
      content := "";
      var j, wasEmpty := 0, false;
      ghost var kept: seq<string> := [];
      assert lines[0..] == lines && kept + Collapse(lines, false) == Collapse(lines, false);
      while j < |lines|
        invariant 0 <= j <= |lines| && content == Glued(kept) && kept + Collapse(lines[j..], wasEmpty) == Collapse(lines, false)
      {
        CollapseNext(kept, lines[j..], wasEmpty);
        assert lines[j..][1..] == lines[j + 1..];
        if |lines[j]| == 0 && wasEmpty {
          j := j + 1;
        } else {
          wasEmpty := |lines[j]| == 0;
          GluedAppend(kept, lines[j]);
          content := content + (lines[j] + "\n");
          kept := kept + [lines[j]];
          j := j + 1;
        }
      }
      assert kept + Collapse([], wasEmpty) == kept;
    }
  }
}
