/**
  CONFIG REWRITE applied to its own output: what a rewrite without any call does to a file, and that
  it does nothing from the second time on.
*/
module ConfigSettled {
  import opened Collections
  import opened ConfigRewrite
  import opened ConfigParse
  import opened ConfigFile
  import SplitArgs

  function TextsOf(ls: seq<OldLine>): seq<string> { if ls == [] then [] else [TextOf(ls[0])] + TextsOf(ls[1..]) }

  /** What the file holds after a rewrite without any call. */
  function Rewritten(content: string, known: string -> Option<Opt>, sentinel: bool): string {
    Glued(Collapse(TextsOf(FileLines(content, known, sentinel)), false))
  }

  /** Lines that hold no newline and that reading leaves as they are. */
  ghost predicate Settled(lines: seq<string>, known: string -> Option<Opt>, sentinel: bool) {
    forall i :: 0 <= i < |lines| ==> '\n' !in lines[i] && TextOf(Classify(lines[i], known, sentinel)) == lines[i]
  }

  lemma {:induction false} LinesHaveNoNewline(content: string)
    requires content != []
    ensures LinesOf(content) != [] && forall i :: 0 <= i < |LinesOf(content)| ==> '\n' !in LinesOf(content)[i]
    decreases content
  {
    if '\n' in content && |content| > 1 { LinesHaveNoNewline(content[1..]); }
  }

  lemma {:induction false} TextsSettled(lines: seq<string>, known: string -> Option<Opt>, sentinel: bool)
    requires forall i :: 0 <= i < |lines| ==> '\n' !in lines[i]
    ensures var ts := TextsOf(ClassifyAll(lines, known, sentinel)); |ts| == |lines| && Settled(ts, known, sentinel)
  {
    if lines != [] {
      ReadAgain(lines[0], known, sentinel);
      TextsSettled(lines[1..], known, sentinel);
    }
  }

  lemma {:induction false} SettledTexts(lines: seq<string>, known: string -> Option<Opt>, sentinel: bool)
    requires Settled(lines, known, sentinel)
    ensures TextsOf(ClassifyAll(lines, known, sentinel)) == lines
  {
    if lines != [] { SettledTexts(lines[1..], known, sentinel); }
  }

  lemma {:induction false} CollapseSettled(lines: seq<string>, wasEmpty: bool, known: string -> Option<Opt>, sentinel: bool)
    requires Settled(lines, known, sentinel)
    ensures Settled(Collapse(lines, wasEmpty), known, sentinel)
    decreases lines
  {
    if lines != [] { CollapseSettled(lines[1..], lines[0] == "", known, sentinel); }
  }

  /** Gluing and splitting again gives one more line, an empty one. */
  lemma {:induction false} SplitGlued(lines: seq<string>)
    requires lines != [] && forall i :: 0 <= i < |lines| ==> '\n' !in lines[i]
    ensures Glued(lines) != [] && LinesOf(Glued(lines)) == lines + [""]
  {
    if |lines| > 1 {
      SplitGlued(lines[1..]);
      SplitLine(lines[0], Glued(lines[1..]));
      assert [lines[0]] + (lines[1..] + [""]) == lines + [""];
    } else {
      assert Glued(lines[1..]) == "";
      SplitLine(lines[0], "");
      assert [lines[0]] + [""] == lines + [""];
    }
  }

  // ----- Blank lines at the end ---------------------------------------------------------------------

  predicate EndsBlank(lines: seq<string>, wasEmpty: bool) { if lines == [] then wasEmpty else lines[|lines| - 1] == "" }

  lemma {:induction false} CollapseEnds(lines: seq<string>, wasEmpty: bool)
    ensures EndsBlank(Collapse(lines, wasEmpty), wasEmpty) == EndsBlank(lines, wasEmpty)
    decreases lines
  {
    if lines != [] { CollapseEnds(lines[1..], lines[0] == ""); }
  }

  lemma {:induction false} CollapseBlankLast(lines: seq<string>, wasEmpty: bool)
    ensures Collapse(lines + [""], wasEmpty) == Collapse(lines, wasEmpty) + if EndsBlank(lines, wasEmpty) then [] else [""]
    decreases lines
  {
    if lines == [] {
      assert lines + [""] == [""] && [""][1..] == [];
    } else {
      assert (lines + [""])[0] == lines[0] && (lines + [""])[1..] == lines[1..] + [""];
      CollapseBlankLast(lines[1..], lines[0] == "");
      assert EndsBlank(lines, wasEmpty) == EndsBlank(lines[1..], lines[0] == "");
    }
  }

  // ----- Rewriting again --------------------------------------------------------------------------------

  function TextsIn(content: string, known: string -> Option<Opt>, sentinel: bool): seq<string> { TextsOf(FileLines(content, known, sentinel)) }

  /** A file that was rewritten reads as the same lines and an empty one. */
  lemma TextsAgain(content: string, known: string -> Option<Opt>, sentinel: bool)
    requires content != ""
    ensures var c := Collapse(TextsIn(content, known, sentinel), false);
      c != [] && NoBlankRuns(c) && TextsIn(Rewritten(content, known, sentinel), known, sentinel) == c + [""]
  {
    var ts := TextsIn(content, known, sentinel);
    LinesHaveNoNewline(content);
    TextsSettled(LinesOf(content), known, sentinel);
    CollapseSettled(ts, false, known, sentinel);
    CollapseOnlyBlanks(ts, false);
    var c := Collapse(ts, false);
    SplitGlued(c);
    assert Settled(c + [""], known, sentinel) by { EmptyLine(known, sentinel); }
    SettledTexts(c + [""], known, sentinel);
  }

  lemma EmptyLine(known: string -> Option<Opt>, sentinel: bool)
    ensures TextOf(Classify("", known, sentinel)) == ""
  {}

  lemma {:induction false} GluedLength(a: seq<string>)
    ensures |Glued(a + [""])| == |Glued(a)| + 1
  {
    GluedAppend(a, "");
  }

  /** The first rewrite adds an empty line unless the file is empty or ends with one. */
  lemma RewrittenAgain(content: string, known: string -> Option<Opt>, sentinel: bool)
    ensures var once := Rewritten(content, known, sentinel);
      Rewritten(once, known, sentinel) == once <==> content == "" || EndsBlank(TextsIn(content, known, sentinel), false)
  {
    if content != "" {
      var ts := TextsIn(content, known, sentinel);
      var c := Collapse(ts, false);
      TextsAgain(content, known, sentinel);
      CollapseBlankLast(c, false);
      CollapseNothing(c, false);
      CollapseEnds(ts, false);
      assert c + [] == c;
      GluedLength(c);
    }
  }

  /** From the second time on a rewrite without calls changes nothing. */
  lemma RewriteSettles(content: string, known: string -> Option<Opt>, sentinel: bool)
    ensures var twice := Rewritten(Rewritten(content, known, sentinel), known, sentinel); Rewritten(twice, known, sentinel) == twice
  {
    var once := Rewritten(content, known, sentinel);
    if content != "" { TextsAgain(content, known, sentinel); }
    RewrittenAgain(once, known, sentinel);
  }

  lemma {:induction false} TextsAt(ls: seq<OldLine>)
    ensures |TextsOf(ls)| == |ls| && forall i :: 0 <= i < |ls| ==> TextsOf(ls)[i] == TextOf(ls[i])
  {
    if ls != [] { TextsAt(ls[1..]); }
  }

  lemma NothingOrphaned(s: State)
    requires |s.owner| == |s.lines| && s.rewritten == {}
    ensures Orphaned(s).lines == s.lines
  {}

  /** The rewrite itself, with no option to write. */
  method RewriteNothing(content: string, known: string -> Option<Opt>, sentinel: bool) returns (written: string)
    ensures written == Rewritten(content, known, sentinel)
  {
    var state := new RewriteState(false);
    state.ReadFile(content, known, sentinel);
    ghost var ls := FileLines(content, known, sentinel);
    ReadOldTexts(ls, false);
    TextsAt(ls);
    assert state.lines == TextsOf(ls);
    NothingOrphaned(state.Now());
    state.RemoveOrphaned();
    written := state.GetContent();
  }

  /** A file of one line, with its newline, gains an empty line. */
  lemma OneLineExample(known: string -> Option<Opt>)
    ensures Rewritten("#\n", known, false) == "#\n\n"
  {
    TrimIs("#");
    OneLine("#", "#", known);
  }

  /** A file of one line. */
  lemma OneLine(line: string, text: string, known: string -> Option<Opt>)
    requires '\n' !in line && text == TextOf(Classify(line, known, false)) && text != ""
    ensures Rewritten(line + "\n", known, false) == text + "\n\n"
  {
    var lines, texts := [line], [text, ""];
    assert Glued(lines) == line + "\n" by { assert lines[1..] == []; }
    SplitGlued(lines);
    var both := [line, ""];
    assert lines + [""] == both && both[1..] == [""] && [""][1..] == [] && texts[1..] == [""];
    EmptyLine(known, false);
    assert ClassifyAll([""], known, false) == [Classify("", known, false)];
    var ls := [Classify(line, known, false), Classify("", known, false)];
    assert ClassifyAll(both, known, false) == ls;
    assert ls[1..] == [Classify("", known, false)] && TextsOf(ls[1..]) == [""] by { assert ls[1..][1..] == []; }
    assert TextsOf(ls) == texts;
    assert Collapse(texts, false) == texts;
    assert Glued([""]) == "\n" && text + "\n" + "\n" == text + "\n\n";
  }

  /** A line that is not about any option is kept as a comment. */
  lemma UnknownExample(known: string -> Option<Opt>)
    requires known("z").None?
    ensures Rewritten("z\n", known, false) == "# ??? z\n\n"
  {
    UnknownLine(known);
    OneLine("z", "# ??? z", known);
  }

  lemma UnknownLine(known: string -> Option<Opt>)
    requires known("z").None?
    ensures TextOf(Classify("z", known, false)) == "# ??? z"
  {
    TrimIs("z");
    assert Lower("z") == "z";
    assert CString("z") == "z" by { assert "z"[1..] == ""; }
    assert SplitArgs.Plain("z", "") == Some(SplitArgs.Token("z", "")) by { assert "z"[1..] == "" && "" + "z" == "z"; }
    assert SplitArgs.Split("z") == Some(["z"]) by { assert ["z"] + [] == ["z"] && SkipBlanks("z") == "z"; }
  }
}
