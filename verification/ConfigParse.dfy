/**
  How CONFIG REWRITE reads the old file (config.c, `rewriteConfigReadOldFile`; sds.c, `sdstrim`,
  `sdssplitlen`): into lines, and each line into a comment, a setting or something unknown.
*/
module ConfigParse {
  import opened Collections
  import opened ConfigRewrite
  import SplitArgs

  /** A line of the old file, trimmed. */
  datatype OldLine = Remark(text: string) | Setting(o: Opt, text: string) | Unknown(text: string)

  function TextOf(l: OldLine): string { if l.Unknown? then "# ??? " + l.text else l.text }

  // ----- Lines -----------------------------------------------------------------------------

  function LinesOf(content: string): seq<string>
    requires content != []
    decreases content
  {
    if '\n' !in content then [content]
    else if content[0] == '\n' then [""] + (if |content| == 1 then [""] else LinesOf(content[1..]))
    else
      assert content[1..] != [];
      var more := LinesOf(content[1..]);
      [[content[0]] + more[0]] + more[1..]
  }

  lemma {:induction false} SplitLine(line: string, rest: string)
    requires '\n' !in line
    ensures LinesOf(line + "\n" + rest) == [line] + if rest == [] then [""] else LinesOf(rest)
    decreases line
  {
    var s := line + "\n" + rest;
    assert s[|line|] == '\n';
    if line == [] {
      assert s[1..] == rest;
    } else {
      assert s[1..] == line[1..] + "\n" + rest;
      SplitLine(line[1..], rest);
      assert [line[0]] + line[1..] == line;
    }
  }

  /** The lines of what is left, the last of them perhaps empty. */
  function LinesLeft(s: string): seq<string> { if s == [] then [""] else LinesOf(s) }

  lemma LinesTurn(token: string, rest: string)
    requires '\n' !in token && rest != []
    ensures if rest[0] == '\n' then LinesLeft(token + rest) == [token] + LinesLeft(rest[1..])
            else '\n' !in token + [rest[0]] && token + [rest[0]] + rest[1..] == token + rest
  {
    if rest[0] == '\n' {
      assert token + rest == token + "\n" + rest[1..];
      SplitLine(token, rest[1..]);
    }
  }

  lemma LastLine(token: string)
    requires '\n' !in token
    ensures LinesLeft(token) == [token]
  {}

  /** `sdssplitlen` with a newline. */
  method SplitLines(content: string) returns (lines: seq<string>)
    requires content != []
    ensures lines == LinesOf(content)
  {
    var token, rest := "", content;
    ghost var goal := LinesOf(content);
    lines := [];
    assert token + rest == content && lines + goal == goal;
    while rest != []
      invariant '\n' !in token && lines + LinesLeft(token + rest) == goal
      decreases |rest|
    {
      LinesTurn(token, rest);
      var c := rest[0];
      rest := rest[1..];
      if c == '\n' {
        Assoc(lines, [token], LinesLeft(rest));
        lines, token := lines + [token], "";
        assert token + rest == rest;
      } else {
        token := token + [c];
      }
    }
    assert token + rest == token;
    LastLine(token);
    lines := lines + [token];
  }

  // ----- Trimming ---------------------------------------------------------------------------

  /** The characters given, and the zero byte, which `strchr` finds at their end. */
  predicate Strips(c: char) { c == '\r' || c == '\n' || c == '\t' || c == ' ' || c == '\0' }

  function TrimLeft(s: string): string { if s != [] && Strips(s[0]) then TrimLeft(s[1..]) else s }

  function TrimRight(s: string): string { if s != [] && Strips(s[|s| - 1]) then TrimRight(s[..|s| - 1]) else s }

  function Trim(s: string): string { TrimRight(TrimLeft(s)) }

  /** Nothing to trim. */
  predicate Trimmed(s: string) { s == [] || (!Strips(s[0]) && !Strips(s[|s| - 1])) }

  lemma {:induction false} TrimLeftIs(s: string)
    ensures TrimLeft(s) == [] || !Strips(TrimLeft(s)[0])
    ensures forall c :: c in TrimLeft(s) ==> c in s
  {
    if s != [] && Strips(s[0]) { TrimLeftIs(s[1..]); }
  }

  lemma {:induction false} TrimRightIs(s: string)
    requires s == [] || !Strips(s[0])
    ensures Trimmed(TrimRight(s)) && (s != [] ==> TrimRight(s) != [] && TrimRight(s)[0] == s[0])
    ensures forall c :: c in TrimRight(s) ==> c in s
  {
    if s != [] && Strips(s[|s| - 1]) { TrimRightIs(s[..|s| - 1]); }
  }

  /** Trimming leaves nothing to trim, adds nothing, and does nothing the second time. */
  lemma TrimIs(s: string)
    ensures Trimmed(Trim(s)) && (forall c :: c in Trim(s) ==> c in s) && (Trimmed(s) ==> Trim(s) == s)
  {
    TrimLeftIs(s);
    TrimRightIs(TrimLeft(s));
  }

  lemma {:induction false} TrimLeftCuts(s: string) returns (a: string)
    ensures s == a + TrimLeft(s) && forall c :: c in a ==> Strips(c)
  {
    a := "";
    if s != [] && Strips(s[0]) {
      var more := TrimLeftCuts(s[1..]);
      a := [s[0]] + more;
    }
  }

  lemma {:induction false} TrimRightCuts(s: string) returns (b: string)
    ensures s == TrimRight(s) + b && forall c :: c in b ==> Strips(c)
  {
    b := "";
    if s != [] && Strips(s[|s| - 1]) {
      var more := TrimRightCuts(s[..|s| - 1]);
      b := more + [s[|s| - 1]];
    }
  }

  /** What is trimmed: the characters of `" \t\r\n"` and the zero byte. */
  lemma StripsMeans(c: char)
    ensures Strips(c) <==> c as int in {0, 9, 10, 13, 32}
  {}

  /** What trimming takes away is blanks, ends of lines and zero bytes at both ends, as many as there are. */
  lemma TrimCuts(s: string) returns (a: string, b: string)
    ensures s == a + Trim(s) + b && Trimmed(Trim(s)) && (forall c :: c in a ==> Strips(c)) && (forall c :: c in b ==> Strips(c))
  {
    a := TrimLeftCuts(s);
    b := TrimRightCuts(TrimLeft(s));
    TrimIs(s);
    assert a + Trim(s) + b == a + (Trim(s) + b);
  }

  /** `sdstrim`. */
  method SdsTrim(s: string) returns (t: string)
    ensures t == Trim(s)
  {
    t := s;
    while t != [] && Strips(t[0])
      invariant TrimLeft(t) == TrimLeft(s)
      decreases |t|
    {
      t := t[1..];
    }
    while t != [] && Strips(t[|t| - 1])
      invariant TrimRight(t) == TrimRight(TrimLeft(s))
      decreases |t|
    {
      t := t[..|t| - 1];
    }
  }

  // ----- What a line is ------------------------------------------------------------------------

  /** Words that are options of a file though not of the server. */
  predicate FileOnly(name: string) {
    name == "include" || name == "rename-command" || name == "user" || name == "loadmodule" || name == "sentinel"
  }

  /** The option a line is indexed under: aliases stand for their option, sentinel settings are told apart, and letter
      case is not. */
  function OptionOf(argv: seq<string>, alias: Option<Opt>, sentinel: bool): (o: Opt)
    requires argv != []
    ensures Lower(o) == o
  {
    var name := if alias.Some? then alias.value else argv[0];
    var option := if sentinel && |argv| > 1 && Lower(name) == "sentinel" then name + " " + argv[1] else name;
    LowerOfLower(option);
    Lower(option)
  }

  /** A line of the file; known gives the option a name stands for, in any letter case. */
  function Classify(line: string, known: string -> Option<Opt>, sentinel: bool): OldLine {
    var t := Trim(line);
    if t == "" || t[0] == '#' then Remark(t)
    else
      var argv := SplitArgs.Split(CString(t));
      if argv.None? || argv.value == [] then Unknown(t)
      else
        var name := Lower(argv.value[0]);
        if known(name).None? && !FileOnly(name) then Unknown(t) else Setting(OptionOf(argv.value, known(name), sentinel), t)
  }

  function ClassifyAll(lines: seq<string>, known: string -> Option<Opt>, sentinel: bool): seq<OldLine> {
    if lines == [] then [] else [Classify(lines[0], known, sentinel)] + ClassifyAll(lines[1..], known, sentinel)
  }

  /** The lines of a file; an empty file has none. */
  function FileLines(content: string, known: string -> Option<Opt>, sentinel: bool): seq<OldLine> {
    if content == [] then [] else ClassifyAll(LinesOf(content), known, sentinel)
  }

  /** The text of a line, written out and read again, is itself: what was unknown has become a comment. */
  lemma ReadAgain(line: string, known: string -> Option<Opt>, sentinel: bool)
    ensures var l := Classify(line, known, sentinel);
      && ('\n' !in line ==> '\n' !in TextOf(l))
      && Classify(TextOf(l), known, sentinel) == if l.Unknown? then Remark(TextOf(l)) else l
  {
    var t := Trim(line);
    TrimIs(line);
    TrimIs(t);
    if Classify(line, known, sentinel).Unknown? {
      var u := "# ??? " + t;
      assert u[0] == '#' && u[|u| - 1] == t[|t| - 1];
      TrimIs(u);
    }
  }
}
