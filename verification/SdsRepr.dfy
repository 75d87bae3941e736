/**
  `sdscatrepr` (sds.c): a string in quotes, with escapes; and that `sdssplitargs` reads it back, for every
  string of bytes. This is how CONFIG REWRITE writes the value of a string option.
*/
module SdsRepr {
  import opened Collections
  import opened SplitArgs

  predicate IsByte(c: char) { c as int < 256 }

  ghost predicate Bytes(s: string) { forall i :: 0 <= i < |s| ==> IsByte(s[i]) }

  predicate IsPrint(c: char) { ' ' <= c <= '~' }

  function HexDigit(d: nat): char
    requires d < 16
  {
    if d < 10 then ('0' as int + d) as char else ('a' as int + d - 10) as char
  }

  function Quoted(c: char): string
    requires IsByte(c)
  {
    if c == '\\' || c == '"' then ['\\', c]
    else if c == '\n' then "\\n"
    else if c == '\r' then "\\r"
    else if c == '\t' then "\\t"
    else if c as int == 7 then "\\a"
    else if c as int == 8 then "\\b"
    else if IsPrint(c) then [c]
    else ['\\', 'x', HexDigit(c as int / 16), HexDigit(c as int % 16)]
  }

  function Body(s: string): string
    requires Bytes(s)
  {
    if s == [] then [] else Quoted(s[0]) + Body(s[1..])
  }

  function Repr(s: string): string
    requires Bytes(s)
  {
    "\"" + Body(s) + "\""
  }

  lemma {:induction false} BodyMore(s: string, c: char)
    requires Bytes(s) && IsByte(c)
    ensures Bytes(s + [c]) && Body(s + [c]) == Body(s) + Quoted(c)
  {
    if s == [] {
      assert s + [c] == [c] && [c][1..] == [] && Quoted(c) + [] == Quoted(c);
    } else {
      assert (s + [c])[0] == s[0] && (s + [c])[1..] == s[1..] + [c];
      BodyMore(s[1..], c);
    }
  }

  method CatRepr(dst: string, p: string) returns (r: string)
    requires Bytes(p)
    ensures r == dst + Repr(p)
  {
    r := dst + "\"";
    var i := 0;
    while i < |p|
      invariant 0 <= i <= |p| && Bytes(p[..i]) && r == dst + "\"" + Body(p[..i])
    {
      assert p[..i + 1] == p[..i] + [p[i]];
      BodyMore(p[..i], p[i]);
      Assoc(dst + "\"", Body(p[..i]), Quoted(p[i]));
      r := r + Quoted(p[i]);
      i := i + 1;
    }
    assert p[..i] == p;
    r := r + "\"";
    assert dst + "\"" + Body(p) + "\"" == dst + ("\"" + Body(p) + "\"");
  }

  // ----- Reading it back ----------------------------------------------------------------------

  lemma HexBack(c: char)
    requires IsByte(c)
    ensures var hi, lo := HexDigit(c as int / 16), HexDigit(c as int % 16);
      IsHex(hi) && IsHex(lo) && 16 * HexValue(hi) + HexValue(lo) == c as int
  {}

  lemma CharBack(c: char, rest: string, word: string)
    requires IsByte(c)
    ensures InDouble(Quoted(c) + rest, word) == InDouble(rest, word + [c])
  {
    var s := Quoted(c) + rest;
    HexBack(c);
    if |Quoted(c)| == 1 {
      assert s[1..] == rest;
    } else if |Quoted(c)| == 2 {
      assert s[2..] == rest;
    } else {
      assert s[4..] == rest;
    }
  }

  lemma {:induction false} BodyBack(s: string, rest: string, word: string)
    requires Bytes(s)
    ensures InDouble(Body(s) + ("\"" + rest), word) == Close("\"" + rest, word + s)
    decreases s
  {
    if s == [] {
      assert Body(s) + ("\"" + rest) == "\"" + rest && word + s == word;
    } else {
      var more := Body(s[1..]) + ("\"" + rest);
      Assoc(Quoted(s[0]), Body(s[1..]), "\"" + rest);
      CharBack(s[0], more, word);
      BodyBack(s[1..], rest, word + [s[0]]);
      assert word + [s[0]] + s[1..] == word + s;
    }
  }

  lemma ReprPlain(s: string)
    requires Bytes(s)
    ensures Plain(Repr(s), "") == Some(Token(s, ""))
  {
    PlainQuotes(Repr(s), Body(s) + ("\"" + ""), "");
    BodyBack(s, "", "");
    assert ("\"" + "")[1..] == "" && "" + s == s;
  }

  /** Every string of bytes comes back from its quoted form. */
  lemma ReprSplits(s: string)
    requires Bytes(s)
    ensures Split(Repr(s)) == Some([s])
  {
    ReprPlain(s);
    SplitOne(Repr(s), Some(Token(s, "")));
  }

  /** ... also as the value after a name. */
  lemma ValueSplits(name: string, v: string)
    requires Bytes(v) && name != [] && !IsSpace(name[0]) && Specials(name) == 0
    ensures Split(name + " " + Repr(v)) == Some([name, v])
  {
    var line := name + " " + Repr(v);
    assert line == name + (" " + Repr(v)) && (" " + Repr(v))[1..] == Repr(v);
    PlainClean(name, " " + Repr(v), "");
    assert "" + name == name && SkipBlanks(line) == line;
    ReprSplits(v);
    assert [name] + [v] == [name, v];
  }

  /** The quoted form is one line of printable characters. */
  lemma {:induction false} BodyPrints(s: string)
    requires Bytes(s)
    ensures forall i :: 0 <= i < |Body(s)| ==> IsPrint(Body(s)[i])
  {
    if s != [] { BodyPrints(s[1..]); }
  }

  /** Text that goes on directly after a quoted string does not split. */
  lemma ClosingQuote(s: string, rest: string)
    requires Bytes(s) && rest != [] && !IsSpace(rest[0])
    ensures Split(Repr(s) + rest) == None
  {
    QuoteEnds(s, rest);
    SplitOne(Repr(s) + rest, None);
  }

  lemma QuoteEnds(s: string, rest: string)
    requires Bytes(s) && rest != [] && !IsSpace(rest[0])
    ensures Plain(Repr(s) + rest, "") == None
  {
    PlainQuotes(Repr(s) + rest, Body(s) + ("\"" + rest), "");
    BodyBack(s, rest, "");
    NotClosed("\"" + rest, "" + s);
  }

  lemma NotClosed(quote: string, word: string)
    requires |quote| > 1 && !IsSpace(quote[1])
    ensures Close(quote, word) == None
  {}

  // ----- Single quotes -----------------------------------------------------------------------------

  /** In single quotes only the quote itself is escaped. */
  function SingleBody(s: string): string { if s == [] then [] else (if s[0] == '\'' then "\\'" else [s[0]]) + SingleBody(s[1..]) }

  lemma SingleChar(c: char, rest: string, word: string)
    requires c == '\\' ==> rest != [] && rest[0] != '\''
    ensures InSingle((if c == '\'' then "\\'" else [c]) + rest, word) == InSingle(rest, word + [c])
  {
    var s := (if c == '\'' then "\\'" else [c]) + rest;
    if c == '\'' { assert s[2..] == rest; } else { assert s[1..] == rest; }
  }

  lemma {:induction false} SingleBack(s: string, word: string)
    requires s == [] || s[|s| - 1] != '\\'
    ensures InSingle(SingleBody(s) + "'", word) == Some(Token(word + s, ""))
    decreases s
  {
    if s == [] {
      assert SingleBody(s) + "'" == "'" && word + s == word && "'"[1..] == "";
    } else {
      var c, more := s[0], SingleBody(s[1..]) + "'";
      Assoc(if c == '\'' then "\\'" else [c], SingleBody(s[1..]), "'");
      if |s| > 1 {
        assert s[1..][|s| - 2] == s[|s| - 1];
        assert more[0] == if s[1] == '\'' then '\\' else s[1];
      }
      SingleChar(c, more, word);
      SingleBack(s[1..], word + [c]);
      assert word + [c] + s[1..] == word + s;
    }
  }

  /** A string in single quotes comes back, unless it ends with a backslash, which would escape the closing quote. */
  lemma SingleSplits(s: string)
    requires s == [] || s[|s| - 1] != '\\'
    ensures Split("'" + (SingleBody(s) + "'")) == Some([s])
  {
    SinglePlain(s);
    SplitOne("'" + (SingleBody(s) + "'"), Some(Token(s, "")));
  }

  lemma SinglePlain(s: string)
    requires s == [] || s[|s| - 1] != '\\'
    ensures Plain("'" + (SingleBody(s) + "'"), "") == Some(Token(s, ""))
  {
    PlainQuotes("'" + (SingleBody(s) + "'"), SingleBody(s) + "'", "");
    SingleBack(s, "");
    assert "" + s == s;
  }
}
