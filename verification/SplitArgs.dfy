/**
  `sdssplitargs` (sds.c): how a line is split back into arguments, with quotes and
  escapes. Words joined by single spaces come back unchanged exactly when none of
  them holds a blank that ends a word or a quote.
*/
module SplitArgs {
  import opened Collections

  datatype Token = Token(word: string, rest: string)

  /** The blanks that end a word outside quotes. */
  predicate EndsWord(c: char) { c == ' ' || c == '\n' || c == '\r' || c == '\t' }

  predicate IsSpecial(c: char) { EndsWord(c) || c == '"' || c == '\'' }

  predicate IsHex(c: char) { '0' <= c <= '9' || 'a' <= c <= 'f' || 'A' <= c <= 'F' }

  function HexValue(c: char): (v: nat)
    requires IsHex(c)
    ensures v < 16
  {
    if c <= '9' then c as int - '0' as int
    else if c <= 'F' then c as int - 'A' as int + 10
    else c as int - 'a' as int + 10
  }

  function Escape(c: char): char {
    match c
    case 'n' => '\n'
    case 'r' => '\r'
    case 't' => '\t'
    case 'b' => 8 as char
    case 'a' => 7 as char
    case _ => c
  }

  /** The quote at the front of s closes the word if the line ends there or goes on with a blank. */
  function Close(s: string, word: string): Option<Token>
    requires s != []
  {
    if |s| > 1 && !IsSpace(s[1]) then None else Some(Token(word, s[1..]))
  }

  function InDouble(s: string, word: string): Option<Token>
    decreases |s|
  {
    if s == [] then None
    else if |s| > 3 && s[0] == '\\' && s[1] == 'x' && IsHex(s[2]) && IsHex(s[3]) then
      InDouble(s[4..], word + [(16 * HexValue(s[2]) + HexValue(s[3])) as char])
    else if s[0] == '\\' && |s| > 1 then InDouble(s[2..], word + [Escape(s[1])])
    else if s[0] == '"' then Close(s, word)
    else InDouble(s[1..], word + [s[0]])
  }

  function InSingle(s: string, word: string): Option<Token>
    decreases |s|
  {
    if s == [] then None
    else if |s| > 1 && s[0] == '\\' && s[1] == '\'' then InSingle(s[2..], word + ['\''])
    else if s[0] == '\'' then Close(s, word)
    else InSingle(s[1..], word + [s[0]])
  }

  function Plain(s: string, word: string): Option<Token>
    decreases |s|
  {
    if s == [] then Some(Token(word, []))
    else if EndsWord(s[0]) then Some(Token(word, s[1..]))
    else if s[0] == '"' then InDouble(s[1..], word)
    else if s[0] == '\'' then InSingle(s[1..], word)
    else Plain(s[1..], word + [s[0]])
  }

  /** Characters of s outside quotes that no word keeps, if s holds no quote. */
  function Specials(s: string): nat {
    if s == [] then 0 else (if IsSpecial(s[0]) then 1 else 0) + Specials(s[1..])
  }

  lemma {:induction false} SpecialsConcat(a: string, b: string)
    ensures Specials(a + b) == Specials(a) + Specials(b)
    decreases a
  {
    if a == [] {
      assert a + b == b;
    } else {
      assert (a + b)[1..] == a[1..] + b;
      SpecialsConcat(a[1..], b);
    }
  }

  // ----- What one word costs ------------------------------------------------------

  lemma {:induction false} DoubleCost(s: string, word: string)
    ensures var r := InDouble(s, word); r.Some? ==>
      |r.value.rest| <= |s| && |r.value.word| - |word| + 1 <= |s| - |r.value.rest|
    decreases |s|
  {
    if s != [] {
      if |s| > 3 && s[0] == '\\' && s[1] == 'x' && IsHex(s[2]) && IsHex(s[3]) {
        DoubleCost(s[4..], word + [(16 * HexValue(s[2]) + HexValue(s[3])) as char]);
      } else if s[0] == '\\' && |s| > 1 {
        DoubleCost(s[2..], word + [Escape(s[1])]);
      } else if s[0] != '"' {
        DoubleCost(s[1..], word + [s[0]]);
      }
    }
  }

  lemma {:induction false} SingleCost(s: string, word: string)
    ensures var r := InSingle(s, word); r.Some? ==>
      |r.value.rest| <= |s| && |r.value.word| - |word| + 1 <= |s| - |r.value.rest|
    decreases |s|
  {
    if s != [] {
      if |s| > 1 && s[0] == '\\' && s[1] == '\'' {
        SingleCost(s[2..], word + ['\'']);
      } else if s[0] != '\'' {
        SingleCost(s[1..], word + [s[0]]);
      }
    }
  }

  /** Characters used up beyond those kept: none only at the end of a clean line, one only for a clean word and its blank. */
  lemma {:induction false} PlainCost(s: string, word: string)
    ensures var r := Plain(s, word); r.Some? ==>
      && |r.value.rest| <= |s|
      && var used, kept := |s| - |r.value.rest|, |r.value.word| - |word|;
         && kept <= used
         && (kept == used ==> r.value.rest == [] && Specials(s) == 0)
         && (kept + 1 == used ==> Specials(s) == 1 + Specials(r.value.rest))
    decreases |s|
  {
    if s != [] && !EndsWord(s[0]) {
      if s[0] == '"' { DoubleCost(s[1..], word); }
      else if s[0] == '\'' { SingleCost(s[1..], word); }
      else { PlainCost(s[1..], word + [s[0]]); }
    }
  }

  // ----- Whole lines ------------------------------------------------------------------

  /** A word is never found without using up input. */
  lemma PlainProgress(s: string)
    requires s != [] && !IsSpace(s[0])
    ensures Plain(s, "").Some? ==> |Plain(s, "").value.rest| < |s|
  {
    if s[0] == '"' { DoubleCost(s[1..], ""); }
    else if s[0] == '\'' { SingleCost(s[1..], ""); }
    else {
      assert "" + [s[0]] == [s[0]];
      PlainCost(s[1..], [s[0]]);
    }
  }

  function Split(line: string): Option<seq<string>>
    decreases |line|
  {
    var s := SkipBlanks(line);
    if s == [] then Some([])
    else
      PlainProgress(s);
      var t := Plain(s, "");
      if t.None? then None
      else
        var more := Split(t.value.rest);
        if more.None? then None else Some([t.value.word] + more.value)
  }

  lemma PlainQuotes(line: string, tail: string, word: string)
    requires line != [] && line[1..] == tail
    ensures line[0] == '"' ==> Plain(line, word) == InDouble(tail, word)
    ensures line[0] == '\'' ==> Plain(line, word) == InSingle(tail, word)
  {}

  /** A line that is one word, or no word at all. */
  lemma SplitOne(line: string, t: Option<Token>)
    requires line != [] && !IsSpace(line[0]) && t == Plain(line, "")
    ensures t.None? ==> Split(line) == None
    ensures t.Some? && t.value.rest == [] ==> Split(line) == Some([t.value.word])
  {
    if t.Some? && t.value.rest == [] { assert Split("") == Some([]) && [t.value.word] + [] == [t.value.word]; }
  }

  function TotalLength(words: seq<string>): nat {
    if words == [] then 0 else |words[0]| + TotalLength(words[1..])
  }

  lemma SkipNothing(s: string)
    requires |SkipBlanks(s)| == |s|
    ensures SkipBlanks(s) == s
  {}

  /** The words and the blanks between them fit in the line, and only a clean line is filled. */
  lemma {:induction false} SplitCost(line: string)
    ensures var r := Split(line); r.Some? && r.value != [] ==>
      && TotalLength(r.value) + |r.value| - 1 <= |line|
      && (TotalLength(r.value) + |r.value| - 1 == |line| ==> Specials(line) == |r.value| - 1)
    decreases |line|
  {
    var r := Split(line);
    if r.Some? && r.value != [] {
      var s := SkipBlanks(line);
      var t := Plain(s, "").value;
      PlainCost(s, "");
      SplitCost(t.rest);
      assert r.value[1..] == Split(t.rest).value;
      if |s| == |line| { SkipNothing(line); }
    }
  }

  function TotalSpecials(words: seq<string>): nat {
    if words == [] then 0 else Specials(words[0]) + TotalSpecials(words[1..])
  }

  lemma {:induction false} JoinedSize(words: seq<string>)
    requires words != []
    ensures |Glue(words)| == TotalLength(words) + |words| - 1
    ensures Specials(Glue(words)) == TotalSpecials(words) + |words| - 1
  {
    if |words| > 1 {
      JoinedSize(words[1..]);
      SpecialsConcat(words[0] + " ", Glue(words[1..]));
      SpecialsConcat(words[0], " ");
      assert " "[1..] == "";
    } else {
      assert words[1..] == [];
    }
  }

  lemma {:induction false} PlainClean(w: string, rest: string, word: string)
    requires Specials(w) == 0 && (rest == [] || rest[0] == ' ')
    ensures Plain(w + rest, word) == Some(Token(word + w, if rest == [] then [] else rest[1..]))
    decreases |w|
  {
    if w == [] {
      assert w + rest == rest && word + w == word;
    } else {
      assert (w + rest)[1..] == w[1..] + rest;
      PlainClean(w[1..], rest, word + [w[0]]);
      assert word + w == word + [w[0]] + w[1..];
    }
  }

  /** Words that start with something other than a blank. */
  ghost predicate Started(words: seq<string>) {
    forall w :: w in words ==> w != [] && !IsSpace(w[0])
  }

  lemma {:induction false} CleanSplits(words: seq<string>)
    requires Started(words) && TotalSpecials(words) == 0
    ensures Split(Glue(words)) == Some(words)
    decreases words
  {
    if words != [] {
      var w, more := words[0], words[1..];
      var rest := if more == [] then "" else " " + Glue(more);
      assert Glue(words) == w + rest;
      assert words == [w] + more;
      assert w in words && forall v :: v in more ==> v in words;
      assert TotalSpecials(words) == Specials(w) + TotalSpecials(more);
      PlainClean(w, rest, "");
      assert "" + w == w;
      CleanSplits(more);
      if more != [] { assert rest[1..] == Glue(more); }
    }
  }

  /** Exactly when joined words survive splitting. */
  lemma SplitJoined(words: seq<string>)
    requires Started(words)
    ensures Split(Glue(words)) == Some(words) <==> TotalSpecials(words) == 0
  {
    if TotalSpecials(words) == 0 {
      CleanSplits(words);
    } else if Split(Glue(words)) == Some(words) {
      JoinedSize(words);
      SplitCost(Glue(words));
    }
  }

  lemma {:induction false} NoSpecials(words: seq<string>)
    ensures TotalSpecials(words) == 0 <==> forall w, i :: w in words && 0 <= i < |w| ==> !IsSpecial(w[i])
  {
    if words != [] {
      NoSpecials(words[1..]);
      NoSpecialsIn(words[0]);
      assert words == [words[0]] + words[1..];
    }
  }

  lemma {:induction false} NoSpecialsIn(w: string)
    ensures Specials(w) == 0 <==> forall i :: 0 <= i < |w| ==> !IsSpecial(w[i])
  {
    if w != [] {
      NoSpecialsIn(w[1..]);
      assert forall i :: 1 <= i < |w| ==> w[i] == w[1..][i - 1];
    }
  }
}
