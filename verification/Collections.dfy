/** What several modules share: an optional value, facts about sequences, and blanks. */
module Collections {

  datatype Option<+T> = None | Some(value: T)

  ghost predicate NoDup<T>(s: seq<T>) { forall i, j :: 0 <= i < j < |s| ==> s[i] != s[j] }

  function One(b: bool): nat { if b then 1 else 0 }

  lemma Assoc<T>(a: seq<T>, b: seq<T>, c: seq<T>)
    ensures (a + b) + c == a + (b + c)
  {}

  /** Words joined by single spaces. */
  function Glue(words: seq<string>): string {
    if words == [] then ""
    else if |words| == 1 then words[0]
    else words[0] + " " + Glue(words[1..])
  }

  // ----- Characters ------------------------------------------------------------------------

  predicate IsSpace(c: char) { c == ' ' || '\t' <= c <= '\r' }

  function SkipBlanks(s: string): (r: string)
    ensures |r| <= |s| && (r != [] ==> !IsSpace(r[0]))
  {
    if s != [] && IsSpace(s[0]) then SkipBlanks(s[1..]) else s
  }

  /** What is skipped is blanks, as many as there are. */
  lemma {:induction false} SkipBlanksCuts(s: string) returns (blanks: string)
    ensures s == blanks + SkipBlanks(s) && forall c :: c in blanks ==> c as int == 32 || 9 <= c as int <= 13
  {
    blanks := "";
    if s != [] && IsSpace(s[0]) {
      var more := SkipBlanksCuts(s[1..]);
      blanks := [s[0]] + more;
    }
  }

  /** The text before a zero byte, which ends a C string. */
  function CString(s: string): string { if s == [] || s[0] == '\0' then "" else [s[0]] + CString(s[1..]) }

  function LowerChar(c: char): char {
    if 'A' <= c <= 'Z' then (c as int + 32) as char else c
  }

  function Lower(s: string): (r: string)
    ensures |r| == |s|
    ensures forall i :: 0 <= i < |s| ==> r[i] == LowerChar(s[i])
  {
    if s == [] then [] else [LowerChar(s[0])] + Lower(s[1..])
  }

  /** The 26 letters change and nothing else does. */
  lemma LowerMeans(s: string, i: nat)
    requires i < |s|
    ensures Lower(s)[i] as int == s[i] as int + (if 65 <= s[i] as int <= 90 then 32 else 0)
  {}

  lemma LowerOfLower(s: string)
    ensures Lower(Lower(s)) == Lower(s)
  {}
}
