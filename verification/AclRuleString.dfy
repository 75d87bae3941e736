/**
  The rule log as acl.c keeps it: one string, rules separated by single spaces,
  edited in place. `RemoveRule` is the byte loop of `ACLSelectorRemoveCommandRule`.
  On every string it is a filter on the string's pieces; on a string that joins rules
  without spaces the pieces are the rules, and it is the filter `Survivors`.
*/
module AclRuleString {
  import opened Collections
  import opened AclRules

  // ----- Pieces -------------------------------------------------------------------------

  /** One character, which the loop never looks at, and then no space. */
  predicate Proper(p: string) { p != "" && ' ' !in p[1..] }

  /** Only the last piece may be empty, after a space at the end. */
  ghost predicate AllProper(pieces: seq<string>) {
    forall i :: 0 <= i < |pieces| ==> Proper(pieces[i]) || (pieces[i] == "" && i == |pieces| - 1)
  }

  /** Whether the loop removes a piece. */
  predicate Goes(p: string, name: string) { p != "" && Superseded(p[1..], name) }

  function Staying(pieces: seq<string>, name: string): seq<string> {
    if pieces == [] then []
    else if Goes(pieces[0], name) then Staying(pieces[1..], name)
    else [pieces[0]] + Staying(pieces[1..], name)
  }

  /** `strchr` for a space, or the end of the string. */
  function NextSpace(s: string, from: nat): (i: nat)
    requires from <= |s|
    ensures from <= i <= |s| && (i < |s| ==> s[i] == ' ') && ' ' !in s[from..i]
    decreases |s| - from
  {
    if from == |s| then from
    else if s[from] == ' ' then from
    else
      var i := NextSpace(s, from + 1);
      assert s[from..i] == [s[from]] + s[from + 1..i];
      i
  }

  lemma NextSpaceIs(s: string, from: nat, i: nat)
    requires from <= i <= |s| && ' ' !in s[from..i] && (i < |s| ==> s[i] == ' ')
    ensures NextSpace(s, from) == i
  {
  }

  /** Where the loop finds pieces in a string. */
  function Pieces(s: string): seq<string>
    decreases |s|
  {
    if s == "" then []
    else
      var e := NextSpace(s, 1);
      if e == |s| then [s] else if e + 1 == |s| then [s[..e], ""] else [s[..e]] + Pieces(s[e + 1..])
  }

  /** Every string is its pieces. */
  lemma {:induction false} PiecesGlue(s: string)
    ensures Glue(Pieces(s)) == s && AllProper(Pieces(s))
    decreases |s|
  {
    if s != "" {
      var e := NextSpace(s, 1);
      assert s[..e][1..] == s[1..e];
      if e < |s| {
        assert s == s[..e] + " " + s[e + 1..];
        if e + 1 == |s| {
          assert [s[..e], ""][1..] == [""] && s[e + 1..] == "";
        } else {
          PiecesGlue(s[e + 1..]);
          PiecesSome(s[e + 1..]);
          assert ([s[..e]] + Pieces(s[e + 1..]))[1..] == Pieces(s[e + 1..]);
        }
      }
    }
  }

  lemma PiecesSome(s: string)
    requires s != ""
    ensures Pieces(s) != []
  {}

  // ----- Rules --------------------------------------------------------------------------

  function Text(r: LogRule): string { (if r.allow then "+" else "-") + r.name }

  function Texts(log: seq<LogRule>): seq<string> {
    if log == [] then [] else [Text(log[0])] + Texts(log[1..])
  }

  function Join(log: seq<LogRule>): string { Glue(Texts(log)) }

  ghost predicate NoSpaces(log: seq<LogRule>) { forall r :: r in log ==> ' ' !in r.name }

  lemma {:induction false} TextsAt(log: seq<LogRule>)
    ensures |Texts(log)| == |log| && forall i :: 0 <= i < |log| ==> Texts(log)[i] == Text(log[i])
  {
    if log != [] { TextsAt(log[1..]); }
  }

  lemma TextsProper(log: seq<LogRule>)
    requires NoSpaces(log)
    ensures AllProper(Texts(log)) && forall i :: 0 <= i < |Texts(log)| ==> Proper(Texts(log)[i])
  {
    TextsAt(log);
    forall i | 0 <= i < |log| ensures Proper(Texts(log)[i]) { assert Text(log[i])[1..] == log[i].name; }
  }

  lemma {:induction false} TextsStaying(log: seq<LogRule>, name: string)
    ensures Staying(Texts(log), name) == Texts(Survivors(log, name))
  {
    if log != [] {
      TextsStaying(log[1..], name);
      assert Text(log[0])[1..] == log[0].name;
      assert ([log[0]] + Survivors(log[1..], name))[1..] == Survivors(log[1..], name);
    }
  }

  lemma {:induction false} TextsAppend(log: seq<LogRule>, r: LogRule)
    ensures Texts(log + [r]) == Texts(log) + [Text(r)]
  {
    if log == [] {
      assert log + [r] == [r] && [r][1..] == [];
    } else {
      assert (log + [r])[1..] == log[1..] + [r];
      TextsAppend(log[1..], r);
    }
  }

  // ----- The loop -----------------------------------------------------------------------

  lemma {:induction false} GlueConcat(a: seq<string>, b: seq<string>)
    requires a != [] && b != []
    ensures Glue(a + b) == Glue(a) + " " + Glue(b)
    decreases a
  {
    assert (a + b)[1..] == a[1..] + b;
    if |a| > 1 {
      GlueConcat(a[1..], b);
      assert Glue(a + b) == a[0] + " " + (Glue(a[1..]) + " " + Glue(b));
    } else {
      assert a[1..] + b == b;
    }
  }

  lemma GlueCons(p: string, rest: seq<string>)
    ensures Glue([p] + rest) == p + if rest == [] then "" else " " + Glue(rest)
  {
    assert ([p] + rest)[1..] == rest;
    if rest == [] { assert [p] + rest == [p]; }
  }

  /** What stands before the pieces that follow kept. */
  function Before(kept: seq<string>): string { if kept == [] then "" else Glue(kept) + " " }

  /** What stands after a piece. */
  function After(rest: seq<string>): string { if rest == [] then "" else " " + Glue(rest) }

  /** The string while the loop stands between kept and rest. */
  function Joined(kept: seq<string>, rest: seq<string>): string {
    if rest == [] then Glue(kept) else Before(kept) + Glue(rest)
  }

  lemma GlueLast(kept: seq<string>, p: string)
    ensures Glue(kept + [p]) == Before(kept) + p
  {
    if kept == [] { assert kept + [p] == [p]; } else { GlueConcat(kept, [p]); }
  }

  lemma JoinedAt(kept: seq<string>, p: string, tail: seq<string>)
    ensures Joined(kept, [p] + tail) == Before(kept) + p + After(tail)
  {
    GlueCons(p, tail);
    Assoc(Before(kept), p, After(tail));
  }

  lemma JoinedAfter(kept: seq<string>, p: string, tail: seq<string>)
    ensures Joined(kept + [p], tail) == Before(kept) + p + After(tail)
    ensures tail != [] ==> |Before(kept + [p])| == |Before(kept)| + |p| + 1
  {
    GlueLast(kept, p);
    if tail == [] {
      assert Before(kept) + p + "" == Before(kept) + p;
    } else {
      Assoc(Before(kept) + p, " ", Glue(tail));
    }
  }

  lemma Slices(pre: string, mid: string, post: string)
    ensures var s := pre + mid + post;
      s[..|pre|] == pre && s[|pre|..|pre| + |mid|] == mid && s[|pre| + |mid|..] == post
  {}

  lemma StayingMove(kept: seq<string>, rest: seq<string>, n: string)
    requires rest != []
    ensures kept + Staying(rest, n) == (if Goes(rest[0], n) then kept else kept + [rest[0]]) + Staying(rest[1..], n)
  {}

  /** One turn of the loop up to the comparison: the end of the piece at position at, and whether it goes. */
  method ScanRule(s: string, at: nat, newRule: string, ghost p: string) returns (ruleEnd: nat, superseded: bool)
    requires at + |p| <= |s| && s[at..at + |p|] == p && Proper(p)
    requires at + |p| < |s| ==> s[at + |p|] == ' '
    ensures ruleEnd == at + |p|
    ensures superseded == Goes(p, newRule)
  {
    var existing := at + 1;
    ghost var name := p[1..];
    assert s[existing..existing + |name|] == name;
    NextSpaceIs(s, existing, existing + |name|);
    ruleEnd := NextSpace(s, existing);
    var existingLen := ruleEnd - existing;
    var common := if existingLen < |newRule| then existingLen else |newRule|;
    superseded := s[existing..existing + common] == newRule[..common] &&
      (existingLen == |newRule| || (existingLen > |newRule| && s[existing + |newRule|] == '|'));
    assert s[existing..existing + common] == s[existing..existing + |name|][..common] == name[..common];
  }

  /** Cutting a piece out, with the space after it or, for the last piece, the one before it. */
  lemma CutOut(kept: seq<string>, p: string, tail: seq<string>, from: nat, to: nat)
    requires from == if tail == [] && kept != [] then |Before(kept)| - 1 else |Before(kept)|
    requires to == |Before(kept)| + |p| + if tail == [] then 0 else 1
    ensures var s := Before(kept) + p + After(tail);
      from <= to <= |s| && s[..from] + s[to..] == Joined(kept, tail)
      && (tail == [] ==> from == |Joined(kept, tail)|)
  {
    Slices(Before(kept), p, After(tail));
    var s := Before(kept) + p + After(tail);
    if tail == [] {
      assert s[to..] == [];
      if kept != [] { assert s[..from] == Before(kept)[..from] == Glue(kept); }
    } else {
      assert s[to..] == After(tail)[1..] == Glue(tail);
    }
  }

  /** The loop stands at position at, between the pieces it keeps and the rest. */
  ghost predicate Stands(s: string, at: nat, kept: seq<string>, rest: seq<string>) {
    s == Joined(kept, rest) && AllProper(rest) && at == if rest == [] then |s| else |Before(kept)|
  }

  /** It is at the end when nothing is left, or nothing but a space. */
  lemma StandsInside(s: string, at: nat, kept: seq<string>, rest: seq<string>)
    requires Stands(s, at, kept, rest)
    ensures at < |s| <==> rest != [] && rest != [""]
    ensures rest != [] && rest != [""] ==> Proper(rest[0])
  {
    if rest != [] {
      JoinedAt(kept, rest[0], rest[1..]);
      assert rest == [rest[0]] + rest[1..];
    }
  }

  method RemoveTurn(s: string, at: nat, newRule: string, ghost kept: seq<string>, ghost rest: seq<string>)
    returns (s': string, at': nat)
    requires Stands(s, at, kept, rest) && rest != [] && Proper(rest[0])
    ensures Stands(s', at', if Goes(rest[0], newRule) then kept else kept + [rest[0]], rest[1..])
  {
    ghost var p, tail := rest[0], rest[1..];
    assert rest == [p] + tail;
    assert AllProper(tail);
    JoinedAt(kept, p, tail);
    Slices(Before(kept), p, After(tail));
    var copyPosition := at;
    var ruleEnd, superseded := ScanRule(s, at, newRule, p);
    if ruleEnd == |s| && copyPosition != 0 {
      // The last rule takes the space before it along.
      copyPosition := copyPosition - 1;
    }
    var copyEnd := if ruleEnd < |s| then ruleEnd + 1 else ruleEnd;
    if superseded {
      CutOut(kept, p, tail, copyPosition, copyEnd);
      s', at' := s[..copyPosition] + s[copyEnd..], copyPosition;
    } else {
      JoinedAfter(kept, p, tail);
      s', at' := s, copyEnd;
    }
  }

  /** The loop, on any string: exactly the pieces of the new rule's name or a part of it go. */
  method RemoveRule(rules: string, newRule: string) returns (s: string)
    ensures s == Glue(Staying(Pieces(rules), newRule))
  {
    s := rules;
    var existing: nat := 0;
    ghost var kept, rest: seq<string> := [], Pieces(rules);
    PiecesGlue(rules);
    assert Joined([], rest) == Glue(rest) by { assert "" + Glue(rest) == Glue(rest); }
    StandsInside(s, existing, kept, rest);
    while existing < |s|
      invariant Stands(s, existing, kept, rest) && (existing < |s| <==> rest != [] && rest != [""])
      invariant kept + Staying(rest, newRule) == Staying(Pieces(rules), newRule)
      decreases |rest|
    {
      StandsInside(s, existing, kept, rest);
      s, existing := RemoveTurn(s, existing, newRule, kept, rest);
      StayingMove(kept, rest, newRule);
      if !Goes(rest[0], newRule) {
        kept := kept + [rest[0]];
      }
      rest := rest[1..];
      StandsInside(s, existing, kept, rest);
    }
    LoopEnds(kept, rest, newRule);
  }

  lemma LoopEnds(kept: seq<string>, rest: seq<string>, name: string)
    requires rest == [] || rest == [""]
    ensures Joined(kept, rest) == Glue(kept + Staying(rest, name))
  {
    if rest == [] {
      assert kept + Staying(rest, name) == kept;
    } else {
      assert Staying(rest, name) == [""] by { assert rest[1..] == []; }
      GlueLast(kept, "");
    }
  }

  // ----- On a string of rules ---------------------------------------------------------------

  lemma {:induction false} PiecesOfGlue(pieces: seq<string>)
    requires forall i :: 0 <= i < |pieces| ==> Proper(pieces[i])
    ensures Pieces(Glue(pieces)) == pieces
  {
    if pieces != [] {
      var p, rest := pieces[0], pieces[1..];
      assert pieces == [p] + rest;
      GlueCons(p, rest);
      var s := Glue(pieces);
      Slices("", p, After(rest));
      assert "" + p == p && s == p + After(rest);
      assert s[1..|p|] == p[1..];
      NextSpaceIs(s, 1, |p|);
      if rest != [] {
        PiecesOfGlue(rest);
        assert Proper(rest[0]);
        assert s[|p| + 1..] == Glue(rest);
        GlueNotEmpty(rest);
      }
    }
  }

  lemma GlueNotEmpty(pieces: seq<string>)
    requires pieces != [] && pieces[0] != ""
    ensures Glue(pieces) != ""
  {}

  /** On the string of a log without spaces the loop is the filter on the log. */
  lemma RemovedFromLog(log: seq<LogRule>, name: string)
    requires NoSpaces(log)
    ensures Glue(Staying(Pieces(Join(log)), name)) == Join(Survivors(log, name))
  {
    TextsProper(log);
    PiecesOfGlue(Texts(log));
    TextsStaying(log, name);
  }
}
