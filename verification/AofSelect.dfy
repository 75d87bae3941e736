/**
  SELECT in the append-only log (aof.c, `feedAppendOnlyFile`): the feeder remembers the database
  it last selected, and forgets it before a new file starts.
*/
module AofSelect {
  import opened AofCodec
  import opened AofLoad
  import opened Decimal

  /** A command as it is propagated, with its database, or with none (-1 in the source). */
  datatype Database = Any | Db(id: nat)

  datatype Fed = Fed(db: Database, argv: Command)

  function SelectCommand(d: nat): Command { ["SELECT", Dec(d)] }

  /** The commands one propagated command appends. */
  function Appended(selected: Database, x: Fed): seq<Command> {
    if x.db.Db? && x.db != selected then [SelectCommand(x.db.id), x.argv] else [x.argv]
  }

  function SelectedAfter(selected: Database, x: Fed): Database { if x.db.Db? then x.db else selected }

  /** The commands a sequence of propagated commands appends. */
  function Log(selected: Database, xs: seq<Fed>): seq<Command>
    decreases xs
  {
    if xs == [] then [] else Appended(selected, xs[0]) + Log(SelectedAfter(selected, xs[0]), xs[1..])
  }

  // ----- Replay ------------------------------------------------------------------------------

  /** A command executed in a database. */
  datatype Run = Run(db: nat, argv: Command)

  predicate IsSelect(c: Command) { |c| == 2 && c[0] == "SELECT" }

  /** What a client that is in database db executes. */
  function Replay(db: nat, cs: seq<Command>): seq<Run>
    decreases cs
  {
    if cs == [] then []
    else if IsSelect(cs[0]) then Replay(Leading(cs[0][1], 0), cs[1..])
    else [Run(db, cs[0])] + Replay(db, cs[1..])
  }

  /** What should be executed: every command in its database; one without a database wherever the client is. */
  function Intended(db: nat, xs: seq<Fed>): seq<Run>
    decreases xs
  {
    if xs == [] then []
    else
      var here := if xs[0].db.Db? then xs[0].db.id else db;
      [Run(here, xs[0].argv)] + Intended(here, xs[1..])
  }

  /** The memory is either empty or right. */
  predicate Agrees(selected: Database, db: nat) { selected.Db? ==> selected.id == db }

  ghost predicate NoSelects(xs: seq<Fed>) { forall i :: 0 <= i < |xs| ==> !IsSelect(xs[i].argv) }

  lemma SelectReads(d: nat)
    ensures IsSelect(SelectCommand(d)) && Leading(SelectCommand(d)[1], 0) == d
  {
    ReadDec(d, []);
    assert Dec(d) + [] == Dec(d);
  }

  /** With a memory that is empty or right, every command is executed in its own database. */
  lemma {:induction false} LogReplays(selected: Database, db: nat, xs: seq<Fed>)
    requires Agrees(selected, db) && NoSelects(xs)
    ensures Replay(db, Log(selected, xs)) == Intended(db, xs)
    decreases xs
  {
    if xs != [] {
      var x, rest := xs[0], xs[1..];
      var here, after := if x.db.Db? then x.db.id else db, SelectedAfter(selected, x);
      var more := Log(after, rest);
      LogReplays(after, here, rest);
      assert ([x.argv] + more)[1..] == more;
      if x.db.Db? && x.db != selected {
        SelectReads(x.db.id);
        assert ([SelectCommand(x.db.id), x.argv] + more)[1..] == [x.argv] + more;
      }
    }
  }

  /** A file that starts when the memory has been cleared needs nothing from the files before it. */
  lemma SelfContained(xs: seq<Fed>, db: nat, i: nat)
    requires NoSelects(xs) && i < |xs|
    ensures var runs := Replay(db, Log(Any, xs));
      |runs| == |xs| && runs[i].argv == xs[i].argv && (xs[i].db.Db? ==> runs[i].db == xs[i].db.id)
  {
    LogReplays(Any, db, xs);
    IntendedAt(db, xs, i);
  }

  /** Any part of the log from its start executes the first so many commands, each in its own database. */
  lemma {:induction false} LogPrefixReplays(selected: Database, db: nat, xs: seq<Fed>, k: nat) returns (j: nat)
    requires Agrees(selected, db) && NoSelects(xs) && k <= |Log(selected, xs)|
    ensures j <= |Intended(db, xs)| && Replay(db, Log(selected, xs)[..k]) == Intended(db, xs)[..j]
    decreases xs
  {
    if xs == [] || k == 0 {
      j := 0;
    } else {
      var x, rest := xs[0], xs[1..];
      var here, after := if x.db.Db? then x.db.id else db, SelectedAfter(selected, x);
      var n := |Appended(selected, x)|;
      if k < n {
        SelectReads(x.db.id);
        assert Log(selected, xs)[..k] == [SelectCommand(x.db.id)] && [SelectCommand(x.db.id)][1..] == [];
        j := 0;
      } else {
        j := LogPrefixReplays(after, here, rest, k - n);
        PrefixTurn(selected, db, x, Log(after, rest)[..k - n]);
        assert Log(selected, xs)[..k] == Appended(selected, x) + Log(after, rest)[..k - n];
        assert Intended(db, xs)[..j + 1] == [Run(here, x.argv)] + Intended(here, rest)[..j];
        j := j + 1;
      }
    }
  }

  lemma PrefixTurn(selected: Database, db: nat, x: Fed, more: seq<Command>)
    requires Agrees(selected, db) && !IsSelect(x.argv)
    ensures var here := if x.db.Db? then x.db.id else db;
      Replay(db, Appended(selected, x) + more) == [Run(here, x.argv)] + Replay(here, more)
  {
    assert ([x.argv] + more)[1..] == more;
    if x.db.Db? && x.db != selected {
      SelectReads(x.db.id);
      assert ([SelectCommand(x.db.id), x.argv] + more)[1..] == [x.argv] + more;
    }
  }

  lemma {:induction false} IntendedAt(db: nat, xs: seq<Fed>, i: nat)
    requires i < |xs|
    ensures |Intended(db, xs)| == |xs| && Intended(db, xs)[i].argv == xs[i].argv
    ensures xs[i].db.Db? ==> Intended(db, xs)[i].db == xs[i].db.id
    decreases xs
  {
    var here := if xs[0].db.Db? then xs[0].db.id else db;
    if i > 0 {
      IntendedAt(here, xs[1..], i - 1);
    } else if |xs| > 1 {
      IntendedAt(here, xs[1..], 0);
    }
  }

  // ----- Feeding, as text ------------------------------------------------------------------------

  function SelectedAfterAll(selected: Database, xs: seq<Fed>): Database
    decreases xs
  {
    if xs == [] then selected else SelectedAfterAll(SelectedAfter(selected, xs[0]), xs[1..])
  }

  lemma {:induction false} LogMore(selected: Database, xs: seq<Fed>, x: Fed)
    ensures Log(selected, xs + [x]) == Log(selected, xs) + Appended(SelectedAfterAll(selected, xs), x)
    ensures SelectedAfterAll(selected, xs + [x]) == SelectedAfter(SelectedAfterAll(selected, xs), x)
    decreases xs
  {
    if xs == [] {
      assert xs + [x] == [x] && [x][1..] == [];
    } else {
      assert (xs + [x])[0] == xs[0] && (xs + [x])[1..] == xs[1..] + [x];
      LogMore(SelectedAfter(selected, xs[0]), xs[1..], x);
    }
  }

  lemma Regroup(h: string, s: string, q: string, y: string, e: string, x: string)
    ensures h + (s + (q + y + e + x + e)) == (h + s + q) + y + e + x + e
  {}

  lemma TwoArguments(arg: string -> string, a: string, b: string)
    ensures Arguments(arg, [a, b]) == arg(a) + arg(b)
  {
    assert [a, b][1..] == [b] && [b][1..] == [];
    assert Arguments(arg, [b]) == arg(b) + [];
  }

  /** The text of the SELECT command as the feeder prints it. */
  lemma SelectText(d: nat)
    ensures Encode(SelectCommand(d)) == "*2\r\n$6\r\nSELECT\r\n$" + Dec(|Dec(d)|) + "\r\n" + Dec(d) + "\r\n"
  {
    var x := Dec(d);
    TwoArguments(Argument, "SELECT", x);
    assert Dec(2) == "2" && Dec(6) == "6";
    SelectWord();
    Regroup("*" + Dec(2) + CRLF, Argument("SELECT"), "$", Dec(|x|), CRLF, x);
  }

  lemma SelectWord()
    ensures "*" + Dec(2) + CRLF + Argument("SELECT") + "$" == "*2\r\n$6\r\nSELECT\r\n$"
  {
    assert Dec(2) == "2" && Dec(6) == "6";
    assert Argument("SELECT") == "$6\r\nSELECT\r\n";
  }

  /** `feedAppendOnlyFile`: the text it appends, and the database it remembers. */
  method Feed(selected: Database, x: Fed) returns (text: string, selected': Database)
    ensures text == Text(Appended(selected, x)) && selected' == SelectedAfter(selected, x)
  {
    text, selected' := "", selected;
    if x.db.Db? && x.db != selected {
      var seldb := Dec(x.db.id);
      SelectText(x.db.id);
      text := "*2\r\n$6\r\nSELECT\r\n$" + Dec(|seldb|) + "\r\n" + seldb + "\r\n";
      selected' := x.db;
    }
    text := Cat(text, x.argv);
    TextOfTwo(SelectCommand(if x.db.Db? then x.db.id else 0), x.argv);
  }

  lemma TextOfTwo(a: Command, b: Command)
    ensures Text([a, b]) == Encode(a) + Encode(b) && Text([b]) == "" + Encode(b)
  {
    TwoEncoded(Encode, a, b);
  }

  lemma TwoEncoded(enc: Command -> string, a: Command, b: Command)
    ensures EncodeAll(enc, [a, b]) == enc(a) + enc(b) && EncodeAll(enc, [b]) == "" + enc(b)
  {
    assert [a, b][1..] == [b] && [b][1..] == [];
    assert EncodeAll(enc, [b]) == enc(b) + [];
  }
}
