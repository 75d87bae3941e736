/**
  Writing the append-only buffer to its file (aof.c, `aofWrite`, `flushAppendOnlyFile`) under any
  schedule of short writes, interruptions, errors and truncations.
*/
module AofFlush {
  import opened Collections
  import opened AofCodec
  import opened AofLoad
  import opened AofSelect

  /** What one write(2) does: writes some of the bytes, is interrupted, or fails. */
  datatype WriteResult = Wrote(n: nat) | Interrupted | Error

  /** How many of the bytes left a schedule of writes takes. */
  function Accepted(schedule: seq<WriteResult>, left: nat): nat
    decreases schedule
  {
    if left == 0 || schedule == [] || schedule[0].Error? then 0
    else Taken(schedule[0], left) + Accepted(schedule[1..], left - Taken(schedule[0], left))
  }

  /** How many bytes one write takes. */
  function Taken(w: WriteResult, left: nat): (n: nat)
    ensures n <= left
  {
    if !w.Wrote? then 0 else if w.n < left then w.n else left
  }

  lemma AcceptedTurn(schedule: seq<WriteResult>, t: nat, left: nat)
    requires t <= |schedule| && left > 0
    ensures t == |schedule| || schedule[t].Error? ==> Accepted(schedule[t..], left) == 0
    ensures t < |schedule| && !schedule[t].Error? ==>
      var n := Taken(schedule[t], left); Accepted(schedule[t..], left) == n + Accepted(schedule[t + 1..], left - n)
  {
    if t < |schedule| { assert schedule[t..][0] == schedule[t] && schedule[t..][1..] == schedule[t + 1..]; }
  }

  lemma AcceptedOnce(n: nat, left: nat)
    requires n <= left
    ensures Accepted([Wrote(n)], left) == n
  {
    assert [Wrote(n)][1..] == [];
  }

  /** Writing data at an offset; a gap reads as zeros. */
  function WriteAt(file: string, pos: nat, data: string): string {
    var padded := if pos > |file| then file + Zeros(pos - |file|) else file;
    if pos + |data| <= |padded| then padded[..pos] + data + padded[pos + |data|..] else padded[..pos] + data
  }

  function Zeros(n: nat): string { seq(n, _ => '\0') }

  lemma WriteAhead(file: string, pos: nat, data: string)
    requires pos >= |file| && data != []
    ensures WriteAt(file, pos, data) == file + Zeros(pos - |file|) + data
  {
    var padded := if pos > |file| then file + Zeros(pos - |file|) else file;
    assert padded == file + Zeros(pos - |file|) && padded[..pos] == padded;
  }

  lemma StreamMore(fed: seq<Fed>, x: Fed, stream: string, selected: Database)
    requires stream == Text(AofSelect.Log(Any, fed)) && selected == SelectedAfterAll(Any, fed)
    ensures stream + Text(Appended(selected, x)) == Text(AofSelect.Log(Any, fed + [x]))
    ensures SelectedAfter(selected, x) == SelectedAfterAll(Any, fed + [x])
  {
    LogMore(Any, fed, x);
    TextConcat(AofSelect.Log(Any, fed), Appended(selected, x));
  }

  method FeedMore(ghost fed: seq<Fed>, ghost stream: string, selected: Database, x: Fed) returns (text: string, selected': Database)
    requires stream == Text(AofSelect.Log(Any, fed)) && selected == SelectedAfterAll(Any, fed)
    ensures stream + text == Text(AofSelect.Log(Any, fed + [x])) && selected' == SelectedAfterAll(Any, fed + [x])
  {
    text, selected' := AofSelect.Feed(selected, x);
    StreamMore(fed, x, stream, selected);
  }

  class Log {
    const append: bool          // whether the descriptor was opened in append mode
    var file: string
    var pos: nat                // where the next write of a descriptor without append mode goes
    var buf: string             // aof_buf
    var selected: Database      // aof_selected_db
    var lastSize: nat           // aof_last_incr_size
    var failed: bool            // aof_last_write_status is C_ERR
    var exited: bool
    ghost var fed: seq<Fed>     // what was propagated since the file was opened
    ghost var stream: string    // the bytes fed since then

    /** Nothing fed is lost, doubled or reordered: file and buffer together are the whole stream. */
    ghost predicate Conserved()
      reads this
    {
      file + buf == stream && lastSize == |file|
    }

    /** The stream is the log of what was propagated. */
    ghost predicate Faithful()
      reads this`stream, this`selected, this`fed
    {
      stream == Text(AofSelect.Log(Any, fed)) && selected == SelectedAfterAll(Any, fed)
    }

    /** The next write goes to the end of the file. */
    predicate InSync()
      reads this
    {
      append || pos == |file|
    }

    /** The next write overwrites nothing. */
    predicate Ahead()
      reads this
    {
      append || pos >= |file|
    }

    /** How far past the end of the file the next write goes. */
    function Gap(): nat
      requires Ahead()
      reads this
    {
      if append then 0 else pos - |file|
    }

    /** A file opened for a rewrite, with an empty buffer and no database remembered. */
    constructor (append: bool)
      ensures this.append == append && Conserved() && Faithful() && InSync() && Ahead() && !exited && file == [] && buf == [] && fed == []
    {
      this.append := append;
      file, pos, buf, selected, lastSize, failed, exited, fed, stream := "", 0, "", Any, 0, false, false, [], "";
    }

    /** The file a rewrite opens: the buffer goes on to it. */
    constructor TakingOver(left: string)
      ensures !append && file == "" && buf == left && fed == [] && Conserved() && InSync() && Ahead() && !exited
      ensures Faithful() <==> left == ""
    {
      append := false;
      file, pos, buf, selected, lastSize, failed, exited, fed, stream := "", 0, left, Any, 0, false, false, [], left;
    }

    method Propagate(x: Fed)
      requires Faithful()
      modifies this`buf, this`selected, this`fed, this`stream
      ensures Faithful() && fed == old(fed) + [x] && (old(Conserved()) ==> Conserved())
    {
      var text, now := FeedMore(fed, stream, selected, x);
      assert file + (buf + text) == file + buf + text;
      buf, selected := buf + text, now;
      fed, stream := fed + [x], stream + text;
    }

    /** One write(2). */
    method Write(data: string)
      requires Ahead() && data != []
      modifies this`file, this`pos
      ensures InSync() && Ahead() && file == old(file + Zeros(Gap())) + data
    {
      WriteAhead(file, if append then |file| else pos, data);
      file := WriteAt(file, if append then |file| else pos, data);
      pos := |file|;
    }

    /** Bytes total to total + n of the buffer, after those before them. */
    method WriteMore(total: nat, n: nat, ghost reached: string)
      requires Ahead() && 0 < n <= |buf| - total
      requires if total == 0 then file + Zeros(Gap()) == reached else InSync() && file == reached + buf[..total]
      modifies this`file, this`pos
      ensures InSync() && Ahead() && file == reached + buf[..total + n]
    {
      assert InSync() ==> file + Zeros(Gap()) == file;
      assert buf[..total] + buf[total..total + n] == buf[..total + n];
      assert total == 0 ==> buf[total..total + n] == buf[..n];
      Assoc(reached, buf[..total], buf[total..total + n]);
      Write(buf[total..total + n]);
    }

    /** Retries short and interrupted writes; stops at an error. A schedule that runs out is an error. */
    method AofWrite(schedule: seq<WriteResult>) returns (written: int)
      requires Ahead() && buf != []
      modifies this`file, this`pos
      ensures Ahead() && (written == -1 || 0 < written <= |buf|)
      ensures written == if Accepted(schedule, |buf|) > 0 then Accepted(schedule, |buf|) else -1
      ensures written == -1 ==> file == old(file) && pos == old(pos)
      ensures written > 0 ==> InSync() && file == old(file + Zeros(Gap())) + buf[..written]
    {
      var total, t := 0, 0;
      ghost var goal, reached := Accepted(schedule, |buf|), file + Zeros(Gap());
      assert schedule[0..] == schedule;
      while total < |buf|
        invariant 0 <= total <= |buf| && 0 <= t <= |schedule| && Ahead()
        invariant total + Accepted(schedule[t..], |buf| - total) == goal
        invariant total == 0 ==> file == old(file) && pos == old(pos)
        invariant total > 0 ==> InSync() && file == reached + buf[..total]
        decreases |schedule| - t
      {
        AcceptedTurn(schedule, t, |buf| - total);
        if t == |schedule| || schedule[t].Error? { return if total > 0 then total else -1; }
        var n := Taken(schedule[t], |buf| - total);
        t := t + 1;
        if n > 0 {
          WriteMore(total, n, reached);
          total := total + n;
        }
      }
      written := total;
    }

    /**
      `flushAppendOnlyFile`. It may put the write off; otherwise it writes some bytes of the buffer, and a
      short write may be cut off again. Unless the server exits, the stream is conserved exactly if the write
      started at the end of the file or left nothing; else the log has a gap of zeros. The next write starts
      at the end of the file exactly if the descriptor is in append mode, or this write stays in the file, or
      there was no write and the last one did so.
    */
    method Flush(postponed: bool, always: bool, schedule: seq<WriteResult>, truncates: bool) returns (written: nat, cut: bool)
      requires Conserved() && Ahead() && !exited
      modifies this`file, this`pos, this`buf, this`lastSize, this`failed, this`exited
      ensures written == (if postponed then 0 else Accepted(schedule, |old(buf)|)) && written <= |old(buf)|
      ensures cut <==> 0 < written < |old(buf)| && truncates
      ensures exited <==> always && !postponed && written < |old(buf)|
      ensures !exited ==> Ahead() && (InSync() <==> append || if written == 0 then old(InSync()) else !cut)
      ensures !exited ==> file + buf == if written == 0 || cut then stream else old(file + Zeros(Gap())) + old(buf)
      ensures !exited ==> (Conserved() <==> old(InSync()) || written == 0 || cut)
      ensures !exited && written < |old(buf)| && !postponed ==> failed
      ensures !exited && buf == [] && old(InSync()) ==> file == stream
      ensures !exited && (written == 0 || cut) ==> file == old(file) && buf == old(buf)
      ensures !exited && cut && !append ==> Gap() == old(Gap()) + written
      ensures !exited && written == |old(buf)| ==> buf == []
    {
      written, cut := 0, false;
      if buf == [] || postponed { return; }
      var total := AofWrite(schedule);
      written := if total > 0 then total else 0;
      if total != |buf| {
        if total != -1 && truncates {
          file := file[..lastSize];
          assert file == old(file);
          total, cut := -1, true;
        }
        if always {
          exited := true;
          return;
        }
        failed := true;
        if total > 0 {
          lastSize := lastSize + total;
          assert old(file + Zeros(Gap())) + buf[..total] + buf[total..] == old(file + Zeros(Gap())) + buf;
          buf := buf[total..];
        }
      } else {
        failed := false;
        assert buf[..total] == buf;
        lastSize := lastSize + total;
        buf := "";
      }
    }
  }

  // ----- What the file loads as -----------------------------------------------------------------------

  /** A file that was fed and flushed loads as what was fed, each command in its own database. */
  lemma FlushedLogLoads(l: Log, lookup: Command -> Kind)
    requires l.Conserved() && l.Faithful() && l.buf == []
    requires Known(AofSelect.Log(Any, l.fed), lookup) && Plain(AofSelect.Log(Any, l.fed), lookup) && NoSelects(l.fed)
    ensures var loaded := LoadFile(l.file, lookup, true); loaded.outcome == Ok && Replay(0, loaded.ran) == Intended(0, l.fed)
  {
    assert l.file + [] == l.file;
    PlainRoundTrip(AofSelect.Log(Any, l.fed), lookup, true);
    LogReplays(Any, 0, l.fed);
  }

  /**
    A server that stops at any moment, with anything from nothing to all of the stream in the file, leaves a file
    that loads: what runs is a first part of the commands fed, each in its own database, and the file is cut after
    the last whole command, if it did not end there.
  */
  lemma WrittenPrefixLoads(l: Log, lookup: Command -> Kind) returns (k: nat, j: nat)
    requires l.Conserved() && l.Faithful()
    requires Known(AofSelect.Log(Any, l.fed), lookup) && Plain(AofSelect.Log(Any, l.fed), lookup) && NoSelects(l.fed)
    ensures var log := AofSelect.Log(Any, l.fed);
      && k == Whole(Encode, log, |l.file|) && k <= |log|
      && LoadFile(l.file, lookup, true) == Loaded(log[..k], if |l.file| == |Text(log[..k])| then Ok else Truncated(|Text(log[..k])|))
      && j <= |Intended(0, l.fed)| && Replay(0, log[..k]) == Intended(0, l.fed)[..j]
  {
    var log := AofSelect.Log(Any, l.fed);
    var n := |l.file|;
    assert l.stream[..n] == l.file;
    k := Whole(Encode, log, n);
    PlainLog(log, n, lookup);
    j := LogPrefixReplays(Any, 0, l.fed, k);
  }

  // ----- A new file for a rewrite -------------------------------------------------------------------------

  /**
    The part of `rewriteAppendOnlyFileBackground` before the fork: the selected database is forgotten, the buffer is
    flushed, and a new file is opened, which takes the buffer over. The new file's stream is the log of what is
    propagated from now on if and only if the buffer was written out.
  */
  method Rotate(l: Log, always: bool, schedule: seq<WriteResult>, truncates: bool) returns (next: Log?)
    requires l.Conserved() && l.Ahead() && !l.exited
    modifies l
    ensures next == null <==> always && Accepted(schedule, |old(l.buf)|) < |old(l.buf)|
    ensures next != null ==>
      && fresh(next) && !next.append && next.file == "" && next.fed == [] && next.Conserved() && next.InSync() && next.Ahead() && !next.exited
      && next.buf == l.buf && (next.Faithful() <==> l.buf == "")
    ensures next != null && old(l.InSync()) && l.buf == "" ==> l.file == old(l.stream)
  {
    l.selected := Any;
    var written, cut := l.Flush(false, always, schedule, truncates);
    if l.exited { return null; }
    next := new Log.TakingOver(l.buf);
  }

  // ----- One file ------------------------------------------------------------------------------------------

  /** A file with a gap after whole commands is refused, and what precedes the gap has run. */
  lemma GapRefused(done: seq<Command>, k: nat, rest: string, lookup: Command -> Kind, tolerant: bool)
    requires Known(done, lookup) && k > 0
    ensures LoadFile(Text(done) + Zeros(k) + rest, lookup, tolerant) == Loaded(ClientAfter(done, lookup, tolerant).ran, Failed)
  {
    Assoc(Text(done), Zeros(k), rest);
    assert (Zeros(k) + rest)[0] == '\0';
    OtherRefused(done, Zeros(k) + rest, lookup, tolerant);
  }

  /** Without append mode, a short write of k bytes that is cut off again makes the next write leave k zeros. If the
      file held whole commands, it cannot be loaded any more. */
  method LeaveGap(l: Log, k: nat)
    requires l.Conserved() && l.InSync() && l.Ahead() && !l.append && !l.exited && 0 < k < |l.buf|
    modifies l
    ensures !l.exited && l.buf == "" && l.stream == old(l.stream) && l.file == old(l.file) + Zeros(k) + old(l.buf)
    ensures !l.Conserved()
    ensures forall done, lookup, tolerant :: Known(done, lookup) && old(l.file) == Text(done) ==>
      LoadFile(l.file, lookup, tolerant) == Loaded(ClientAfter(done, lookup, tolerant).ran, Failed)
  {
    var n := |l.buf|;
    AcceptedOnce(k, n);
    AcceptedOnce(n, n);
    var written, cut := l.Flush(false, false, [Wrote(k)], true);
    assert l.Gap() == k;
    written, cut := l.Flush(false, false, [Wrote(n)], true);
    assert l.file + "" == l.file;
    forall done, lookup, tolerant | Known(done, lookup) && old(l.file) == Text(done)
      ensures LoadFile(l.file, lookup, tolerant) == Loaded(ClientAfter(done, lookup, tolerant).ran, Failed)
    {
      GapRefused(done, k, old(l.buf), lookup, tolerant);
    }
  }

  /** A new INCR file is not opened in append mode: one byte of the first write gets through and is cut off again;
      the next write then leaves a zero in front of the log, which cannot be loaded any more. */
  method GapExample() returns (l: Log)
    ensures fresh(l) && l.stream != "" && l.file == "\0" + l.stream
    ensures forall lookup, tolerant :: LoadFile(l.file, lookup, tolerant) == Loaded([], Failed)
  {
    l := new Log(false);
    l.Propagate(Fed(Any, ["PING"]));
    PingText(l.fed, l.stream);
    assert l.file + l.buf == l.buf;
    LeaveGap(l, 1);
    assert "" + Zeros(1) == "\0";
    forall lookup, tolerant ensures LoadFile(l.file, lookup, tolerant) == Loaded([], Failed) { assert Known([], lookup) && Text([]) == ""; }
  }

  lemma PingText(fed: seq<Fed>, stream: string)
    requires fed == [] + [Fed(Any, ["PING"])] && stream == Text(AofSelect.Log(Any, fed))
    ensures |stream| > 1
  {
    var ping: Command := ["PING"];
    assert fed[0] == Fed(Any, ping) && fed[1..] == [];
    assert AofSelect.Log(Any, fed) == [ping];
    TextOfTwo(ping, ping);
  }
}
