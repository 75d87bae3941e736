/**
  Two things the rewrite protocol relies on, stated on the machine of `AofRewrite`: that the forced
  flush before the fork writes the whole buffer, and that the file is open when a rewrite ends.
*/
module AofRewriteLimits {
  import opened Collections
  import opened AofRewrite
  import opened AofServer

  // ----- What the forced flush leaves ------------------------------------------------------

  /** A rewrite that starts with whatever the buffer holds: the INCR is switched and the child forked; then the
      buffer is written, the child finishes, and its file becomes the BASE. */
  function RewrittenWith<D(!new)>(s: State<D>, rdb: bool, gc: bool): State<D> {
    var forked := IncrPersisted(IncrOpened(s), NewIncr(s.mem), true);
    var renamed := BaseRenamed(ChildWrote(Flushed(forked, |s.buf|)), rdb);
    BasePersisted(renamed, renamed.pc.temp, gc)
  }

  lemma ForkedManifest(m: Manifest, rdb: bool)
    requires Counted(m)
    ensures var m', last := NewIncr(m), IncrFile(m.currIncr + 1);
      && Last(m'.incr) == last
      && Live(MarkRewritten(NewBase(AfterPersist(m'), rdb), true)) == [BaseFile(m.currBase + 1, rdb), last]
  {
    NewIncrCounted(m);
    CountedAfterPersist(NewIncr(m));
    RewrittenCounted(AfterPersist(NewIncr(m)), rdb);
  }

  /**
    Commands left in the buffer are in the child's snapshot and again in the new INCR, so what is recovered after
    the rewrite has them applied twice. Recovery is right if and only if applying them again changes nothing.
  */
  lemma LeftoverAppliedTwice<D(!new)>(s: State<D>, rdb: bool, gc: bool)
    requires Ready(s) && s.torn.None?
    ensures var s' := RewrittenWith(s, rdb, gc);
      && !HasGap(s') && s'.flushed == s.data
      && Recover(s') == Some(Replay(s.data, s.buf))
      && (Recover(s') == Some(s'.flushed) <==> Replay(s.data, s.buf) == s.data)
  {
    RewrittenFiles(s, rdb, gc);
    var s' := RewrittenWith(s, rdb, gc);
    ReplayRewritten(s'.dir, s'.zero, BaseFile(s.mem.currBase + 1, rdb), IncrFile(s.mem.currIncr + 1), s.data);
  }

  lemma RewrittenFiles<D(!new)>(s: State<D>, rdb: bool, gc: bool)
    requires Counted(s.mem) && s.torn.None? && s.data == Replay(s.flushed, s.buf)
    ensures var s' := RewrittenWith(s, rdb, gc);
      var base, last := BaseFile(s.mem.currBase + 1, rdb), IncrFile(s.mem.currIncr + 1);
      && LiveOnDisk(s') == [base, last] && s'.torn.None? && s'.flushed == s.data && s'.gaps.files == s.gaps.files - {last.n}
      && base in s'.dir && IsSnapshot(s'.dir[base], s.data) && last in s'.dir && s'.dir[last] == s.buf
  {
    ForkedManifest(s.mem, rdb);
    var last := IncrFile(s.mem.currIncr + 1);
    var forked := IncrPersisted(IncrOpened(s), NewIncr(s.mem), true);
    assert s.buf[..|s.buf|] == s.buf && [] + s.buf == s.buf;
    assert forked.fd == Some(last) && forked.dir[last] == [] && forked.buf == s.buf && forked.child == Some(Child(s.data, None));
    var written := Flushed(forked, |s.buf|);
    assert written.dir[last] == s.buf && written.flushed == s.data && written.torn.None?;
    var renamed := BaseRenamed(ChildWrote(written), rdb);
    assert renamed.dir[last] == s.buf && renamed.pc.temp == MarkRewritten(NewBase(AfterPersist(NewIncr(s.mem)), rdb), true);
  }

  /** With a command torn between the old file and the new one, the switch alone makes recovery fail. */
  lemma TornAtTheSwitch<D(!new)>(s: State<D>, forked: bool)
    requires Ready(s) && s.torn.Some?
    ensures Recover(IncrPersisted(IncrOpened(s), NewIncr(s.mem), forked)) == None
  {
    NewIncrCounted(s.mem);
    var s' := IncrPersisted(IncrOpened(s), NewIncr(s.mem), forked);
    assert LiveOnDisk(s') == Live(s.mem) + [Last(NewIncr(s.mem).incr)];
    assert AllButLast(LiveOnDisk(s')) == Live(s.mem);
    assert s.torn.value in Live(s.mem);
  }

  // ----- A rewrite that ends with the file closed ------------------------------------------------

  /** The append-only file is switched off and a rewrite is made nevertheless; the history is not deleted; the
      server is started again with the file switched on. */
  function RestartedAfterClosed<D(!new)>(s: State<D>, rdb: bool, gc: bool): State<D> {
    var d := s.data;
    var off := s.(fd := None, child := Some(Child(d, Some([_ => d]))));
    var renamed := BaseRenamed(off, rdb);
    var rewritten := BasePersisted(renamed, renamed.pc.temp, false);
    StartPersisted(IncrReopened(Restarted(Crashed(rewritten), d)), gc)
  }

  function OldFirst<D>(s: State<D>): seq<D -> D> { if IncrFile(1) in s.dir then s.dir[IncrFile(1)] else [] }

  /**
    All INCRs are history then and loading restarts their numbers, so the server appends to INCR number 1. If that
    is one of the old files, its commands are replayed once more: recovery is right if and only if they change
    nothing. The old file is also listed as history, and once the history is deleted nothing can be recovered.
  */
  lemma ClosedRewrite<D(!new)>(s: State<D>, rdb: bool, gc: bool)
    requires Ready(s) && s.buf == []
    ensures var s' := RestartedAfterClosed(s, rdb, gc);
      && s'.data == s.data == s.flushed && s'.fd == Some(IncrFile(1))
      && Recover(s') == (if 1 in s.gaps.files then None else Some(Replay(s.data, OldFirst(s))))
      && (Recover(s') == Some(s'.data) <==> 1 !in s.gaps.files && Replay(s.data, OldFirst(s)) == s.data)
      && (IncrFile(1) in s'.mem.history <==> IncrFile(1) in s.mem.incr || IncrFile(1) in s.mem.history)
      && (IncrFile(1) in s'.mem.history ==> Recover(s'.(dir := s'.dir - {IncrFile(1)})) == None)
  {
    var base, first := BaseFile(s.mem.currBase + 1, rdb), IncrFile(1);
    var s' := RestartedAfterClosed(s, rdb, gc);
    ClosedFiles(s, rdb, gc);
    ReplayRewritten(s'.dir, s'.zero, base, first, s.data);
    Unreadable(s'.dir - {first}, s'.zero, base, first);
  }

  lemma Unreadable<D>(dir: map<FileName, seq<D -> D>>, zero: D, base: FileName, first: FileName)
    requires first !in dir
    ensures ReplayFiles(dir, zero, [base, first]) == None
  {
    assert [base, first][1..] == [first];
  }

  lemma ClosedFiles<D(!new)>(s: State<D>, rdb: bool, gc: bool)
    requires Counted(s.mem) && s.buf == [] && s.data == Replay(s.flushed, s.buf)
    requires s.torn.Some? ==> s.torn.value.IncrFile?
    ensures var s' := RestartedAfterClosed(s, rdb, gc);
      var base, first := BaseFile(s.mem.currBase + 1, rdb), IncrFile(1);
      && LiveOnDisk(s') == [base, first] && s'.data == s.data == s.flushed && s'.fd == Some(first) && s'.gaps.files == s.gaps.files
      && s'.mem.history == s.mem.incr + ([s.mem.base.value] + s.mem.history)
      && base in s'.dir && IsSnapshot(s'.dir[base], s.data) && first in s'.dir && s'.dir[first] == OldFirst(s)
      && (s'.torn.Some? ==> s'.torn.value.IncrFile?)
  {
    ClosedManifest(s.mem, rdb);
    var s' := RestartedAfterClosed(s, rdb, gc);
    assert s'.dir[IncrFile(1)] == OldFirst(s) + [] == OldFirst(s);
  }

  lemma ClosedManifest(m: Manifest, rdb: bool)
    requires Counted(m)
    ensures var closed := MarkRewritten(NewBase(m, rdb), false);
      && closed.base == Some(BaseFile(m.currBase + 1, rdb)) && closed.incr == []
      && closed.history == m.incr + ([m.base.value] + m.history)
      && Load(Some(closed)).currIncr == 0
  {}

  // ----- One server ---------------------------------------------------------------------------------

  /** A counter with one command, which adds one. */
  function Inc(x: int): int { x + 1 }

  /** A fresh directory: the first start. */
  lemma Started() returns (s: State<int>)
    ensures Ready(s) && s.pc.Idle? && s.torn.None? && s.buf == [] && s.data == 0 && s.flushed == 0
    ensures !s.gaps.past && s.gaps.files == {} && s.fd == Some(IncrFile(1)) && s.mem.incr == [IncrFile(1)] && IncrFile(1) in s.dir && s.dir[IncrFile(1)] == []
  {
    var s1 := Restarted(Initial(0), 0);
    RestartKeeps(Initial(0));
    var s2 := FirstBaseWritten(s1, true);
    FirstBaseKeeps(s1, true);
    var s3 := IncrReopened(s2);
    ReopenFirst(s2);
    s := StartPersisted(s3, false);
    PersistStartKeeps(s3, false);
  }

  /** ... and a command that adds one, not yet written. */
  lemma OneCommand() returns (s: State<int>)
    ensures Ready(s) && s.pc.Idle? && s.torn.None? && s.buf == [Inc] && s.data == 1 && s.flushed == 0
    ensures !s.gaps.past && s.gaps.files == {} && s.fd == Some(IncrFile(1)) && s.mem.incr == [IncrFile(1)] && IncrFile(1) in s.dir && s.dir[IncrFile(1)] == []
  {
    var t := Started();
    s := Executed(t, Inc);
    ExecuteKeeps(t, Inc);
  }

  /** Rewriting with that command still in the buffer, the counter is recovered as two. */
  lemma LeftoverExample() returns (s: State<int>)
    ensures Ready(s) && s.data == 1 && Recover(RewrittenWith(s, true, true)) == Some(2)
  {
    s := OneCommand();
    LeftoverAppliedTwice(s, true, true);
    OnceMore();
  }

  /** With the command written to INCR number 1 and the file switched off for a rewrite, a restart recovers one, and
      recovers two from then on. */
  lemma ClosedExample() returns (s: State<int>)
    ensures Ready(s) && s.data == 1
    ensures var s' := RestartedAfterClosed(s, true, false); s'.data == 1 && Recover(s') == Some(2)
  {
    var t := OneCommand();
    s := Flushed(t, 1);
    FlushKeeps(t, 1);
    assert t.buf[..1] == [Inc] && t.buf[1..] == [] && [] + [Inc] == [Inc];
    ClosedRewrite(s, true, false);
    OnceMore();
  }

  lemma OnceMore()
    ensures Replay(1, [Inc]) == 2
  {
    assert [Inc][1..] == [];
  }
}
