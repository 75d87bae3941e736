/**
  Gaps in the append-only file: when a short write that is cut off again (aof.c,
  `flushAppendOnlyFile`) leaves one, and when a rewrite removes it.
*/
module AofGaps {
  import opened Collections
  import opened AofRewrite
  import opened AofServer
  import opened AofRewriteLimits

  ghost predicate NoCutOff<D>(events: seq<Event<D>>) { forall e :: e in events ==> !e.CutOff? }

  // ----- One descriptor ------------------------------------------------------------------------

  /**
    A short write is cut off, and some commands are written after it. They leave a gap in the file, and nothing
    can be recovered, unless the descriptor is in append mode. A new INCR is opened without it, the INCR of a
    restarted server with it.
  */
  lemma GapLeft<D(!new)>(s: State<D>, count: nat)
    requires Ready(s) && 0 < count <= |s.buf|
    ensures var s' := Flushed(WriteCutOff(s), count);
      && (HasGap(s') <==> HasGap(s) || s.gaps.past || !s.gaps.append)
      && Recover(s') == if HasGap(s') then None else Some(s'.flushed)
  {
    var cut := WriteCutOff(s);
    var s' := Flushed(cut, count);
    CutOffKeeps(s);
    FlushKeeps(cut, count);
    assert Last(s.mem.incr) in LiveOnDisk(s');
    assert LiveOnDisk(s') == LiveOnDisk(s);
    if HasGap(s) {
      var n :| n in s.gaps.files && IncrFile(n) in LiveOnDisk(s);
      assert n in s'.gaps.files;
    }
    if cut.gaps.past { assert s.fd.value.n in s'.gaps.files && IncrFile(s.fd.value.n) == s.fd.value; }
  }

  // ----- Runs without such a write ---------------------------------------------------------------

  ghost predicate Solid<D>(s: State<D>) { !s.gaps.past && s.gaps.files == {} }

  lemma {:induction false} StaysSolid<D>(s: State<D>, events: seq<Event<D>>)
    requires Solid(s) && IsRun(s, events) && NoCutOff(events)
    ensures Solid(Run(s, events))
    decreases events
  {
    if events != [] {
      assert events[0] in events;
      SolidStep(s, events[0]);
      StaysSolid(Step(s, events[0]), events[1..]);
    }
  }

  lemma SolidStep<D>(s: State<D>, e: Event<D>)
    requires Solid(s) && Enabled(s, e) && !e.CutOff?
    ensures Solid(Step(s, e))
  {}

  /** Without such a write every run can be recovered: the dataset of all flushed commands. */
  lemma AlwaysRecovers<D(!new)>(zero: D, events: seq<Event<D>>)
    requires IsRun(Initial(zero), events) && NoCutOff(events)
    ensures var s := Run(Initial(zero), events); Recover(s) == Some(s.flushed)
  {
    StaysSolid(Initial(zero), events);
    CrashSafe(zero, events);
  }

  // ----- A rewrite ---------------------------------------------------------------------------------

  /** Once the new BASE is adopted, only the newest INCR matters. */
  lemma BaseReplacesGaps<D(!new)>(s: State<D>, gc: bool)
    requires Inv(s) && s.pc.Renamed?
    ensures var s' := BasePersisted(s, s.pc.temp, gc);
      && (HasGap(s') <==> s.fd.value.n in s.gaps.files)
      && Recover(s') == if HasGap(s') then None else Some(s'.flushed)
  {
    var s' := BasePersisted(s, s.pc.temp, gc);
    PersistBaseKeeps(s, s.pc.temp, gc);
    var rdb :| s.pc.temp == MarkRewritten(NewBase(s.mem, rdb), true);
    RewrittenCounted(s.mem, rdb);
    assert Live(s.pc.temp) == [s.pc.temp.base.value, Last(s.mem.incr)];
    assert IncrFile(s.fd.value.n) == s.fd.value;
  }

  /** No gap in the file that a rewrite in progress, or just begun, switched to. */
  ghost predicate NewFileSolid<D>(s: State<D>) {
    && (s.child.Some? ==> s.fd.Some? && !s.gaps.past && s.fd.value.n !in s.gaps.files)
    && (s.pc.Opened? && s.pc.temp.incr != [] ==> Last(s.pc.temp.incr).n !in s.gaps.files)
  }

  lemma NewFileStep<D(!new)>(s: State<D>, e: Event<D>)
    requires Inv(s) && NewFileSolid(s) && Enabled(s, e) && !e.CutOff?
    ensures NewFileSolid(Step(s, e))
  {}

  lemma {:induction false} NewFileStaysSolid<D(!new)>(s: State<D>, events: seq<Event<D>>)
    requires Inv(s) && NewFileSolid(s) && IsRun(s, events) && NoCutOff(events)
    ensures NewFileSolid(Run(s, events)) && Inv(Run(s, events))
    decreases events
  {
    if events != [] {
      assert events[0] in events;
      NewFileStep(s, events[0]);
      StepKeeps(s, events[0]);
      NewFileStaysSolid(Step(s, events[0]), events[1..]);
    }
  }

  /**
    Whatever gaps a run has left, a rewrite that is begun and finished without a further cut-off write brings
    recovery back: the files with gaps are history then.
  */
  lemma RewriteHeals<D(!new)>(zero: D, before: seq<Event<D>>, events: seq<Event<D>>, gc: bool)
    requires IsRun(Initial(zero), before) && Run(Initial(zero), before).pc.Idle? && Run(Initial(zero), before).child.None?
    requires IsRun(Run(Initial(zero), before), events) && NoCutOff(events) && Run(Run(Initial(zero), before), events).pc.Renamed?
    ensures var s := Run(Run(Initial(zero), before), events);
      var s' := BasePersisted(s, s.pc.temp, gc); !HasGap(s') && Recover(s') == Some(s'.flushed)
  {
    RunKeeps(Initial(zero), before);
    Heals(Run(Initial(zero), before), events, gc);
  }

  lemma Heals<D(!new)>(s: State<D>, events: seq<Event<D>>, gc: bool)
    requires Inv(s) && NewFileSolid(s) && IsRun(s, events) && NoCutOff(events) && Run(s, events).pc.Renamed?
    ensures var t := Run(s, events); var s' := BasePersisted(t, t.pc.temp, gc); !HasGap(s') && Recover(s') == Some(s'.flushed)
  {
    NewFileStaysSolid(s, events);
    HealedNow(Run(s, events), gc);
  }

  lemma HealedNow<D(!new)>(s: State<D>, gc: bool)
    requires Inv(s) && NewFileSolid(s) && s.pc.Renamed?
    ensures var s' := BasePersisted(s, s.pc.temp, gc); !HasGap(s') && Recover(s') == Some(s'.flushed)
  {
    BaseReplacesGaps(s, gc);
  }

  // ----- One server -----------------------------------------------------------------------------------

  ghost predicate Reaches(events: seq<Event<int>>, s: State<int>) {
    IsRun(Initial(0), events) && Run(Initial(0), events) == s
  }

  lemma Further(events: seq<Event<int>>, s: State<int>, e: Event<int>, s': State<int>) returns (more: seq<Event<int>>)
    requires Reaches(events, s) && Enabled(s, e) && Step(s, e) == s'
    ensures Reaches(more, s')
  {
    RunAppend(Initial(0), events, e);
    more := events + [e];
  }

  /** A first start. */
  lemma StartRuns() returns (events: seq<Event<int>>, s: State<int>)
    ensures Reaches(events, s) && s.pc.Idle? && s.child.None? && s.buf == [] && s.data == 0 && s.flushed == 0
  {
    s := Initial(0);
    events := Further([], s, Restart, Restarted(s, 0));
    s := Restarted(s, 0);
    events := Further(events, s, WriteFirstBase(true), FirstBaseWritten(s, true));
    s := FirstBaseWritten(s, true);
    events := Further(events, s, ReopenIncr, IncrReopened(s));
    s := IncrReopened(s);
    events := Further(events, s, PersistStart(false), StartPersisted(s, false));
    s := StartPersisted(s, false);
  }

  /** ... a new INCR, and a command that adds one. */
  lemma SwitchRuns() returns (events: seq<Event<int>>, s: State<int>)
    ensures Reaches(events, s) && s.pc.Idle? && !s.gaps.append && s.fd.Some? && s.buf == [Inc] && s.flushed == 0
  {
    events, s := StartRuns();
    events := Further(events, s, OpenIncr(true), IncrOpened(s));
    s := IncrOpened(s);
    events := Further(events, s, PersistIncr(true, false), IncrPersisted(s, s.pc.temp, false));
    s := IncrPersisted(s, s.pc.temp, false);
    events := Further(events, s, Execute(Inc), Executed(s, Inc));
    s := Executed(s, Inc);
  }

  /** The write of that command to the new INCR is cut off, and then repeated in full: the server runs on, and nothing
      can be recovered. */
  lemma GapRun() returns (events: seq<Event<int>>, s: State<int>)
    ensures Reaches(events, s) && s.pc.Idle? && s.buf == [] && s.flushed == 1 && Recover(s) == None
  {
    var before, t := SwitchRuns();
    RunKeeps(Initial(0), before);
    s := CutAndWritten(t);
    events := Further(before, t, CutOff, WriteCutOff(t));
    events := Further(events, WriteCutOff(t), Flush(1), s);
  }

  lemma CutAndWritten(s: State<int>) returns (s': State<int>)
    requires Ready(s) && s.pc.Idle? && !s.gaps.append && s.buf == [Inc] && s.flushed == 0
    ensures s' == Flushed(WriteCutOff(s), 1) && s'.pc.Idle? && s'.buf == [] && s'.flushed == 1 && Recover(s') == None
  {
    GapLeft(s, 1);
    s' := Flushed(WriteCutOff(s), 1);
    assert s.buf[..1] == [Inc] && [Inc][1..] == [];
    assert Replay(0, [Inc]) == Replay(Inc(0), []) == 1;
  }
}
