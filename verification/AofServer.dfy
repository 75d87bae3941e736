/**
  The functions of aof.c that carry out the rewrite protocol, on mutable server
  fields. Each is proved to perform exactly a run of the machine of `AofRewrite`,
  so crash safety holds at every disk step inside them.
*/
module AofServer {
  import opened Collections
  import opened AofRewrite

  lemma {:induction false} RunAppend<D>(s: State<D>, events: seq<Event<D>>, e: Event<D>)
    requires IsRun(s, events) && Enabled(Run(s, events), e)
    ensures IsRun(s, events + [e]) && Run(s, events + [e]) == Step(Run(s, events), e)
    decreases events
  {
    if events == [] {
      assert events + [e] == [e] && [e][1..] == [];
    } else {
      assert (events + [e])[1..] == events[1..] + [e];
      RunAppend(Step(s, events[0]), events[1..], e);
    }
  }

  /** `aofManifest`, changed in place by the functions that prepare a new one. */
  class AofManifest {
    var base: Option<FileName>
    var history: seq<FileName>
    var incr: seq<FileName>
    var currBase: nat
    var currIncr: nat
    var dirty: bool

    function Value(): Manifest
      reads this
    {
      Manifest(base, history, incr, currBase, currIncr, dirty)
    }

    /** `aofManifestCreate`. */
    constructor ()
      ensures Value() == EMPTY
    {
      base, history, incr, currBase, currIncr, dirty := None, [], [], 0, 0, false;
    }

    /** `aofManifestDup`. */
    constructor Dup(orig: AofManifest)
      ensures Value() == orig.Value()
    {
      base, history, incr := orig.base, orig.history, orig.incr;
      currBase, currIncr, dirty := orig.currBase, orig.currIncr, orig.dirty;
    }

    method NewBaseName(rdb: bool) returns (name: FileName)
      modifies this
      ensures Value() == NewBase(old(Value()), rdb)
      ensures base == Some(name) && name == BaseFile(old(currBase) + 1, rdb)
    {
      if base.Some? {
        history := [base.value] + history;
      }
      currBase := currBase + 1;
      name := BaseFile(currBase, rdb);
      base := Some(name);
      dirty := true;
    }

    method NewIncrName() returns (name: FileName)
      modifies this
      ensures Value() == NewIncr(old(Value()))
      ensures incr != [] && name == Last(incr) && name == IncrFile(old(currIncr) + 1)
    {
      currIncr := currIncr + 1;
      name := IncrFile(currIncr);
      incr := incr + [name];
      dirty := true;
    }

    /** `markRewrittenIncrAofAsHistory`: walks from the tail, moving each entry to the head of the history. */
    method MarkRewrittenIncr(fdOpen: bool)
      modifies this
      ensures Value() == MarkRewritten(old(Value()), fdOpen)
    {
      if |incr| == 0 {
        return;
      }
      ghost var keep := if fdOpen then |incr| - 1 else |incr|;
      var next := |incr|;
      if fdOpen {
        next := next - 1;
      }
      while next > 0
        invariant 0 <= next <= keep
        invariant incr == old(incr)[..next] + old(incr)[keep..]
        invariant history == old(incr)[next..keep] + old(history)
        invariant base == old(base) && currBase == old(currBase) && currIncr == old(currIncr) && dirty == old(dirty)
      {
        next := next - 1;
        assert old(incr)[next..keep] == [old(incr)[next]] + old(incr)[next + 1..keep];
        history := [incr[next]] + history;
        incr := incr[..next] + incr[next + 1..];
      }
      dirty := true;
    }
  }

  // ----- The runs the functions perform ---------------------------------------------

  /** The state `openNewIncrAofForAppend` leaves, when the fork that follows succeeds or not. */
  function OpenNewIncr<D>(s: State<D>, openOk: bool, persistOk: bool, forked: bool): State<D> {
    if !openOk then s
    else
      var created := IncrOpened(s);
      if persistOk then IncrPersisted(created, created.pc.temp, forked) else created.(pc := Idle)
  }

  /** What a flush does: writes whole commands, also a part of the next one, or a part that is cut off again. */
  datatype Write = Whole(count: nat) | Part(count: nat) | Cut

  predicate Possible<D>(w: Write, buf: seq<D -> D>) {
    match w
    case Whole(count) => count <= |buf|
    case Part(count) => count < |buf|
    case Cut => buf != []
  }

  /** The state it leaves. */
  function Written<D>(s: State<D>, w: Write): State<D>
    requires s.fd.Some? && Possible(w, s.buf)
  {
    match w
    case Whole(count) => Flushed(s, count)
    case Part(count) => Torn(s, count)
    case Cut => WriteCutOff(s)
  }

  function RewriteScript<D>(pending: nat, openOk: bool, persistOk: bool, forked: bool): seq<Event<D>> {
    [Flush(pending), OpenIncr(openOk)] + if openOk then [PersistIncr(persistOk, forked)] else []
  }

  lemma RewriteRuns<D>(s: State<D>, openOk: bool, persistOk: bool, forked: bool)
    requires s.pc.Idle? && s.fd.Some? && s.child.None?
    ensures var script := RewriteScript(|s.buf|, openOk, persistOk, forked);
      IsRun(s, script) && Run(s, script) == OpenNewIncr(Flushed(s, |s.buf|), openOk, persistOk, forked)
  {
    var flush, open, persist := Event<D>.Flush(|s.buf|), Event<D>.OpenIncr(openOk), Event<D>.PersistIncr(persistOk, forked);
    RunAppend(s, [], flush);
    RunAppend(s, [flush], open);
    assert [] + [flush] == [flush] && [flush] + [open] == [flush, open];
    if openOk { RunAppend(s, [flush, open], persist); }
  }

  function Unlinks<D>(n: nat): seq<Event<D>> { if n == 0 then [] else Unlinks(n - 1) + [UnlinkHistory] }

  /** All history files unlinked, one step each. */
  function AllUnlinked<D>(s: State<D>, n: nat): State<D>
    requires n <= |s.mem.history|
    ensures var s' := AllUnlinked(s, n); s'.pc == s.pc && s'.mem.history == s.mem.history[n..]
  {
    if n == 0 then s else HistoryUnlinked(AllUnlinked(s, n - 1))
  }

  lemma {:induction false} UnlinksRun<D>(s: State<D>, before: seq<Event<D>>, n: nat)
    requires IsRun(s, before) && Run(s, before).pc.Deleting? && n <= |Run(s, before).mem.history|
    ensures IsRun(s, before + Unlinks(n)) && Run(s, before + Unlinks(n)) == AllUnlinked(Run(s, before), n)
  {
    if n == 0 {
      assert before + [] == before;
    } else {
      UnlinksRun(s, before, n - 1);
      RunAppend(s, before + Unlinks(n - 1), Event<D>.UnlinkHistory);
      assert before + Unlinks(n) == before + Unlinks(n - 1) + [UnlinkHistory];
    }
  }

  /** The state `aofDelHistoryFiles` leaves. */
  function DelHistory<D>(s: State<D>, gc: bool, ok: bool): State<D> {
    if !gc || s.mem.history == [] then s
    else
      var s' := AllUnlinked(s, |s.mem.history|);
      if ok then HistoryPersisted(s') else s'.(pc := Idle)
  }

  lemma {:induction false} UnlinkedFiles<D>(s: State<D>, n: nat, f: FileName)
    requires n <= |s.mem.history|
    ensures f in AllUnlinked(s, n).dir <==> f in s.dir && f !in s.mem.history[..n]
    ensures AllUnlinked(s, n).disk == s.disk
  {
    if n > 0 {
      UnlinkedFiles(s, n - 1, f);
      assert s.mem.history[..n] == s.mem.history[..n - 1] + [s.mem.history[n - 1]];
      assert AllUnlinked(s, n - 1).mem.history[0] == s.mem.history[n - 1];
    }
  }

  /** Deleting the history removes exactly the files it names, from the directory and from the manifest in memory; the one
      on disk follows if it can be written. */
  lemma DeletedMeans<D>(s: State<D>, gc: bool, ok: bool, f: FileName)
    requires gc && s.mem.history != []
    ensures var s' := DelHistory(s, gc, ok);
      && (f in s'.dir <==> f in s.dir && f !in s.mem.history) && s'.mem.history == []
      && s'.mem.base == s.mem.base && s'.mem.incr == s.mem.incr
      && (if ok then s'.disk.Some? && s'.disk.value.history == [] && s'.disk.value.incr == s.mem.incr else s'.disk == s.disk)
  {
    UnlinkedFiles(s, |s.mem.history|, f);
    assert s.mem.history[..|s.mem.history|] == s.mem.history;
    UnlinkedMem(s, |s.mem.history|);
  }

  lemma {:induction false} UnlinkedMem<D>(s: State<D>, n: nat)
    requires n <= |s.mem.history|
    ensures var m := AllUnlinked(s, n).mem; m.base == s.mem.base && m.incr == s.mem.incr
  {
    if n > 0 { UnlinkedMem(s, n - 1); }
  }

  /** The state `backgroundRewriteDoneHandler` leaves. */
  function Done<D>(s: State<D>, exitOk: bool, renameOk: bool, rdb: bool, persistOk: bool, gc: bool, lastOk: bool): State<D>
    requires s.child.Some? && (exitOk ==> s.child.value.file.Some?)
  {
    if !exitOk || !renameOk then s.(child := None)
    else
      var renamed := BaseRenamed(s, rdb);
      var temp := renamed.pc.temp;
      if persistOk then DelHistory(BasePersisted(renamed, temp, gc), gc, lastOk) else BaseUnlinked(renamed, temp.base.value)
  }

  /** A rewrite that fails, at whatever step, leaves the manifests as they were, and no file of its own. */
  lemma FailureMeans<D>(s: State<D>, exitOk: bool, renameOk: bool, rdb: bool, persistOk: bool, gc: bool, lastOk: bool)
    requires s.child.Some? && (exitOk ==> s.child.value.file.Some?) && !(exitOk && renameOk && persistOk)
    ensures var s' := Done(s, exitOk, renameOk, rdb, persistOk, gc, lastOk); var name := BaseFile(s.mem.currBase + 1, rdb);
      && s'.disk == s.disk && s'.mem == s.mem && s'.child.None? && s'.fd == s.fd && s'.buf == s.buf && s'.data == s.data
      && (name !in s.dir ==> s'.dir == s.dir)
  {}

  function DoneScript<D>(s: State<D>, exitOk: bool, renameOk: bool, rdb: bool, persistOk: bool, gc: bool, lastOk: bool): seq<Event<D>> {
    var rewritten := |MarkRewritten(NewBase(s.mem, rdb), s.fd.Some?).history|;
    if !exitOk then [ChildFails]
    else if !renameOk then [RenameBase(false, rdb)]
    else if !persistOk then [RenameBase(true, rdb), PersistBase(false, gc), UnlinkBase]
    else
      [RenameBase(true, rdb), PersistBase(true, gc)] +
      if gc && rewritten > 0 then Unlinks(rewritten) + [PersistHistory(lastOk)] else []
  }

  lemma DoneFailsRuns<D>(s: State<D>, exitOk: bool, renameOk: bool, rdb: bool, gc: bool, lastOk: bool)
    requires s.pc.Idle? && s.child.Some? && (exitOk ==> s.child.value.file.Some?)
    ensures var script := DoneScript(s, exitOk, renameOk, rdb, false, gc, lastOk);
      IsRun(s, script) && Run(s, script) == Done(s, exitOk, renameOk, rdb, false, gc, lastOk)
  {
    var rename, persist := Event<D>.RenameBase(renameOk, rdb), Event<D>.PersistBase(false, gc);
    if !exitOk {
      RunAppend(s, [], Event<D>.ChildFails);
      assert [] + [Event<D>.ChildFails] == [ChildFails];
    } else {
      RunAppend(s, [], rename);
      assert [] + [rename] == [rename];
      if renameOk {
        RunAppend(s, [rename], persist);
        assert [rename] + [persist] == [rename, persist];
        RunAppend(s, [rename, persist], Event<D>.UnlinkBase);
        assert [rename, persist] + [Event<D>.UnlinkBase] == [rename, persist, UnlinkBase];
      }
    }
  }

  lemma DoneSucceedsRuns<D>(s: State<D>, rdb: bool, gc: bool, lastOk: bool)
    requires s.pc.Idle? && s.child.Some? && s.child.value.file.Some?
    ensures var script := DoneScript(s, true, true, rdb, true, gc, lastOk);
      IsRun(s, script) && Run(s, script) == Done(s, true, true, rdb, true, gc, lastOk)
  {
    var rename, persist := Event<D>.RenameBase(true, rdb), Event<D>.PersistBase(true, gc);
    RunAppend(s, [], rename);
    assert [] + [rename] == [rename];
    RunAppend(s, [rename], persist);
    var two := [rename, persist];
    assert [rename] + [persist] == two;
    var s2 := Run(s, two);
    var n := |s2.mem.history|;
    if gc && n > 0 {
      UnlinksRun(s, two, n);
      RunAppend(s, two + Unlinks(n), Event<D>.PersistHistory(lastOk));
      assert two + Unlinks(n) + [PersistHistory(lastOk)] == two + (Unlinks(n) + [PersistHistory(lastOk)]);
    } else {
      assert two + [] == two;
    }
  }

  lemma DoneRuns<D>(s: State<D>, exitOk: bool, renameOk: bool, rdb: bool, persistOk: bool, gc: bool, lastOk: bool)
    requires s.pc.Idle? && s.child.Some? && (exitOk ==> s.child.value.file.Some?)
    ensures var script := DoneScript(s, exitOk, renameOk, rdb, persistOk, gc, lastOk);
      IsRun(s, script) && Run(s, script) == Done(s, exitOk, renameOk, rdb, persistOk, gc, lastOk)
  {
    if exitOk && renameOk && persistOk {
      DoneSucceedsRuns(s, rdb, gc, lastOk);
    } else {
      DoneFailsRuns(s, exitOk, renameOk, rdb, gc, lastOk);
    }
  }

  class Server<!D(!new)> {
    const zero: D
    var dir: map<FileName, seq<D -> D>>
    var disk: Option<Manifest>
    var manifest: AofManifest
    var fd: Option<FileName>
    var buf: seq<D -> D>
    var data: D
    var child: Option<Child<D>>
    ghost var gaps: Gaps
    ghost var torn: Option<FileName>
    ghost var flushed: D
    ghost var pc: Pc

    ghost function View(): State<D>
      reads this, manifest
    {
      State(zero, dir, disk, manifest.Value(), fd, buf, data, flushed, child, torn, gaps, pc)
    }

    constructor (empty: D)
      ensures View() == Initial(empty)
    {
      zero, data, flushed := empty, empty, empty;
      dir, disk, fd, buf, child, torn, pc := map[], None, None, [], None, None, Down;
      gaps := Gaps(false, false, {});
      manifest := new AofManifest();
    }

    /** `flushAppendOnlyFile`. */
    method Flush(w: Write)
      requires fd.Some? && Possible(w, buf)
      modifies this
      ensures View() == Written(old(View()), w)
      ensures manifest == old(manifest)
    {
      if w.Cut? {
        gaps := gaps.(past := gaps.past || !gaps.append);
        return;
      }
      if w.Part? || w.count > 0 {
        gaps := AfterWrite(gaps, fd.value);
        torn := if w.Part? then fd else None;
      }
      dir := Append(dir, fd.value, buf[..w.count]);
      flushed := Replay(flushed, buf[..w.count]);
      buf := buf[w.count..];
    }

    /** `openNewIncrAofForAppend` with the file enabled: all or nothing, except for an orphan file. */
    method OpenNewIncrForAppend(openOk: bool, persistOk: bool) returns (ok: bool)
      requires pc.Idle? && child.None?
      modifies this
      ensures ok == (openOk && persistOk)
      ensures View() == OpenNewIncr(old(View()), openOk, persistOk, false)
      ensures data == old(data) && child.None? && (old(fd).Some? ==> fd.Some?)
    {
      var temp := new AofManifest.Dup(manifest);
      var name := temp.NewIncrName();
      if !openOk {
        return false;
      }
      dir := dir[name := []];
      gaps := Without(gaps, name);
      if !persistOk {
        return false;
      }
      SwitchTo(temp, name);
      return true;
    }

    /** ... the part that persists the new manifest and switches descriptors; the new one is not in append mode. */
    method SwitchTo(temp: AofManifest, name: FileName)
      requires pc.Idle? && child.None? && temp.incr != [] && name == Last(temp.incr)
      modifies this, temp
      ensures View() == IncrPersisted(old(View()), old(temp.Value()), false)
    {
      disk := Some(temp.Value());
      temp.dirty := false;
      fd := Some(name);
      gaps := Gaps(false, false, gaps.files);
      manifest := temp;
    }

    /** `rewriteAppendOnlyFileBackground`. Its forced flush writes what it can; the rewrite goes on regardless, but
        it is a run of the machine if the whole buffer was written. */
    method RewriteInBackground(w: Write, openOk: bool, persistOk: bool, forkOk: bool) returns (ok: bool)
      requires pc.Idle? && fd.Some? && Possible(w, buf)
      modifies this
      ensures old(child).Some? ==> !ok && View() == old(View())
      ensures old(child).None? ==>
        && ok == (openOk && persistOk && forkOk)
        && View() == OpenNewIncr(Written(old(View()), w), openOk, persistOk, forkOk)
      ensures old(child).None? && w == Whole(|old(buf)|) ==>
        var script := RewriteScript(|old(buf)|, openOk, persistOk, forkOk);
        IsRun(old(View()), script) && View() == Run(old(View()), script)
    {
      if child.Some? {
        return false;
      }
      RewriteRuns(View(), openOk, persistOk, forkOk);
      Flush(w);
      ok := OpenNewIncrForAppend(openOk, persistOk);
      if ok && forkOk {
        child := Some(Child(data, None));
      }
      ok := ok && forkOk;
    }

    /** One turn of the loop in `aofDelHistoryFiles`. */
    method UnlinkFirst()
      requires manifest.history != []
      modifies this, manifest
      ensures manifest == old(manifest) && View() == HistoryUnlinked(old(View()))
    {
      dir := dir - {manifest.history[0]};
      gaps := Without(gaps, manifest.history[0]);
      manifest.history := manifest.history[1..];
      manifest.dirty := true;
    }

    /** `aofDelHistoryFiles`. */
    method DelHistoryFiles(gc: bool, persistOk: bool)
      requires manifest.history != [] && gc ==> pc.Deleting?
      modifies this, manifest
      ensures manifest == old(manifest)
      ensures View() == DelHistory(old(View()), gc, persistOk)
    {
      if !gc || |manifest.history| == 0 {
        return;
      }
      ghost var start := View();
      ghost var n := 0;
      while |manifest.history| > 0
        invariant manifest == old(manifest)
        invariant 0 <= n <= |start.mem.history| && View() == AllUnlinked(start, n)
        invariant n == 0 || manifest.dirty
        decreases |manifest.history|
      {
        UnlinkFirst();
        n := n + 1;
      }
      pc := Idle;
      if persistOk {
        disk := Some(manifest.Value());
        manifest.dirty := false;
      }
    }

    /** The part of `backgroundRewriteDoneHandler` that renames the child's file and prepares the manifest. */
    method RenameNewBase(rdb: bool) returns (temp: AofManifest)
      requires child.Some? && child.value.file.Some?
      modifies this
      ensures fresh(temp) && temp.Value() == BaseRenamed(old(View()), rdb).pc.temp
      ensures View() == BaseRenamed(old(View()), rdb).(pc := old(pc))
      ensures manifest == old(manifest)
    {
      temp := new AofManifest.Dup(manifest);
      var name := temp.NewBaseName(rdb);
      dir := dir[name := child.value.file.value];
      temp.MarkRewrittenIncr(fd.Some?);
    }

    /** ... and the part that persists it, adopts it and deletes the history. */
    method AdoptNewBase(temp: AofManifest, persistOk: bool, gc: bool, lastOk: bool)
      requires temp.base.Some? && temp != manifest
      modifies this, temp
      ensures !persistOk ==> View() == BaseUnlinked(old(View()), old(temp.base.value))
      ensures persistOk ==> View() == DelHistory(BasePersisted(old(View()), old(temp.Value()), gc), gc, lastOk)
    {
      if !persistOk {
        dir := dir - {temp.base.value};
        child := None;
        pc := Idle;
        return;
      }
      disk := Some(temp.Value());
      temp.dirty := false;
      manifest := temp;
      child := None;
      pc := if gc && manifest.history != [] then Deleting else Idle;
      DelHistoryFiles(gc, lastOk);
    }

    /** `backgroundRewriteDoneHandler`. */
    method RewriteDone(exitOk: bool, renameOk: bool, rdb: bool, persistOk: bool, gc: bool, lastOk: bool)
      requires pc.Idle? && child.Some? && (exitOk ==> child.value.file.Some?)
      modifies this
      ensures var script := DoneScript(old(View()), exitOk, renameOk, rdb, persistOk, gc, lastOk);
        IsRun(old(View()), script) && View() == Run(old(View()), script)
    {
      DoneRuns(View(), exitOk, renameOk, rdb, persistOk, gc, lastOk);
      if exitOk && renameOk {
        var temp := RenameNewBase(rdb);
        AdoptNewBase(temp, persistOk, gc, lastOk);
      } else {
        child := None;
      }
    }
  }
}
