/**
  The multi-part append-only file: the manifest, the background rewrite protocol
  and history deletion (aof.c), as a machine whose every step touches the disk at
  most once, so that a crash may fall between any two of them.

  A file is the sequence of dataset transformers it replays; a snapshot is one
  constant transformer. A write may end inside a command: the file is then torn, and
  the loader cuts such a tail off, in the last file only. A short write may also be cut
  off again; then a descriptor without append mode stands past the end of its file, and
  the next write leaves a gap of zeros that the loader refuses.

  `Recover` is what a restarted server loads. The main theorem, `CrashSafe`, says that
  after every run of these steps, in every order, with any of these failures and any
  number of crashes and restarts, the files the on-disk manifest names are all there, and
  `Recover` yields the dataset of all flushed commands if and only if none of them has a
  gap. `AofGaps` says when there is one.
*/
module AofRewrite {
  import opened Collections

  datatype FileName = BaseFile(n: nat, rdb: bool) | IncrFile(n: nat)

  datatype Manifest = Manifest(
    base: Option<FileName>,
    history: seq<FileName>,
    incr: seq<FileName>,
    currBase: nat,
    currIncr: nat,
    dirty: bool)

  const EMPTY := Manifest(None, [], [], 0, 0, false)

  // ----- Manifest transitions -------------------------------------------------

  /** `getNewBaseFileNameAndMarkPreAsHistory`. */
  function NewBase(m: Manifest, rdb: bool): Manifest {
    var history := if m.base.Some? then [m.base.value] + m.history else m.history;
    m.(history := history, base := Some(BaseFile(m.currBase + 1, rdb)), currBase := m.currBase + 1, dirty := true)
  }

  /** `getNewIncrAofName`. */
  function NewIncr(m: Manifest): Manifest {
    m.(incr := m.incr + [IncrFile(m.currIncr + 1)], currIncr := m.currIncr + 1, dirty := true)
  }

  /** `markRewrittenIncrAofAsHistory`: keeps the file being written, if one is open. */
  function MarkRewritten(m: Manifest, fdOpen: bool): Manifest {
    if m.incr == [] then m
    else
      var keep := if fdOpen then |m.incr| - 1 else |m.incr|;
      m.(history := m.incr[..keep] + m.history, incr := m.incr[keep..], dirty := true)
  }

  /** What `aofLoadManifestFromDisk` rebuilds: the counters come from the live entries. */
  function Load(disk: Option<Manifest>): Manifest {
    if disk.None? then EMPTY
    else
      var d := disk.value;
      d.(currBase := if d.base.Some? then d.base.value.n else 0,
         currIncr := if d.incr == [] then 0 else d.incr[|d.incr| - 1].n,
         dirty := false)
  }

  function Live(m: Manifest): seq<FileName> {
    (if m.base.Some? then [m.base.value] else []) + m.incr
  }

  // ----- Replay -----------------------------------------------------------------

  function Replay<D>(d: D, body: seq<D -> D>): D {
    if body == [] then d else Replay(body[0](d), body[1..])
  }

  /** Load the named files in order; None when one of them is missing. */
  function ReplayFiles<D>(dir: map<FileName, seq<D -> D>>, d: D, names: seq<FileName>): Option<D>
    decreases names
  {
    if names == [] then Some(d)
    else if names[0] !in dir then None
    else ReplayFiles(dir, Replay(d, dir[names[0]]), names[1..])
  }

  lemma {:induction false} ReplayConcat<D>(d: D, a: seq<D -> D>, b: seq<D -> D>)
    ensures Replay(d, a + b) == Replay(Replay(d, a), b)
    decreases a
  {
    if a == [] {
      assert a + b == b;
    } else {
      assert (a + b)[1..] == a[1..] + b;
      ReplayConcat(a[0](d), a[1..], b);
    }
  }

  lemma {:induction false} ReplayFilesConcat<D>(dir: map<FileName, seq<D -> D>>, d: D, a: seq<FileName>, b: seq<FileName>)
    ensures ReplayFiles(dir, d, a + b) ==
      match ReplayFiles(dir, d, a) case None => None case Some(x) => ReplayFiles(dir, x, b)
    decreases a
  {
    if a == [] {
      assert a + b == b;
    } else if a[0] in dir {
      assert (a + b)[1..] == a[1..] + b;
      ReplayFilesConcat(dir, Replay(d, dir[a[0]]), a[1..], b);
    }
  }

  /** Loading depends only on the files named. */
  lemma {:induction false} ReplayFilesAgree<D>(dir: map<FileName, seq<D -> D>>, dir': map<FileName, seq<D -> D>>, d: D, names: seq<FileName>)
    requires forall n :: n in names ==> (n in dir <==> n in dir') && (n in dir ==> dir[n] == dir'[n])
    ensures ReplayFiles(dir, d, names) == ReplayFiles(dir', d, names)
    decreases names
  {
    if names != [] {
      assert names[0] in names;
      if names[0] in dir { ReplayFilesAgree(dir, dir', Replay(d, dir[names[0]]), names[1..]); }
    }
  }

  // ----- The machine --------------------------------------------------------------

  datatype Child<!D> = Child(snapshot: D, file: Option<seq<D -> D>>)

  /** Where the main thread stands inside a multi-step operation. */
  datatype Pc =
    | Down                       // not running
    | Loaded                     // dataset loaded, the append-only file not open yet
    | Based                      // ... and a first BASE written
    | Reopened                   // ... and the INCR opened, manifest not persisted
    | Idle
    | Opened(temp: Manifest)     // new INCR created, manifest not persisted
    | Renamed(temp: Manifest)    // new BASE in place, manifest not persisted
    | Unwinding(temp: Manifest)  // persisting failed, new BASE still to be unlinked
    | Deleting                   // unlinking history files

  /** Gaps of zeros, and the descriptor that may leave one. */
  datatype Gaps = Gaps(
    append: bool,       // whether server.aof_fd is in append mode
    past: bool,         // if not: whether it stands past the end of its file
    files: set<nat>)    // the numbers of the INCR files with a gap

  datatype State<!D> = State(
    zero: D,                             // the empty dataset
    dir: map<FileName, seq<D -> D>>,     // the append-only directory
    disk: Option<Manifest>,              // the manifest file
    mem: Manifest,                       // server.aof_manifest
    fd: Option<FileName>,                // the file server.aof_fd writes
    buf: seq<D -> D>,                    // server.aof_buf
    data: D,                             // the dataset in memory
    flushed: D,                          // the dataset of the commands written so far
    child: Option<Child<D>>,
    torn: Option<FileName>,              // a file that ends with part of a command
    gaps: Gaps,
    pc: Pc)

  datatype Event<!D> =
    | Execute(cmd: D -> D)
    | Flush(count: nat)
    | Tear(count: nat)
    | CutOff                             // a short write that is truncated away again
    | OpenIncr(ok: bool)
    | PersistIncr(ok: bool, forked: bool)
    | ChildWrites
    | ChildFails
    | RenameBase(ok: bool, rdb: bool)
    | PersistBase(ok: bool, gc: bool)
    | UnlinkBase
    | UnlinkHistory
    | PersistHistory(ok: bool)
    | Crash
    | Restart
    | WriteFirstBase(rdb: bool)
    | ReopenIncr
    | PersistStart(gc: bool)

  function LiveOnDisk<D>(s: State<D>): seq<FileName> { if s.disk.Some? then Live(s.disk.value) else [] }

  /** The files but the last, which alone may end inside a command (`loadAppendOnlyFiles`). */
  function AllButLast(names: seq<FileName>): seq<FileName> { if names == [] then [] else names[..|names| - 1] }

  /** What would be loaded if no file had a gap. */
  function RecoverWhole<D>(s: State<D>): Option<D> {
    if s.torn.Some? && s.torn.value in AllButLast(LiveOnDisk(s)) then None
    else ReplayFiles(s.dir, s.zero, LiveOnDisk(s))
  }

  /** A file that must be loaded has a gap. */
  predicate HasGap<D>(s: State<D>) { exists n :: n in s.gaps.files && IncrFile(n) in LiveOnDisk(s) }

  /** What a restarted server loads; a gap of zeros is not a command, and the loader refuses it. */
  function Recover<D>(s: State<D>): Option<D> { if HasGap(s) then None else RecoverWhole(s) }

  function Last(names: seq<FileName>): FileName
    requires names != []
  {
    names[|names| - 1]
  }

  function Append<D>(dir: map<FileName, seq<D -> D>>, name: FileName, cmds: seq<D -> D>): map<FileName, seq<D -> D>> {
    dir[name := (if name in dir then dir[name] else []) + cmds]
  }

  function AfterPersist(m: Manifest): Manifest { m.(dirty := false) }

  predicate Enabled<D>(s: State<D>, e: Event<D>) {
    match e
    case Execute(_) => s.pc.Idle?
    case Flush(count) => s.pc.Idle? && s.fd.Some? && count <= |s.buf|
    case Tear(count) => s.pc.Idle? && s.fd.Some? && count < |s.buf|
    case CutOff => s.pc.Idle? && s.fd.Some? && s.buf != []
    case OpenIncr(_) => s.pc.Idle? && s.child.None? && s.buf == []
    case PersistIncr(_, _) => s.pc.Opened? && s.pc.temp.incr != []
    case ChildWrites => s.child.Some? && s.child.value.file.None?
    case ChildFails => s.pc.Idle? && s.child.Some?
    case RenameBase(_, _) => s.pc.Idle? && s.child.Some? && s.child.value.file.Some?
    case PersistBase(_, _) => s.pc.Renamed?
    case UnlinkBase => s.pc.Unwinding? && s.pc.temp.base.Some?
    case UnlinkHistory => s.pc.Deleting? && s.mem.history != []
    case PersistHistory(_) => s.pc.Deleting? && s.mem.history == []
    case Crash => true
    case Restart => s.pc.Down? && Recover(s).Some?
    case WriteFirstBase(_) => s.pc.Loaded? && s.mem.base.None? && s.mem.incr == []
    case ReopenIncr => (s.pc.Loaded? && !(s.mem.base.None? && s.mem.incr == [])) || s.pc.Based?
    case PersistStart(_) => s.pc.Reopened?
  }

  // Each step, one function per event. `feedAppendOnlyFile` and `flushAppendOnlyFile`:

  function Executed<D>(s: State<D>, cmd: D -> D): State<D> { s.(data := cmd(s.data), buf := s.buf + [cmd]) }

  function Flushed<D>(s: State<D>, count: nat): State<D>
    requires s.fd.Some? && count <= |s.buf|
  {
    s.(dir := Append(s.dir, s.fd.value, s.buf[..count]), buf := s.buf[count..],
       flushed := Replay(s.flushed, s.buf[..count]), torn := if count > 0 then None else s.torn,
       gaps := if count > 0 then AfterWrite(s.gaps, s.fd.value) else s.gaps)
  }

  /** Writing past the end of the file leaves a gap. */
  function AfterWrite(g: Gaps, name: FileName): Gaps {
    if g.past then g.(past := false, files := g.files + {name.n}) else g
  }

  /** Some commands and a part of the next one; the rest of that one stays in the buffer. */
  function Torn<D>(s: State<D>, count: nat): State<D>
    requires s.fd.Some? && count < |s.buf|
  {
    Flushed(s, count).(torn := s.fd, gaps := AfterWrite(s.gaps, s.fd.value))
  }

  /** The truncated bytes are gone, but without append mode the descriptor stays where they ended. */
  function WriteCutOff<D>(s: State<D>): State<D> { s.(gaps := s.gaps.(past := s.gaps.past || !s.gaps.append)) }

  /** A file that is emptied or unlinked has no gap. */
  function Without(g: Gaps, name: FileName): Gaps { if name.IncrFile? then g.(files := g.files - {name.n}) else g }

  // `openNewIncrAofForAppend`: open(O_TRUNC), then persist, then switch descriptors.

  function IncrOpened<D>(s: State<D>): State<D> {
    var temp := NewIncr(s.mem);
    s.(dir := s.dir[Last(temp.incr) := []], gaps := Without(s.gaps, Last(temp.incr)), pc := Opened(temp))
  }

  function IncrPersisted<D>(s: State<D>, temp: Manifest, forked: bool): State<D>
    requires temp.incr != []
  {
    s.(disk := Some(temp), mem := AfterPersist(temp), fd := Some(Last(temp.incr)), gaps := Gaps(false, false, s.gaps.files),
       child := if forked then Some(Child(s.data, None)) else None, pc := Idle)
  }

  // The child process writes its snapshot to a temporary file of its own.

  function ChildWrote<D>(s: State<D>): State<D>
    requires s.child.Some?
  {
    var snapshot := s.child.value.snapshot;
    s.(child := Some(Child(snapshot, Some([_ => snapshot]))))
  }

  // `backgroundRewriteDoneHandler`: rename, persist, adopt, delete history.

  function BaseRenamed<D>(s: State<D>, rdb: bool): State<D>
    requires s.child.Some? && s.child.value.file.Some?
  {
    var temp := MarkRewritten(NewBase(s.mem, rdb), s.fd.Some?);
    s.(dir := s.dir[temp.base.value := s.child.value.file.value], pc := Renamed(temp))
  }

  function BasePersisted<D>(s: State<D>, temp: Manifest, gc: bool): State<D> {
    s.(disk := Some(temp), mem := AfterPersist(temp), child := None,
       pc := if gc && temp.history != [] then Deleting else Idle)
  }

  function BaseUnlinked<D>(s: State<D>, name: FileName): State<D> { s.(dir := s.dir - {name}, child := None, pc := Idle) }

  // `aofDelHistoryFiles`

  function HistoryUnlinked<D>(s: State<D>): State<D>
    requires s.mem.history != []
  {
    s.(dir := s.dir - {s.mem.history[0]}, gaps := Without(s.gaps, s.mem.history[0]),
       mem := s.mem.(history := s.mem.history[1..], dirty := true))
  }

  function HistoryPersisted<D>(s: State<D>): State<D> {
    s.(disk := Some(s.mem), mem := AfterPersist(s.mem), pc := Idle)
  }

  // The process dies and everything but the disk is lost; a new one loads the manifest and the files.

  function Crashed<D>(s: State<D>): State<D> {
    s.(mem := EMPTY, fd := None, buf := [], data := s.zero, child := None, gaps := Gaps(false, false, s.gaps.files), pc := Down)
  }

  function Restarted<D>(s: State<D>, data: D): State<D> {
    s.(mem := Load(s.disk), data := data, pc := Loaded,
       torn := if s.torn.Some? && s.torn.value in LiveOnDisk(s) then None else s.torn)
  }

  // `aofOpenIfNeededOnServerStart`

  function FirstBaseWritten<D>(s: State<D>, rdb: bool): State<D> {
    var mem := NewBase(s.mem, rdb);
    var d := s.data;
    s.(dir := s.dir[mem.base.value := [_ => d]], mem := mem, pc := Based)
  }

  function IncrReopened<D>(s: State<D>): State<D> {
    var mem := if s.mem.incr == [] then NewIncr(s.mem) else s.mem;
    s.(dir := Append(s.dir, Last(mem.incr), []), mem := mem, fd := Some(Last(mem.incr)),
       gaps := Gaps(true, false, s.gaps.files), pc := Reopened)
  }

  function StartPersisted<D>(s: State<D>, gc: bool): State<D> {
    s.(disk := if s.mem.dirty then Some(s.mem) else s.disk, mem := AfterPersist(s.mem),
       pc := if gc && s.mem.history != [] then Deleting else Idle)
  }

  function Step<D>(s: State<D>, e: Event<D>): State<D>
    requires Enabled(s, e)
  {
    match e
    case Execute(cmd) => Executed(s, cmd)
    case Flush(count) => Flushed(s, count)
    case Tear(count) => Torn(s, count)
    case CutOff => WriteCutOff(s)
    case OpenIncr(ok) => if ok then IncrOpened(s) else s
    case PersistIncr(ok, forked) => if ok then IncrPersisted(s, s.pc.temp, forked) else s.(pc := Idle)
    case ChildWrites => ChildWrote(s)
    case ChildFails => s.(child := None)
    case RenameBase(ok, rdb) => if ok then BaseRenamed(s, rdb) else s.(child := None)
    case PersistBase(ok, gc) => if ok then BasePersisted(s, s.pc.temp, gc) else s.(pc := Unwinding(s.pc.temp))
    case UnlinkBase => BaseUnlinked(s, s.pc.temp.base.value)
    case UnlinkHistory => HistoryUnlinked(s)
    case PersistHistory(ok) => if ok then HistoryPersisted(s) else s.(pc := Idle)
    case Crash => Crashed(s)
    case Restart => Restarted(s, Recover(s).value)
    case WriteFirstBase(rdb) => FirstBaseWritten(s, rdb)
    case ReopenIncr => IncrReopened(s)
    case PersistStart(gc) => StartPersisted(s, gc)
  }

  function Initial<D>(zero: D): State<D> {
    State(zero, map[], None, EMPTY, None, [], zero, zero, None, None, Gaps(false, false, {}), Down)
  }

  // ----- Invariant -------------------------------------------------------------------

  /** A manifest that may be on disk: one BASE, ascending INCRs, history strictly older. */
  ghost predicate WellFormed(m: Manifest) {
    && m.base.Some? && m.base.value.BaseFile?
    && m.incr != []
    && (forall i :: 0 <= i < |m.incr| ==> m.incr[i].IncrFile?)
    && (forall i, j :: 0 <= i < j < |m.incr| ==> m.incr[i].n < m.incr[j].n)
    && (forall h :: h in m.history ==> Older(h, m))
  }

  ghost predicate Older(h: FileName, m: Manifest)
    requires m.base.Some? && m.incr != []
  {
    if h.BaseFile? then h.n < m.base.value.n else h.n < m.incr[0].n
  }

  /** The counters are those of the newest files. */
  ghost predicate Counted(m: Manifest) {
    WellFormed(m) && m.currBase == m.base.value.n && m.currIncr == Last(m.incr).n
  }

  /** Memory and disk name the same live files; memory may have dropped some history. */
  ghost predicate Adopted(mem: Manifest, d: Manifest) {
    mem.base == d.base && mem.incr == d.incr && (forall h :: h in mem.history ==> h in d.history)
  }

  ghost predicate IsSnapshot<D(!new)>(body: seq<D -> D>, d: D) {
    |body| == 1 && forall x: D :: body[0](x) == d
  }

  ghost predicate OnDiskOk<D>(s: State<D>) {
    && (s.disk.Some? ==> WellFormed(s.disk.value))
    && (s.disk.None? && IncrFile(1) in s.dir ==> s.dir[IncrFile(1)] == [])
    && RecoverWhole(s) == Some(s.flushed)
    && (s.torn.Some? ==> s.disk.Some? && s.torn.value == Last(s.disk.value.incr))
  }

  /** The newest INCR holds exactly the commands flushed since the child was forked. */
  ghost predicate ChildOk<D(!new)>(s: State<D>)
    requires s.child.Some? && s.mem.incr != []
  {
    && Last(s.mem.incr) in s.dir
    && Replay(s.child.value.snapshot, s.dir[Last(s.mem.incr)]) == s.flushed
    && (s.child.value.file.Some? ==> IsSnapshot(s.child.value.file.value, s.child.value.snapshot))
  }

  ghost predicate Running<D(!new)>(s: State<D>) {
    && s.disk.Some? && Counted(s.mem) && Adopted(s.mem, s.disk.value)
    && s.fd == Some(Last(s.mem.incr))
    && s.data == Replay(s.flushed, s.buf)
    && (s.torn.Some? ==> s.buf != [])
    && (s.child.Some? ==> ChildOk(s))
  }

  /** A first start: no manifest yet, everything written is still provisional. */
  ghost predicate FirstStart<D(!new)>(s: State<D>, incr: seq<FileName>) {
    && s.disk.None? && s.child.None? && s.buf == [] && s.data == s.flushed
    && s.mem.base.Some? && s.mem.base.value.BaseFile? && s.mem.base.value.n == 1 == s.mem.currBase
    && s.mem.history == [] && s.mem.incr == incr && s.mem.currIncr == |incr| && s.mem.dirty
    && s.mem.base.value in s.dir && IsSnapshot(s.dir[s.mem.base.value], s.flushed)
  }

  ghost predicate NewBaseReady<D(!new)>(s: State<D>, temp: Manifest) {
    && s.child.Some?
    && (exists rdb :: temp == MarkRewritten(NewBase(s.mem, rdb), true))
    && temp.base.value in s.dir && IsSnapshot(s.dir[temp.base.value], s.child.value.snapshot)
  }

  ghost predicate Ready<D(!new)>(s: State<D>) { OnDiskOk(s) && Running(s) }

  ghost predicate JustLoaded<D>(s: State<D>) {
    OnDiskOk(s) && s.mem == Load(s.disk) && s.data == s.flushed && s.buf == [] && s.child.None? && s.torn.None?
  }

  ghost predicate JustReopened<D(!new)>(s: State<D>) {
    && OnDiskOk(s)
    && if s.disk.Some? then Running(s) && s.child.None? && !s.mem.dirty
       else FirstStart(s, [IncrFile(1)]) && s.fd == Some(IncrFile(1)) && IncrFile(1) in s.dir
  }

  ghost predicate JustOpened<D(!new)>(s: State<D>, temp: Manifest) {
    && Ready(s) && s.child.None? && s.buf == [] && temp == NewIncr(s.mem)
    && Last(temp.incr) in s.dir && s.dir[Last(temp.incr)] == []
  }

  ghost predicate Inv<D(!new)>(s: State<D>) {
    match s.pc
    case Down => OnDiskOk(s) && s.buf == [] && s.child.None?
    case Loaded => JustLoaded(s)
    case Based => OnDiskOk(s) && FirstStart(s, [])
    case Reopened => JustReopened(s)
    case Idle => Ready(s)
    case Opened(temp) => JustOpened(s, temp)
    case Renamed(temp) => Ready(s) && NewBaseReady(s, temp)
    case Unwinding(temp) => Ready(s) && NewBaseReady(s, temp)
    case Deleting => Ready(s)
  }

  // ----- Preservation ------------------------------------------------------------------

  /** Files outside the live ones may change freely. */
  lemma RecoverFrame<D>(s: State<D>, s': State<D>)
    requires s'.disk == s.disk && s'.zero == s.zero && s'.torn == s.torn
    requires s.disk.Some? ==> forall n :: n in Live(s.disk.value) ==>
      (n in s.dir <==> n in s'.dir) && (n in s.dir ==> s.dir[n] == s'.dir[n])
    ensures RecoverWhole(s') == RecoverWhole(s)
  {
    assert LiveOnDisk(s) == LiveOnDisk(s');
    if s.disk.Some? { ReplayFilesAgree(s.dir, s'.dir, s.zero, Live(s.disk.value)); }
  }

  lemma LiveNames(m: Manifest, n: FileName)
    requires WellFormed(m) && n in Live(m)
    ensures n == m.base.value || n in m.incr
    ensures n.IncrFile? ==> m.incr[0].n <= n.n <= Last(m.incr).n
    ensures n.BaseFile? ==> n == m.base.value
  {
    if n.IncrFile? {
      var i :| 0 <= i < |m.incr| && m.incr[i] == n;
    }
  }

  lemma LiveExists<D>(s: State<D>, n: FileName)
    requires s.disk.Some? && RecoverWhole(s).Some? && n in Live(s.disk.value)
    ensures n in s.dir
  {
    AllExist(s.dir, s.zero, Live(s.disk.value), n);
  }

  lemma {:induction false} AllExist<D>(dir: map<FileName, seq<D -> D>>, d: D, names: seq<FileName>, n: FileName)
    requires ReplayFiles(dir, d, names).Some? && n in names
    ensures n in dir
    decreases names
  {
    if n != names[0] { AllExist(dir, Replay(d, dir[names[0]]), names[1..], n); }
  }

  lemma LastIncrIsLast<D>(s: State<D>)
    requires s.disk.Some? && WellFormed(s.disk.value)
    ensures Live(s.disk.value) == Live(s.disk.value)[..|s.disk.value.incr|] + [Last(s.disk.value.incr)]
    ensures forall n :: n in Live(s.disk.value)[..|s.disk.value.incr|] ==> n != Last(s.disk.value.incr)
  {
    var m := s.disk.value;
    assert Live(m) == [m.base.value] + m.incr;
    forall n | n in Live(m)[..|m.incr|]
      ensures n != Last(m.incr)
    {
      var i :| 0 <= i < |m.incr| && Live(m)[i] == n;
      if i > 0 { assert n == m.incr[i - 1]; }
    }
  }

  /** Appending to the last file appends to the replay. */
  lemma ReplayAppendLast<D>(dir: map<FileName, seq<D -> D>>, d: D, front: seq<FileName>, last: FileName, cmds: seq<D -> D>)
    requires last !in front && last in dir && ReplayFiles(dir, d, front + [last]).Some?
    ensures ReplayFiles(Append(dir, last, cmds), d, front + [last]) == Some(Replay(ReplayFiles(dir, d, front + [last]).value, cmds))
  {
    var dir' := Append(dir, last, cmds);
    ReplayFilesConcat(dir, d, front, [last]);
    ReplayFilesConcat(dir', d, front, [last]);
    ReplayFilesAgree(dir, dir', d, front);
    var x := ReplayFiles(dir, d, front).value;
    assert [last][1..] == [];
    assert ReplayFiles(dir, x, [last]) == ReplayFiles(dir, Replay(x, dir[last]), []);
    assert ReplayFiles(dir', x, [last]) == ReplayFiles(dir', Replay(x, dir[last] + cmds), []);
    ReplayConcat(x, dir[last], cmds);
  }

  /** The last INCR is not among the other live files. */
  lemma LastNotBefore(m: Manifest)
    requires WellFormed(m)
    ensures AllButLast(Live(m)) == [m.base.value] + m.incr[..|m.incr| - 1] && Last(m.incr) !in AllButLast(Live(m))
  {
    assert Live(m) == [m.base.value] + m.incr;
  }

  /** A file torn at its end is recovered as if it were whole. */
  lemma TornRecovers<D>(s: State<D>)
    requires s.disk.Some? && WellFormed(s.disk.value) && (s.torn.Some? ==> s.torn.value == Last(s.disk.value.incr))
    ensures RecoverWhole(s) == ReplayFiles(s.dir, s.zero, Live(s.disk.value))
  {
    LastNotBefore(s.disk.value);
  }

  lemma FlushRecovers<D(!new)>(s: State<D>, count: nat)
    requires Ready(s) && count <= |s.buf|
    ensures OnDiskOk(Flushed(s, count))
  {
    var m := s.disk.value;
    var last := Last(m.incr);
    LastIncrIsLast(s);
    assert last in Live(m);
    LiveExists(s, last);
    ReplayAppendLast(s.dir, s.zero, Live(m)[..|m.incr|], last, s.buf[..count]);
  }

  lemma FlushKeeps<D(!new)>(s: State<D>, count: nat)
    requires Ready(s) && count <= |s.buf|
    ensures Ready(Flushed(s, count))
  {
    FlushRecovers(s, count);
    FlushData(s, count);
    if s.child.Some? { FlushChild(s, count); }
  }

  lemma FlushData<D(!new)>(s: State<D>, count: nat)
    requires s.fd.Some? && count <= |s.buf| && s.data == Replay(s.flushed, s.buf)
    ensures s.data == Replay(Flushed(s, count).flushed, Flushed(s, count).buf)
  {
    assert s.buf == s.buf[..count] + s.buf[count..];
    ReplayConcat(s.flushed, s.buf[..count], s.buf[count..]);
  }

  lemma FlushChild<D(!new)>(s: State<D>, count: nat)
    requires s.child.Some? && s.mem.incr != [] && ChildOk(s) && s.fd == Some(Last(s.mem.incr)) && count <= |s.buf|
    ensures ChildOk(Flushed(s, count))
  {
    ReplayConcat(s.child.value.snapshot, s.dir[Last(s.mem.incr)], s.buf[..count]);
  }

  lemma TearKeeps<D(!new)>(s: State<D>, count: nat)
    requires Ready(s) && count < |s.buf|
    ensures Ready(Torn(s, count))
  {
    FlushKeeps(s, count);
    TornRecovers(Flushed(s, count));
    TornRecovers(Torn(s, count));
  }

  lemma CutOffKeeps<D(!new)>(s: State<D>)
    requires Ready(s)
    ensures Ready(WriteCutOff(s))
  {
    RecoverFrame(s, WriteCutOff(s));
  }

  lemma ExecuteKeeps<D(!new)>(s: State<D>, cmd: D -> D)
    requires Ready(s)
    ensures Ready(Executed(s, cmd))
  {
    ReplayConcat(s.flushed, s.buf, [cmd]);
    assert Replay(s.data, [cmd]) == cmd(s.data) by { assert [cmd][1..] == []; }
    RecoverFrame(s, Executed(s, cmd));
  }

  lemma OpenIncrKeeps<D(!new)>(s: State<D>)
    requires Ready(s) && s.child.None? && s.buf == []
    ensures JustOpened(IncrOpened(s), NewIncr(s.mem))
  {
    forall n | n in Live(s.disk.value) ensures n != Last(NewIncr(s.mem).incr) { LiveNames(s.disk.value, n); }
    RecoverFrame(s, IncrOpened(s));
  }

  /** An empty file at the end of the list replays to nothing. */
  lemma ReplayEmptyLast<D>(dir: map<FileName, seq<D -> D>>, d: D, names: seq<FileName>, name: FileName)
    requires name in dir && dir[name] == []
    ensures ReplayFiles(dir, d, names + [name]) == ReplayFiles(dir, d, names)
  {
    ReplayFilesConcat(dir, d, names, [name]);
    var r := ReplayFiles(dir, d, names);
    if r.Some? {
      assert [name][1..] == [];
      assert ReplayFiles(dir, r.value, [name]) == ReplayFiles(dir, Replay(r.value, []), []);
    }
  }

  lemma NewIncrCounted(m: Manifest)
    requires Counted(m)
    ensures Counted(NewIncr(m)) && Live(NewIncr(m)) == Live(m) + [Last(NewIncr(m).incr)]
  {
    var temp := NewIncr(m);
    forall h | h in temp.history ensures Older(h, temp) { assert Older(h, m); }
  }

  lemma CountedAfterPersist(m: Manifest)
    requires Counted(m)
    ensures Counted(AfterPersist(m)) && Adopted(AfterPersist(m), m)
  {
    var p := AfterPersist(m);
    forall h | h in p.history ensures Older(h, p) { assert Older(h, m); }
  }

  lemma PersistIncrKeeps<D(!new)>(s: State<D>, temp: Manifest, forked: bool)
    requires JustOpened(s, temp)
    ensures Ready(IncrPersisted(s, temp, forked))
  {
    NewIncrCounted(s.mem);
    CountedAfterPersist(temp);
    assert Live(s.mem) == Live(s.disk.value);
    ReplayEmptyLast(s.dir, s.zero, Live(s.disk.value), Last(temp.incr));
  }

  lemma NewBaseIsNew<D(!new)>(s: State<D>, rdb: bool)
    requires Ready(s)
    ensures var temp := MarkRewritten(NewBase(s.mem, rdb), true);
      && temp.base == Some(BaseFile(s.mem.currBase + 1, rdb))
      && temp.base.value !in Live(s.disk.value)
  {
    if BaseFile(s.mem.currBase + 1, rdb) in Live(s.disk.value) {
      LiveNames(s.disk.value, BaseFile(s.mem.currBase + 1, rdb));
    }
  }

  lemma RenameBaseKeeps<D(!new)>(s: State<D>, rdb: bool)
    requires Ready(s) && s.child.Some? && s.child.value.file.Some?
    ensures var s' := BaseRenamed(s, rdb); Ready(s') && NewBaseReady(s', s'.pc.temp)
  {
    NewBaseIsNew(s, rdb);
    RecoverFrame(s, BaseRenamed(s, rdb));
  }

  lemma RewrittenCounted(m: Manifest, rdb: bool)
    requires Counted(m)
    ensures var temp := MarkRewritten(NewBase(m, rdb), true);
      Counted(temp) && Live(temp) == [BaseFile(m.currBase + 1, rdb), Last(m.incr)]
  {
    var temp := MarkRewritten(NewBase(m, rdb), true);
    forall h | h in temp.history ensures Older(h, temp) {
      if h in m.history { assert Older(h, m); }
      else if h.IncrFile? { assert h in m.incr[..|m.incr| - 1]; }
    }
  }

  /** A snapshot BASE followed by one INCR replays to the snapshot and then the INCR. */
  lemma ReplayRewritten<D(!new)>(dir: map<FileName, seq<D -> D>>, zero: D, base: FileName, last: FileName, snapshot: D)
    requires base in dir && last in dir && IsSnapshot(dir[base], snapshot)
    ensures ReplayFiles(dir, zero, [base, last]) == Some(Replay(snapshot, dir[last]))
  {
    assert [base, last][1..] == [last] && [last][1..] == [];
    assert Replay(zero, dir[base]) == snapshot by {
      assert dir[base][1..] == [];
      assert Replay(dir[base][0](zero), []) == snapshot;
    }
    assert ReplayFiles(dir, zero, [base, last]) == ReplayFiles(dir, snapshot, [last]);
    assert ReplayFiles(dir, snapshot, [last]) == ReplayFiles(dir, Replay(snapshot, dir[last]), []);
  }

  lemma PersistBaseKeeps<D(!new)>(s: State<D>, temp: Manifest, gc: bool)
    requires Ready(s) && NewBaseReady(s, temp)
    ensures Ready(BasePersisted(s, temp, gc))
  {
    var rdb :| temp == MarkRewritten(NewBase(s.mem, rdb), true);
    RewrittenCounted(s.mem, rdb);
    CountedAfterPersist(temp);
    ReplayRewritten(s.dir, s.zero, temp.base.value, Last(s.mem.incr), s.child.value.snapshot);
  }

  lemma UnlinkBaseKeeps<D(!new)>(s: State<D>, temp: Manifest)
    requires Ready(s) && NewBaseReady(s, temp)
    ensures Ready(BaseUnlinked(s, temp.base.value))
  {
    var rdb :| temp == MarkRewritten(NewBase(s.mem, rdb), true);
    NewBaseIsNew(s, rdb);
    RecoverFrame(s, BaseUnlinked(s, temp.base.value));
  }

  /** A history file is never a live one, in memory or on disk. */
  lemma HistoryNotLive<D(!new)>(s: State<D>, h: FileName)
    requires Ready(s) && h in s.mem.history
    ensures h !in Live(s.disk.value) && h !in Live(s.mem)
  {
    assert Older(h, s.disk.value) && Older(h, s.mem);
    if h in Live(s.disk.value) { LiveNames(s.disk.value, h); }
    if h in Live(s.mem) { LiveNames(s.mem, h); }
  }

  lemma UnlinkHistoryKeeps<D(!new)>(s: State<D>)
    requires Ready(s) && s.mem.history != []
    ensures Ready(HistoryUnlinked(s))
  {
    var s' := HistoryUnlinked(s);
    HistoryNotLive(s, s.mem.history[0]);
    RecoverFrame(s, s');
    assert Last(s.mem.incr) in Live(s.mem);
    forall x | x in s'.mem.history ensures Older(x, s'.mem) { assert Older(x, s.mem); }
  }

  lemma PersistHistoryKeeps<D(!new)>(s: State<D>)
    requires Ready(s)
    ensures Ready(HistoryPersisted(s))
  {
    CountedAfterPersist(s.mem);
    assert Live(s.mem) == Live(s.disk.value);
  }

  lemma FirstBaseKeeps<D(!new)>(s: State<D>, rdb: bool)
    requires JustLoaded(s) && s.mem.base.None? && s.mem.incr == []
    ensures var s' := FirstBaseWritten(s, rdb); OnDiskOk(s') && FirstStart(s', [])
  {
    RecoverFrame(s, FirstBaseWritten(s, rdb));
  }

  lemma LoadCounted(d: Manifest)
    requires WellFormed(d)
    ensures Counted(Load(Some(d))) && Adopted(Load(Some(d)), d)
  {
    var m := Load(Some(d));
    forall h | h in m.history ensures Older(h, m) { assert Older(h, d); }
  }

  lemma ReopenFirst<D(!new)>(s: State<D>)
    requires OnDiskOk(s) && FirstStart(s, [])
    ensures JustReopened(IncrReopened(s))
  {
    RecoverFrame(s, IncrReopened(s));
  }

  lemma ReopenAgain<D(!new)>(s: State<D>)
    requires JustLoaded(s) && s.disk.Some?
    ensures JustReopened(IncrReopened(s))
  {
    LoadCounted(s.disk.value);
    var last := Last(s.mem.incr);
    assert last in Live(s.disk.value);
    LiveExists(s, last);
    assert s.dir[last] + [] == s.dir[last];
    RecoverFrame(s, IncrReopened(s));
  }

  lemma PersistStartKeeps<D(!new)>(s: State<D>, gc: bool)
    requires JustReopened(s)
    ensures Ready(StartPersisted(s, gc))
  {
    if s.disk.Some? {
      CountedAfterPersist(s.mem);
      RecoverFrame(s, StartPersisted(s, gc));
    } else {
      var base, last := s.mem.base.value, IncrFile(1);
      assert Live(s.mem) == [base, last];
      ReplayRewritten(s.dir, s.zero, base, last, s.flushed);
    }
  }

  /** A failed operation, or the child's own progress, leaves the disk alone. */
  lemma QuietKeeps<D(!new)>(s: State<D>, child: Option<Child<D>>, pc: Pc)
    requires Ready(s)
    requires child.Some? ==> s.child.Some? && child.value.snapshot == s.child.value.snapshot
    requires child.Some? && child.value.file.Some? ==> IsSnapshot(child.value.file.value, child.value.snapshot)
    ensures Ready(s.(child := child, pc := pc))
  {
    RecoverFrame(s, s.(child := child, pc := pc));
  }

  lemma ChildStepKeeps<D(!new)>(s: State<D>, e: Event<D>)
    requires Inv(s) && Enabled(s, e) && (e.ChildWrites? || e.ChildFails?)
    ensures Inv(Step(s, e))
  {
    var s' := Step(s, e);
    if Ready(s) { QuietKeeps(s, s'.child, s.pc); }
  }

  lemma WriteStepKeeps<D(!new)>(s: State<D>, e: Event<D>)
    requires Inv(s) && Enabled(s, e)
    requires e.Execute? || e.Flush? || e.Tear? || e.CutOff? || e.OpenIncr? || e.PersistIncr?
    ensures Inv(Step(s, e))
  {
    match e
    case Execute(cmd) => ExecuteKeeps(s, cmd);
    case Flush(count) => FlushKeeps(s, count);
    case Tear(count) => TearKeeps(s, count);
    case CutOff => CutOffKeeps(s);
    case OpenIncr(ok) => if ok { OpenIncrKeeps(s); }
    case PersistIncr(ok, forked) =>
      if ok { PersistIncrKeeps(s, s.pc.temp, forked); } else { QuietKeeps(s, s.child, Idle); }
  }

  lemma DoneStepKeeps<D(!new)>(s: State<D>, e: Event<D>)
    requires Inv(s) && Enabled(s, e)
    requires e.RenameBase? || e.PersistBase? || e.UnlinkBase?
    ensures Inv(Step(s, e))
  {
    match e
    case RenameBase(ok, rdb) =>
      if ok { RenameBaseKeeps(s, rdb); } else { QuietKeeps(s, None, Idle); }
    case PersistBase(ok, gc) =>
      if ok { PersistBaseKeeps(s, s.pc.temp, gc); } else { QuietKeeps(s, s.child, Unwinding(s.pc.temp)); }
    case UnlinkBase => UnlinkBaseKeeps(s, s.pc.temp);
  }

  lemma DeleteStepKeeps<D(!new)>(s: State<D>, e: Event<D>)
    requires Inv(s) && Enabled(s, e)
    requires e.UnlinkHistory? || e.PersistHistory?
    ensures Inv(Step(s, e))
  {
    match e
    case UnlinkHistory => UnlinkHistoryKeeps(s);
    case PersistHistory(ok) =>
      if ok { PersistHistoryKeeps(s); } else { QuietKeeps(s, s.child, Idle); }
  }

  lemma CrashKeeps<D(!new)>(s: State<D>, e: Event<D>)
    requires Inv(s) && Enabled(s, e) && (e.Crash? || e.Restart?)
    ensures Inv(Step(s, e))
  {
    assert OnDiskOk(s);
    if e.Crash? { RecoverFrame(s, Step(s, e)); } else { RestartKeeps(s); }
  }

  /** The loader cuts a torn tail off and recovers what recovery promised. */
  lemma RestartKeeps<D(!new)>(s: State<D>)
    requires OnDiskOk(s) && s.buf == [] && s.child.None?
    ensures JustLoaded(Restarted(s, s.flushed))
  {
    var s' := Restarted(s, s.flushed);
    if s.disk.Some? {
      assert Last(s.disk.value.incr) in Live(s.disk.value);
      TornRecovers(s);
      TornRecovers(s');
    }
  }

  lemma StartStepKeeps<D(!new)>(s: State<D>, e: Event<D>)
    requires Inv(s) && Enabled(s, e)
    requires e.WriteFirstBase? || e.ReopenIncr? || e.PersistStart?
    ensures Inv(Step(s, e))
  {
    match e
    case WriteFirstBase(rdb) => FirstBaseKeeps(s, rdb);
    case ReopenIncr => if s.disk.Some? { ReopenAgain(s); } else { ReopenFirst(s); }
    case PersistStart(gc) => PersistStartKeeps(s, gc);
  }

  lemma StepKeeps<D(!new)>(s: State<D>, e: Event<D>)
    requires Inv(s) && Enabled(s, e)
    ensures Inv(Step(s, e))
  {
    if e.Execute? || e.Flush? || e.Tear? || e.CutOff? || e.OpenIncr? || e.PersistIncr? { WriteStepKeeps(s, e); }
    else if e.ChildWrites? || e.ChildFails? { ChildStepKeeps(s, e); }
    else if e.RenameBase? || e.PersistBase? || e.UnlinkBase? { DoneStepKeeps(s, e); }
    else if e.UnlinkHistory? || e.PersistHistory? { DeleteStepKeeps(s, e); }
    else if e.Crash? || e.Restart? { CrashKeeps(s, e); }
    else { StartStepKeeps(s, e); }
  }

  // ----- Runs ----------------------------------------------------------------------------

  ghost predicate IsRun<D>(s: State<D>, events: seq<Event<D>>)
    decreases events
  {
    events == [] || (Enabled(s, events[0]) && IsRun(Step(s, events[0]), events[1..]))
  }

  function Run<D>(s: State<D>, events: seq<Event<D>>): State<D>
    requires IsRun(s, events)
    decreases events
  {
    if events == [] then s else Run(Step(s, events[0]), events[1..])
  }

  lemma {:induction false} RunKeeps<D(!new)>(s: State<D>, events: seq<Event<D>>)
    requires Inv(s) && IsRun(s, events)
    ensures Inv(Run(s, events))
    decreases events
  {
    if events != [] {
      StepKeeps(s, events[0]);
      RunKeeps(Step(s, events[0]), events[1..]);
    }
  }

  /**
    Crash safety. After any run from a fresh directory, with failures, crashes and
    restarts anywhere, the files named by the manifest on disk are all there. Loading
    them gives the dataset of all flushed commands if and only if none of them has a gap,
    and fails otherwise. A running server's dataset is that of the flushed commands
    followed by what its buffer still holds.
  */
  lemma CrashSafe<D(!new)>(zero: D, events: seq<Event<D>>)
    requires IsRun(Initial(zero), events)
    ensures var s := Run(Initial(zero), events);
      && (Recover(s) == Some(s.flushed) <==> !HasGap(s))
      && (HasGap(s) ==> Recover(s) == None)
      && (s.disk.Some? ==> forall n :: n in Live(s.disk.value) ==> n in s.dir)
      && (s.pc.Idle? ==> s.data == Replay(s.flushed, s.buf))
  {
    RunKeeps(Initial(zero), events);
    var s := Run(Initial(zero), events);
    if s.disk.Some? {
      forall n | n in Live(s.disk.value) ensures n in s.dir { LiveExists(s, n); }
    }
  }

  /** Deleting history never unlinks a file that the manifest, in memory or on disk, still needs. */
  lemma DeletionSafe<D(!new)>(zero: D, events: seq<Event<D>>)
    requires IsRun(Initial(zero), events)
    ensures var s := Run(Initial(zero), events);
      Enabled(s, Event<D>.UnlinkHistory) ==>
        s.disk.Some? && s.mem.history[0] !in Live(s.disk.value) && s.mem.history[0] !in Live(s.mem)
  {
    RunKeeps(Initial(zero), events);
    var s := Run(Initial(zero), events);
    if Enabled(s, Event<D>.UnlinkHistory) { HistoryNotLive(s, s.mem.history[0]); }
  }
}
