/**
  Background I/O (bio.c): submitting, processing and draining jobs as a machine whose steps may
  interleave in any order. Every worker has its own queue and mutex; the counters of the job types
  of a worker are guarded by its mutex.
*/
module Bio {

  datatype JobType = CloseFile | AofFsync | CloseAof | LazyFree

  /** A job; the offset matters for the two AOF types. */
  datatype Job = Job(kind: JobType, offset: int)

  predicate IsAof(t: JobType) { t.AofFsync? || t.CloseAof? }

  /** `bio_job_to_worker`. */
  function WorkerOf(t: JobType): nat {
    match t
    case CloseFile => 0
    case AofFsync => 1
    case CloseAof => 1
    case LazyFree => 2
  }

  /** Where a worker thread is. It holds the mutex at the start of its loop and while it deletes a job. */
  datatype Pc = LoopStart | Waiting | Running(job: Job) | Performed(job: Job) | Relocked(job: Job)

  /** Who holds a mutex: nobody, the worker, or a submitter or drainer in the middle of its work. */
  datatype Holder = Free | ByWorker | Adding(job: Job) | Counting(job: Job) | Draining

  datatype Worker = Worker(
    queue: seq<Job>,             // bio_jobs
    pc: Pc,
    holder: Holder,
    counter: map<JobType, int>,  // bio_jobs_counter, for this worker's types
    submitted: seq<Job>,         // every job ever queued, in order
    completed: seq<Job>)         // every job deleted after processing, in order

  /** All workers, the published fsync offset (fsynced_reploff_pending), and the last offset submitted. */
  datatype State = State(workers: seq<Worker>, published: int, last: int)

  datatype Event =
    | SubmitLock(w: nat, job: Job)
    | SubmitAdd(w: nat)
    | SubmitDone(w: nat)
    | DrainLock(w: nat)
    | DrainWait(w: nat)
    | DrainReturn(w: nat)
    | Sleep(w: nat)
    | Wake(w: nat)
    | Take(w: nat)
    | Perform(w: nat, synced: bool)   // synced: the fsync succeeded
    | Relock(w: nat)
    | Delete(w: nat)

  // ----- Steps of one worker's queue -------------------------------------------------------------

  function Count(q: seq<Job>, t: JobType): nat { if q == [] then 0 else Count(q[1..], t) + if q[0].kind == t then 1 else 0 }

  predicate CanStep(x: Worker, e: Event) {
    match e
    case SubmitLock(_, _) => x.holder.Free?
    case SubmitAdd(_) => x.holder.Adding?
    case SubmitDone(_) => x.holder.Counting? && x.holder.job.kind in x.counter
    case DrainLock(_) => x.holder.Free?
    case DrainWait(_) => x.holder.Draining? && x.queue != []
    case DrainReturn(_) => x.holder.Draining? && x.queue == []
    case Sleep(_) => x.pc.LoopStart? && x.queue == []
    case Wake(_) => x.pc.Waiting? && x.holder.Free?
    case Take(_) => x.pc.LoopStart? && x.queue != []
    case Perform(_, _) => x.pc.Running?
    case Relock(_) => x.pc.Performed? && x.holder.Free?
    case Delete(_) => x.pc.Relocked? && x.queue != [] && x.pc.job.kind in x.counter
  }

  function Step(x: Worker, e: Event): Worker
    requires CanStep(x, e)
  {
    match e
    case SubmitLock(_, job) => x.(holder := Adding(job))
    case SubmitAdd(_) => x.(queue := x.queue + [x.holder.job], submitted := x.submitted + [x.holder.job], holder := Counting(x.holder.job))
    case SubmitDone(_) => x.(counter := x.counter[x.holder.job.kind := x.counter[x.holder.job.kind] + 1], holder := Free)
    case DrainLock(_) => x.(holder := Draining)
    case DrainWait(_) => x.(holder := Free)
    case DrainReturn(_) => x.(holder := Free)
    case Sleep(_) => x.(pc := Waiting, holder := Free)
    case Wake(_) => x.(pc := LoopStart, holder := ByWorker)
    case Take(_) => x.(pc := Running(x.queue[0]), holder := Free)
    case Perform(_, _) => x.(pc := Performed(x.pc.job))
    case Relock(_) => x.(pc := Relocked(x.pc.job), holder := ByWorker)
    case Delete(_) => x.(pc := LoopStart, queue := x.queue[1..], completed := x.completed + [x.queue[0]],
                         counter := x.counter[x.pc.job.kind := x.counter[x.pc.job.kind] - 1])
  }

  // ----- Invariant of one worker -------------------------------------------------------------------

  /** A job that was queued but not yet counted. */
  function Uncounted(x: Worker, t: JobType): nat { if x.holder.Counting? && x.holder.job.kind == t then 1 else 0 }

  /** The counter of a type is the number of its jobs queued or running. */
  ghost predicate CountersOk(x: Worker) {
    && (forall t: JobType :: t in x.counter)
    && (forall t: JobType :: x.counter[t] + Uncounted(x, t) == Count(x.queue, t))
  }

  predicate Busy(pc: Pc) { pc.Running? || pc.Performed? || pc.Relocked? }

  /** The job being processed is the head of the queue, and stays there. */
  predicate HeadOk(x: Worker) { Busy(x.pc) ==> x.queue != [] && x.queue[0] == x.pc.job }

  /** The worker's position and the mutex agree. */
  predicate MutexOk(x: Worker) { x.holder.ByWorker? <==> x.pc.LoopStart? || x.pc.Relocked? }

  /** Jobs complete in the order they were submitted. */
  predicate FifoOk(x: Worker) { x.submitted == x.completed + x.queue }

  ghost predicate WorkerInv(x: Worker) { CountersOk(x) && HeadOk(x) && MutexOk(x) && FifoOk(x) }

  lemma {:induction false} CountAppend(q: seq<Job>, j: Job, t: JobType)
    ensures Count(q + [j], t) == Count(q, t) + if j.kind == t then 1 else 0
  {
    if q == [] {
      assert q + [j] == [j] && [j][1..] == [];
    } else {
      assert (q + [j])[1..] == q[1..] + [j];
      CountAppend(q[1..], j, t);
    }
  }

  lemma AddKeeps(x: Worker, e: Event)
    requires WorkerInv(x) && CanStep(x, e) && e.SubmitAdd?
    ensures WorkerInv(Step(x, e))
  {
    var x' := Step(x, e);
    forall t: JobType ensures x'.counter[t] + Uncounted(x', t) == Count(x'.queue, t) { CountAppend(x.queue, x.holder.job, t); }
  }

  lemma DeleteKeeps(x: Worker, e: Event)
    requires WorkerInv(x) && CanStep(x, e) && e.Delete?
    ensures WorkerInv(Step(x, e))
  {
    assert x.queue == [x.queue[0]] + x.queue[1..];
  }

  lemma WorkerStepKeeps(x: Worker, e: Event)
    requires WorkerInv(x) && CanStep(x, e)
    ensures WorkerInv(Step(x, e))
  {
    if e.SubmitAdd? { AddKeeps(x, e); } else if e.Delete? { DeleteKeeps(x, e); }
  }

  // ----- The whole system --------------------------------------------------------------------------

  /** Jobs are placed by type, and AOF jobs are submitted with offsets that do not decrease. */
  predicate Enabled(s: State, e: Event, place: JobType -> nat) {
    && e.w < |s.workers| && CanStep(s.workers[e.w], e)
    && (e.SubmitLock? ==> e.w == place(e.job.kind) && (IsAof(e.job.kind) ==> e.job.offset >= s.last))
  }

  function PublishedAfter(s: State, x: Worker, e: Event): int {
    if e.Perform? && e.synced && x.pc.Running? && IsAof(x.pc.job.kind) then x.pc.job.offset else s.published
  }

  function Next(s: State, e: Event, place: JobType -> nat): State
    requires Enabled(s, e, place)
  {
    var x := s.workers[e.w];
    State(s.workers[e.w := Step(x, e)], PublishedAfter(s, x, e), if e.SubmitLock? && IsAof(e.job.kind) then e.job.offset else s.last)
  }

  /** The jobs of a worker not yet performed. */
  function ToDo(x: Worker): seq<Job> { if (x.pc.Performed? || x.pc.Relocked?) && x.queue != [] then x.queue[1..] else x.queue }

  /** The AOF offsets of q do not decrease, and none is below lo. */
  predicate Rising(q: seq<Job>, lo: int)
    decreases q
  {
    q == [] || (if IsAof(q[0].kind) then lo <= q[0].offset && Rising(q[1..], q[0].offset) else Rising(q[1..], lo))
  }

  /** The last AOF offset of q, or lo. */
  function High(q: seq<Job>, lo: int): int
    decreases q
  {
    if q == [] then lo else High(q[1..], if IsAof(q[0].kind) then q[0].offset else lo)
  }

  /** The worker of the AOF jobs has them in rising order above what is published. */
  ghost predicate OffsetsOk(x: Worker, published: int, last: int) {
    && Rising(ToDo(x), published) && High(ToDo(x), published) <= last
    && (x.holder.Adding? && IsAof(x.holder.job.kind) ==> x.holder.job.offset == last)
  }

  /** AOF jobs are only ever handed to worker a. */
  ghost predicate PlacedAt(x: Worker, w: nat, a: nat) {
    && (forall i :: 0 <= i < |x.queue| ==> IsAof(x.queue[i].kind) ==> w == a)
    && (x.holder.Adding? && IsAof(x.holder.job.kind) ==> w == a)
  }

  ghost predicate Inv(s: State, a: nat) {
    && a < |s.workers|
    && (forall w :: 0 <= w < |s.workers| ==> WorkerInv(s.workers[w]) && PlacedAt(s.workers[w], w, a))
    && OffsetsOk(s.workers[a], s.published, s.last)
  }

  lemma {:induction false} RisingLower(q: seq<Job>, lo: int, lower: int)
    requires Rising(q, lo) && lower <= lo
    ensures Rising(q, lower) && High(q, lower) <= High(q, lo)
    decreases q
  {
    if q != [] && !IsAof(q[0].kind) { RisingLower(q[1..], lo, lower); }
  }

  lemma {:induction false} RisingAppend(q: seq<Job>, lo: int, j: Job)
    requires Rising(q, lo) && (IsAof(j.kind) ==> High(q, lo) <= j.offset)
    ensures Rising(q + [j], lo) && High(q + [j], lo) == if IsAof(j.kind) then j.offset else High(q, lo)
    decreases q
  {
    if q == [] {
      assert q + [j] == [j] && [j][1..] == [];
    } else {
      assert (q + [j])[0] == q[0] && (q + [j])[1..] == q[1..] + [j];
      RisingAppend(q[1..], if IsAof(q[0].kind) then q[0].offset else lo, j);
    }
  }

  /** Adding a job at the end adds it to what is to do. */
  lemma AddToDo(x: Worker, e: Event)
    requires WorkerInv(x) && CanStep(x, e) && e.SubmitAdd?
    ensures ToDo(Step(x, e)) == ToDo(x) + [x.holder.job]
  {}

  /** What performing the head of the queue does to the offsets. */
  lemma PerformOffsets(x: Worker, e: Event, published: int, last: int)
    requires WorkerInv(x) && CanStep(x, e) && e.Perform? && OffsetsOk(x, published, last)
    ensures var p := if e.synced && IsAof(x.pc.job.kind) then x.pc.job.offset else published;
      p >= published && OffsetsOk(Step(x, e), p, last)
  {
    var x' := Step(x, e);
    assert ToDo(x) == x.queue && ToDo(x') == x.queue[1..];
    if IsAof(x.pc.job.kind) && !e.synced { RisingLower(x.queue[1..], x.pc.job.offset, published); }
  }

  lemma AddOffsets(x: Worker, e: Event, published: int, last: int)
    requires WorkerInv(x) && CanStep(x, e) && e.SubmitAdd? && OffsetsOk(x, published, last)
    ensures OffsetsOk(Step(x, e), published, last)
  {
    AddToDo(x, e);
    RisingAppend(ToDo(x), published, x.holder.job);
  }

  lemma DeleteOffsets(x: Worker, e: Event)
    requires WorkerInv(x) && CanStep(x, e) && e.Delete?
    ensures ToDo(Step(x, e)) == ToDo(x)
  {}

  /** Every other step leaves what is to do as it is. */
  lemma OtherOffsets(x: Worker, e: Event)
    requires WorkerInv(x) && CanStep(x, e) && !e.SubmitAdd? && !e.Delete? && !e.Perform?
    ensures ToDo(Step(x, e)) == ToDo(x)
  {}

  lemma WorkerOffsets(x: Worker, e: Event, published: int, last: int)
    requires WorkerInv(x) && CanStep(x, e) && OffsetsOk(x, published, last)
    requires e.SubmitLock? && IsAof(e.job.kind) ==> e.job.offset >= last
    ensures var p := if e.Perform? && e.synced && IsAof(x.pc.job.kind) then x.pc.job.offset else published;
      p >= published && OffsetsOk(Step(x, e), p, if e.SubmitLock? && IsAof(e.job.kind) then e.job.offset else last)
  {
    if e.Perform? { PerformOffsets(x, e, published, last); }
    else if e.SubmitAdd? { AddOffsets(x, e, published, last); }
    else if e.Delete? { DeleteOffsets(x, e); }
    else { OtherOffsets(x, e); }
  }

  lemma WorkerPlaced(x: Worker, e: Event, w: nat, a: nat)
    requires WorkerInv(x) && CanStep(x, e) && PlacedAt(x, w, a) && (e.SubmitLock? && IsAof(e.job.kind) ==> w == a)
    ensures PlacedAt(Step(x, e), w, a)
  {}

  /** Both AOF types have one worker. */
  predicate Together(place: JobType -> nat, a: nat) { place(AofFsync) == a && place(CloseAof) == a }

  /** Every step keeps the invariant and never moves the published offset back. */
  lemma NextKeeps(s: State, e: Event, place: JobType -> nat, a: nat)
    requires Inv(s, a) && Together(place, a) && Enabled(s, e, place)
    ensures Inv(Next(s, e, place), a) && Next(s, e, place).published >= s.published
  {
    var s', x := Next(s, e, place), s.workers[e.w];
    WorkerStepKeeps(x, e);
    WorkerPlaced(x, e, e.w, a);
    if e.w == a {
      WorkerOffsets(x, e, s.published, s.last);
    } else {
      Elsewhere(x, e, e.w, a);
    }
  }

  /** Other workers never publish, and never take AOF jobs. */
  lemma Elsewhere(x: Worker, e: Event, w: nat, a: nat)
    requires WorkerInv(x) && CanStep(x, e) && PlacedAt(x, w, a) && w != a
    ensures x.pc.Running? ==> !IsAof(x.pc.job.kind)
  {}

  // ----- Runs -------------------------------------------------------------------------------------------

  ghost predicate IsRun(s: State, run: seq<Event>, s': State, place: JobType -> nat)
    decreases |run|
  {
    if run == [] then s' == s
    else Enabled(s, run[0], place) && IsRun(Next(s, run[0], place), run[1..], s', place)
  }

  lemma {:induction false} RunKeeps(s: State, run: seq<Event>, s': State, place: JobType -> nat, a: nat)
    requires Inv(s, a) && Together(place, a) && IsRun(s, run, s', place)
    ensures Inv(s', a) && s'.published >= s.published
    decreases |run|
  {
    if run != [] {
      NextKeeps(s, run[0], place, a);
      RunKeeps(Next(s, run[0], place), run[1..], s', place, a);
    }
  }

  function Idle(): Worker { Worker([], Waiting, Free, map t: JobType | t in AllTypes() :: 0, [], []) }

  function AllTypes(): set<JobType> { {CloseFile, AofFsync, CloseAof, LazyFree} }

  /** Three idle workers, and an offset to start from. */
  function Init(offset: int): State { State([Idle(), Idle(), Idle()], offset, offset) }

  lemma InitOk(offset: int)
    ensures Inv(Init(offset), 1)
  {
    assert forall t: JobType :: t in AllTypes() by { forall t: JobType ensures t in AllTypes() { match t case CloseFile => case _ => } }
  }

  /** In every reachable state: a counter nobody is updating is the number of queued or running jobs, each
      worker has completed a prefix of its submissions, and the published offset has not gone back. */
  lemma ReachableIsSound(offset: int, run: seq<Event>, s: State, w: nat, t: JobType)
    requires IsRun(Init(offset), run, s, WorkerOf) && w < |s.workers|
    ensures var x := s.workers[w];
      && t in x.counter && (!x.holder.Counting? ==> x.counter[t] == Count(x.queue, t))
      && x.submitted == x.completed + x.queue
      && (Busy(x.pc) ==> x.queue != [] && x.pc.job == x.queue[0])
      && s.published >= offset
  {
    InitOk(offset);
    RunKeeps(Init(offset), run, s, WorkerOf, 1);
    var x := s.workers[w];
    assert WorkerInv(x);
    assert x.counter[t] + Uncounted(x, t) == Count(x.queue, t);
  }

  /** What the workers publish never decreases along a run. The main thread writes the offset itself when the file is
      switched off, under the policy always and at a first rewrite, which are not part of a run. */
  lemma PublishedRises(offset: int, before: seq<Event>, s: State, after: seq<Event>, s': State)
    requires IsRun(Init(offset), before, s, WorkerOf) && IsRun(s, after, s', WorkerOf)
    ensures s'.published >= s.published
  {
    InitOk(offset);
    RunKeeps(Init(offset), before, s, WorkerOf, 1);
    RunKeeps(s, after, s', WorkerOf, 1);
  }

  /** When a drain returns, everything submitted to that worker has been completed. */
  lemma DrainMeansDone(offset: int, run: seq<Event>, s: State, w: nat)
    requires IsRun(Init(offset), run, s, WorkerOf) && Enabled(s, DrainReturn(w), WorkerOf)
    ensures s.workers[w].completed == s.workers[w].submitted && forall t: JobType :: t in s.workers[w].counter && s.workers[w].counter[t] == 0
  {
    InitOk(offset);
    RunKeeps(Init(offset), run, s, WorkerOf, 1);
    EmptyIsDone(s.workers[w]);
  }

  lemma EmptyIsDone(x: Worker)
    requires WorkerInv(x) && x.queue == []
    ensures x.completed == x.submitted && forall t: JobType :: t in x.counter && x.counter[t] + Uncounted(x, t) == 0
  {
    assert x.completed + [] == x.completed;
    forall t: JobType ensures x.counter[t] + Uncounted(x, t) == 0 { assert x.counter[t] + Uncounted(x, t) == Count(x.queue, t); }
  }

  // ----- What is published was synced -----------------------------------------------------------------------

  /** The jobs a worker has performed. */
  function Finished(x: Worker): seq<Job> { x.completed + if x.pc.Performed? || x.pc.Relocked? then [x.pc.job] else [] }

  /** The published offset is where the system started, or that of an AOF job already performed. */
  ghost predicate Backed(s: State, offset: int) {
    s.published == offset || exists w, j :: 0 <= w < |s.workers| && j in Finished(s.workers[w]) && IsAof(j.kind) && j.offset == s.published
  }

  lemma FinishedGrows(x: Worker, e: Event)
    requires WorkerInv(x) && CanStep(x, e)
    ensures forall j :: j in Finished(x) ==> j in Finished(Step(x, e))
  {}

  lemma NextBacked(s: State, e: Event, place: JobType -> nat, a: nat, offset: int)
    requires Inv(s, a) && Enabled(s, e, place) && Backed(s, offset)
    ensures Backed(Next(s, e, place), offset)
  {
    var s', x := Next(s, e, place), s.workers[e.w];
    FinishedGrows(x, e);
    if e.Perform? && e.synced && IsAof(x.pc.job.kind) {
      assert x.pc.job in Finished(s'.workers[e.w]);
    } else if s.published != offset {
      var w, j :| 0 <= w < |s.workers| && j in Finished(s.workers[w]) && IsAof(j.kind) && j.offset == s.published;
      assert j in Finished(s'.workers[w]);
    }
  }

  lemma {:induction false} RunBacked(s: State, run: seq<Event>, s': State, place: JobType -> nat, a: nat, offset: int)
    requires Inv(s, a) && Together(place, a) && IsRun(s, run, s', place) && Backed(s, offset)
    ensures Backed(s', offset)
    decreases |run|
  {
    if run != [] {
      NextKeeps(s, run[0], place, a);
      NextBacked(s, run[0], place, a, offset);
      RunBacked(Next(s, run[0], place), run[1..], s', place, a, offset);
    }
  }

  /** Nothing is published before an AOF job with that offset was performed. */
  lemma PublishedIsDone(offset: int, run: seq<Event>, s: State)
    requires IsRun(Init(offset), run, s, WorkerOf)
    ensures Backed(s, offset)
  {
    InitOk(offset);
    RunBacked(Init(offset), run, s, WorkerOf, 1, offset);
  }

  /** The state before event i of a run. */
  ghost function Before(s: State, run: seq<Event>, i: nat, place: JobType -> nat): State
    requires i <= |run|
    decreases i
  {
    if i == 0 || !Enabled(s, run[0], place) then s else Before(Next(s, run[0], place), run[1..], i - 1, place)
  }

  /** Event i performs an AOF job, and its fsync succeeds. */
  ghost predicate SyncsAt(s: State, run: seq<Event>, i: nat, place: JobType -> nat) {
    && i < |run| && run[i].Perform? && run[i].synced
    && var workers := Before(s, run, i, place).workers;
       run[i].w < |workers| && workers[run[i].w].pc.Running? &&
       (workers[run[i].w].pc.job.kind == AofFsync || workers[run[i].w].pc.job.kind == CloseAof)
  }

  ghost function OffsetAt(s: State, run: seq<Event>, i: nat, place: JobType -> nat): int
    requires SyncsAt(s, run, i, place)
  {
    Before(s, run, i, place).workers[run[i].w].pc.job.offset
  }

  ghost predicate LastSync(s: State, run: seq<Event>, i: nat, place: JobType -> nat) {
    SyncsAt(s, run, i, place) && forall j: nat :: SyncsAt(s, run, j, place) ==> j <= i
  }

  lemma SyncsLater(s: State, run: seq<Event>, i: nat, place: JobType -> nat)
    requires run != [] && Enabled(s, run[0], place)
    ensures var next, rest := Next(s, run[0], place), run[1..];
      && (SyncsAt(s, run, i + 1, place) <==> SyncsAt(next, rest, i, place))
      && (SyncsAt(next, rest, i, place) ==> OffsetAt(s, run, i + 1, place) == OffsetAt(next, rest, i, place))
  {
    if i + 1 < |run| { assert run[i + 1] == run[1..][i]; }
  }

  lemma SyncsNow(s: State, run: seq<Event>, place: JobType -> nat)
    requires run != [] && Enabled(s, run[0], place)
    ensures Next(s, run[0], place).published == if SyncsAt(s, run, 0, place) then OffsetAt(s, run, 0, place) else s.published
  {}

  /** The published offset is that of the last AOF job of the run whose fsync succeeded, if there is one. */
  lemma {:induction false} RunPublishes(s: State, run: seq<Event>, s': State, place: JobType -> nat)
    requires IsRun(s, run, s', place)
    ensures (forall i: nat :: !SyncsAt(s, run, i, place)) ==> s'.published == s.published
    ensures forall i: nat :: LastSync(s, run, i, place) ==> s'.published == OffsetAt(s, run, i, place)
    decreases |run|
  {
    if run != [] {
      var next, rest := Next(s, run[0], place), run[1..];
      SyncsNow(s, run, place);
      forall i: nat ensures SyncsAt(s, run, i + 1, place) <==> SyncsAt(next, rest, i, place) { SyncsLater(s, run, i, place); }
      RunPublishes(next, rest, s', place);
      forall i: nat | LastSync(s, run, i, place) ensures s'.published == OffsetAt(s, run, i, place) {
        if i == 0 {
          forall j: nat ensures !SyncsAt(next, rest, j, place) { assert SyncsAt(s, run, j + 1, place) <==> SyncsAt(next, rest, j, place); }
        } else {
          SyncsLater(s, run, i - 1, place);
          forall j: nat | SyncsAt(next, rest, j, place) ensures j <= i - 1 { assert SyncsAt(s, run, j + 1, place); }
          assert LastSync(next, rest, i - 1, place);
        }
      }
      if forall i: nat :: !SyncsAt(s, run, i, place) {
        forall j: nat ensures !SyncsAt(next, rest, j, place) { assert !SyncsAt(s, run, j + 1, place); }
      }
    }
  }

  lemma {:induction false} SomeLastSync(s: State, run: seq<Event>, n: nat, place: JobType -> nat)
    requires n <= |run| && (forall j: nat :: SyncsAt(s, run, j, place) ==> j < n)
    ensures (forall i: nat :: !SyncsAt(s, run, i, place)) || exists i: nat :: LastSync(s, run, i, place)
    decreases n
  {
    if n > 0 && SyncsAt(s, run, n - 1, place) {
      assert LastSync(s, run, n - 1, place);
    } else if n > 0 {
      SomeLastSync(s, run, n - 1, place);
    }
  }

  /** Along every run nothing is published but the offset of an AOF job whose fsync succeeded, and it is the last of these. */
  lemma PublishedIsSynced(offset: int, run: seq<Event>, s: State)
    requires IsRun(Init(offset), run, s, WorkerOf)
    ensures || ((forall i: nat :: !SyncsAt(Init(offset), run, i, WorkerOf)) && s.published == offset)
            || exists i: nat :: LastSync(Init(offset), run, i, WorkerOf) && s.published == OffsetAt(Init(offset), run, i, WorkerOf)
  {
    RunPublishes(Init(offset), run, s, WorkerOf);
    SomeLastSync(Init(offset), run, |run|, WorkerOf);
  }

  // ----- Why the AOF jobs share a worker -------------------------------------------------------------------

  /** A placement that gives the closing of AOF files a worker of its own. */
  function Apart(t: JobType): nat { if t.CloseAof? then 2 else WorkerOf(t) }

  function Loaded(w: nat, j: Job): seq<Event> { [SubmitLock(w, j), SubmitAdd(w), SubmitDone(w), Wake(w), Take(w)] }

  /** With separate workers the published offset can go back: the later job may finish first. */
  lemma ApartGoesBack(offset: int)
    ensures exists run, s: State, e :: IsRun(Init(offset), run, s, Apart) && Enabled(s, e, Apart) && Next(s, e, Apart).published < s.published
  {
    var j1, j2 := Job(AofFsync, offset), Job(CloseAof, offset + 1);
    var s1 := AfterLoading(Init(offset), 1, j1);
    var s2 := AfterLoading(s1, 2, j2);
    var s3 := Next(s2, Perform(2, true), Apart);
    var run := Loaded(1, j1) + Loaded(2, j2) + [Perform(2, true)];
    RunConcat(Init(offset), Loaded(1, j1), s1, Loaded(2, j2), s2);
    RunMore(Init(offset), Loaded(1, j1) + Loaded(2, j2), s2, Perform(2, true));
    var e := Perform(1, true);
    assert IsRun(Init(offset), run, s3, Apart) && Enabled(s3, e, Apart) && Next(s3, e, Apart).published < s3.published;
  }

  lemma {:induction false} RunConcat(s: State, r1: seq<Event>, s1: State, r2: seq<Event>, s2: State)
    requires IsRun(s, r1, s1, Apart) && IsRun(s1, r2, s2, Apart)
    ensures IsRun(s, r1 + r2, s2, Apart)
    decreases |r1|
  {
    if r1 == [] {
      assert r1 + r2 == r2;
    } else {
      assert (r1 + r2)[0] == r1[0] && (r1 + r2)[1..] == r1[1..] + r2;
      RunConcat(Next(s, r1[0], Apart), r1[1..], s1, r2, s2);
    }
  }

  /** One step is a run; another step may follow. */
  lemma RunMore(s: State, r: seq<Event>, s1: State, e: Event)
    requires IsRun(s, r, s1, Apart) && Enabled(s1, e, Apart)
    ensures IsRun(s, r + [e], Next(s1, e, Apart), Apart)
  {
    assert [e][1..] == [] && IsRun(s1, [e], Next(s1, e, Apart), Apart);
    RunConcat(s, r, s1, [e], Next(s1, e, Apart));
  }

  /** An idle worker is handed a job. */
  lemma AfterSubmit(s: State, w: nat, j: Job) returns (s': State)
    requires w < |s.workers| && s.workers[w] == Idle() && Apart(j.kind) == w && j.offset >= s.last && IsAof(j.kind)
    ensures IsRun(s, [SubmitLock(w, j), SubmitAdd(w), SubmitDone(w)], s', Apart)
    ensures s'.published == s.published && s'.last == j.offset && |s'.workers| == |s.workers|
    ensures s'.workers[w].pc.Waiting? && s'.workers[w].holder.Free? && s'.workers[w].queue == [j]
    ensures forall v :: 0 <= v < |s.workers| && v != w ==> s'.workers[v] == s.workers[v]
  {
    assert j.kind in AllTypes();
    var a := Next(s, SubmitLock(w, j), Apart);
    RunMore(s, [], s, SubmitLock(w, j));
    var b := Next(a, SubmitAdd(w), Apart);
    RunMore(s, [SubmitLock(w, j)], a, SubmitAdd(w));
    s' := Next(b, SubmitDone(w), Apart);
    RunMore(s, [SubmitLock(w, j), SubmitAdd(w)], b, SubmitDone(w));
  }

  /** ... and takes it. */
  lemma AfterLoading(s: State, w: nat, j: Job) returns (s': State)
    requires w < |s.workers| && s.workers[w] == Idle() && Apart(j.kind) == w && j.offset >= s.last && IsAof(j.kind)
    ensures IsRun(s, Loaded(w, j), s', Apart) && s'.published == s.published && s'.last == j.offset && |s'.workers| == |s.workers|
    ensures s'.workers[w].pc == Running(j) && forall v :: 0 <= v < |s.workers| && v != w ==> s'.workers[v] == s.workers[v]
  {
    var c := AfterSubmit(s, w, j);
    var r := [SubmitLock(w, j), SubmitAdd(w), SubmitDone(w)];
    var d := Next(c, Wake(w), Apart);
    RunMore(s, r, c, Wake(w));
    s' := Next(d, Take(w), Apart);
    RunMore(s, r + [Wake(w)], d, Take(w));
    assert Loaded(w, j) == r + [Wake(w)] + [Take(w)];
  }
}
