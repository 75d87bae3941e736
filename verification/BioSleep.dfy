/**
  Who sleeps on a worker's condition variable (bio.c). The worker waits there for a job, and a
  thread that drains the worker waits there for the queue to be empty; a signal wakes one of
  them, whichever it is. What runs under the mutex is one step here.
*/
module BioSleep {

  /** A drainer is away outside `bioDrainWorker`, the worker while it processes a job. */
  datatype Thread = Away | Asleep | Woken

  /** The length of the queue, and the threads: the worker first, then those that drain it. */
  datatype State = State(queue: nat, threads: seq<Thread>)

  /** k is the thread that the signal wakes, if any sleeps. */
  datatype Event =
    | Submit(k: nat)
    | Finish(k: nat)       // the worker deletes its job, signals, and looks at the queue again
    | Check                // the worker has woken up and looks at the queue
    | Enter(i: nat)        // a drainer looks at the queue
    | Recheck(i: nat)      // ... again, having woken up
    | Spurious(i: nat)     // a thread wakes up without a signal

  predicate SomeoneSleeps(threads: seq<Thread>) { exists i :: 0 <= i < |threads| && threads[i].Asleep? }

  predicate CanWake(threads: seq<Thread>, k: nat) { SomeoneSleeps(threads) ==> k < |threads| && threads[k].Asleep? }

  function Signalled(threads: seq<Thread>, k: nat): seq<Thread> {
    if k < |threads| && threads[k].Asleep? then threads[k := Woken] else threads
  }

  predicate Enabled(s: State, e: Event) {
    && |s.threads| > 0
    && match e
       case Submit(k) => CanWake(s.threads, k)
       case Finish(k) => s.threads[0].Away? && s.queue > 0 && CanWake(s.threads, k)
       case Check => s.threads[0].Woken?
       case Enter(i) => 0 < i < |s.threads| && s.threads[i].Away?
       case Recheck(i) => 0 < i < |s.threads| && s.threads[i].Woken?
       case Spurious(i) => i < |s.threads| && s.threads[i].Asleep?
  }

  /** What the worker does once it has looked at the queue. */
  function AtLoopStart(s: State): State
    requires |s.threads| > 0
  {
    s.(threads := s.threads[0 := if s.queue == 0 then Asleep else Away])
  }

  function AtDrain(s: State, i: nat): State
    requires i < |s.threads|
  {
    s.(threads := s.threads[i := if s.queue == 0 then Away else Asleep])
  }

  function Step(s: State, e: Event): State
    requires Enabled(s, e)
  {
    match e
    case Submit(k) => State(s.queue + 1, Signalled(s.threads, k))
    case Finish(k) => AtLoopStart(State(s.queue - 1, Signalled(s.threads, k)))
    case Check => AtLoopStart(s)
    case Enter(i) => AtDrain(s, i)
    case Recheck(i) => AtDrain(s, i)
    case Spurious(i) => s.(threads := s.threads[i := Woken])
  }

  ghost predicate IsRun(s: State, run: seq<Event>, s': State)
    decreases |run|
  {
    if run == [] then s' == s else Enabled(s, run[0]) && IsRun(Step(s, run[0]), run[1..], s')
  }

  /** An empty queue, the worker at the start of its loop, and n threads that may drain it. */
  function Init(n: nat): State { State(0, [Woken] + seq(n, _ => Away)) }

  // ----- One drainer -------------------------------------------------------------------------------

  /** Nobody sleeps through what it waits for: the worker has no job, a drainer has some to wait for. */
  predicate Rightly(s: State) {
    && |s.threads| > 0
    && (s.threads[0].Asleep? ==> s.queue == 0) && (s.threads[0].Away? ==> s.queue > 0)
    && (forall i :: 0 < i < |s.threads| && s.threads[i].Asleep? ==> s.queue > 0)
  }

  lemma StepRightly(s: State, e: Event)
    requires Rightly(s) && |s.threads| <= 2 && Enabled(s, e)
    ensures Rightly(Step(s, e)) && |Step(s, e).threads| == |s.threads|
  {
    if e.Finish? && |s.threads| == 2 && s.threads[1].Asleep? { assert SomeoneSleeps(s.threads); }
    if e.Submit? && s.threads[0].Asleep? { assert SomeoneSleeps(s.threads); }
  }

  lemma {:induction false} RunRightly(s: State, run: seq<Event>, s': State)
    requires Rightly(s) && |s.threads| <= 2 && IsRun(s, run, s')
    ensures Rightly(s') && |s'.threads| == |s.threads|
    decreases |run|
  {
    if run != [] {
      StepRightly(s, run[0]);
      RunRightly(Step(s, run[0]), run[1..], s');
    }
  }

  /** With at most one thread draining, the worker never sleeps while a job is queued, and a drainer that sleeps has a
      worker that is awake. */
  lemma NeverMissed(n: nat, run: seq<Event>, s: State)
    requires n <= 1 && IsRun(Init(n), run, s)
    ensures |s.threads| == n + 1 && (s.queue > 0 ==> !s.threads[0].Asleep?)
    ensures forall i :: 0 < i <= n && s.threads[i].Asleep? ==> s.queue > 0 && !s.threads[0].Asleep?
  {
    RunRightly(Init(n), run, s);
  }

  // ----- Drains end ------------------------------------------------------------------------------------

  /** A step of the worker or of a thread that drains already. */
  predicate Inner(e: Event) { e.Finish? || e.Check? || e.Recheck? }

  function Awake(threads: seq<Thread>): nat { if threads == [] then 0 else Awake(threads[1..]) + if threads[0].Woken? then 1 else 0 }

  function Work(s: State): nat { 2 * s.queue + Awake(s.threads) }

  lemma {:induction false} AwakeUpdate(threads: seq<Thread>, i: nat, t: Thread)
    requires i < |threads|
    ensures Awake(threads[i := t]) == Awake(threads) - (if threads[i].Woken? then 1 else 0) + if t.Woken? then 1 else 0
    decreases threads
  {
    if i == 0 {
      assert threads[0 := t][1..] == threads[1..];
    } else {
      assert threads[i := t][1..] == threads[1..][i - 1 := t];
      AwakeUpdate(threads[1..], i - 1, t);
    }
  }

  /** Every inner step leaves less to do. */
  lemma InnerDecreases(s: State, e: Event)
    requires Enabled(s, e) && Inner(e)
    ensures Work(Step(s, e)) < Work(s)
  {
    match e
    case Finish(k) =>
      if k < |s.threads| { AwakeUpdate(s.threads, k, Woken); }
      AwakeUpdate(Signalled(s.threads, k), 0, AtLoopStart(State(s.queue - 1, Signalled(s.threads, k))).threads[0]);
    case Check => AwakeUpdate(s.threads, 0, AtLoopStart(s).threads[0]);
    case Recheck(i) => AwakeUpdate(s.threads, i, AtDrain(s, i).threads[i]);
  }

  lemma {:induction false} InnerBounded(s: State, run: seq<Event>, s': State)
    requires IsRun(s, run, s') && forall i :: 0 <= i < |run| ==> Inner(run[i])
    ensures |run| + Work(s') <= Work(s)
    decreases |run|
  {
    if run != [] {
      InnerDecreases(s, run[0]);
      InnerBounded(Step(s, run[0]), run[1..], s');
    }
  }

  /**
    With at most one thread draining and nothing else submitted, the worker and the drainer can only make so many
    steps, and when neither can make another the queue is empty and the drain has returned.
  */
  lemma DrainEnds(n: nat, before: seq<Event>, s: State, run: seq<Event>, s': State)
    requires n <= 1 && IsRun(Init(n), before, s) && IsRun(s, run, s') && forall i :: 0 <= i < |run| ==> Inner(run[i])
    ensures |run| <= 2 * s.queue + n + 1
    ensures (forall e :: Inner(e) ==> !Enabled(s', e)) ==>
      |s'.threads| == n + 1 && s'.queue == 0 && s'.threads[0].Asleep? && forall i :: 0 < i <= n ==> s'.threads[i].Away?
  {
    RunRightly(Init(n), before, s);
    RunRightly(s, run, s');
    InnerBounded(s, run, s');
    AwakeAtMost(s.threads);
    if forall e :: Inner(e) ==> !Enabled(s', e) { Resting(s'); }
  }

  lemma {:induction false} AwakeAtMost(threads: seq<Thread>)
    ensures Awake(threads) <= |threads|
  {
    if threads != [] { AwakeAtMost(threads[1..]); }
  }

  lemma Resting(s: State)
    requires Rightly(s) && forall e :: Inner(e) ==> !Enabled(s, e)
    ensures s.queue == 0 && s.threads[0].Asleep? && forall i :: 0 < i < |s.threads| ==> s.threads[i].Away?
  {
    assert !Enabled(s, Check);
    if s.threads[0].Away? {
      if SomeoneSleeps(s.threads) {
        var k :| 0 <= k < |s.threads| && s.threads[k].Asleep?;
        assert Enabled(s, Finish(k));
      } else {
        assert Enabled(s, Finish(0));
      }
    }
    forall i | 0 < i < |s.threads| ensures s.threads[i].Away? { assert !Enabled(s, Recheck(i)); }
  }

  // ----- Two drainers --------------------------------------------------------------------------------------

  /** A job is queued, and everyone sleeps or is away. */
  predicate Stuck(s: State) {
    && |s.threads| > 0 && s.queue > 0 && s.threads[0].Asleep? && forall i :: 0 <= i < |s.threads| ==> !s.threads[i].Woken?
  }

  lemma {:induction false} RunMore(s: State, run: seq<Event>, t: State, e: Event)
    requires IsRun(s, run, t) && Enabled(t, e)
    ensures IsRun(s, run + [e], Step(t, e))
    decreases |run|
  {
    if run == [] {
      assert run + [e] == [e] && [e][1..] == [];
    } else {
      assert (run + [e])[0] == run[0] && (run + [e])[1..] == run[1..] + [e];
      RunMore(Step(s, run[0]), run[1..], t, e);
    }
  }

  /** Two threads drain the worker; it finishes its job and wakes one of them. */
  lemma OneLeftAsleep(n: nat) returns (run: seq<Event>, s: State)
    requires n >= 2
    ensures IsRun(Init(n), run, s) && s == State(0, [Asleep, Away, Asleep] + seq(n - 2, _ => Away))
  {
    var rest := seq(n - 2, _ => Away);
    s := Init(n);
    assert s.threads == [Woken, Away, Away] + rest;
    RunMore(Init(n), [], s, Submit(0));
    s := Step(s, Submit(0));
    RunMore(Init(n), [Submit(0)], s, Check);
    run := [Submit(0)] + [Check];
    s := Step(s, Check);
    assert s == State(1, [Away, Away, Away] + rest);
    RunMore(Init(n), run, s, Enter(1));
    run, s := run + [Enter(1)], Step(s, Enter(1));
    RunMore(Init(n), run, s, Enter(2));
    run, s := run + [Enter(2)], Step(s, Enter(2));
    assert s == State(1, [Away, Asleep, Asleep] + rest);
    run, s := LastJob(n, run, s, rest);
  }

  lemma LastJob(n: nat, before: seq<Event>, t: State, rest: seq<Thread>) returns (run: seq<Event>, s: State)
    requires IsRun(Init(n), before, t) && t == State(1, [Away, Asleep, Asleep] + rest)
    ensures IsRun(Init(n), run, s) && s == State(0, [Asleep, Away, Asleep] + rest)
  {
    assert t.threads[1].Asleep?;
    RunMore(Init(n), before, t, Finish(1));
    run, s := before + [Finish(1)], Step(t, Finish(1));
    assert s == State(0, [Asleep, Woken, Asleep] + rest);
    RunMore(Init(n), run, s, Recheck(1));
    run, s := run + [Recheck(1)], Step(s, Recheck(1));
    assert s == State(0, [Asleep, Away, Asleep] + rest);
  }

  /** The other one takes the signal of the next job: it is queued and nobody will process it, until some other job is
      submitted or a thread wakes up by itself. */
  lemma TwoDrainersStick(n: nat) returns (run: seq<Event>, s: State)
    requires n >= 2
    ensures IsRun(Init(n), run, s) && Stuck(s) && forall e :: Inner(e) ==> !Enabled(s, e)
  {
    var rest := seq(n - 2, _ => Away);
    run, s := OneLeftAsleep(n);
    assert s.threads[2].Asleep?;
    RunMore(Init(n), run, s, Submit(2));
    run, s := run + [Submit(2)], Step(s, Submit(2));
    assert s == State(1, [Asleep, Away, Woken] + rest);
    RunMore(Init(n), run, s, Recheck(2));
    run, s := run + [Recheck(2)], Step(s, Recheck(2));
    assert s == State(1, [Asleep, Away, Asleep] + rest);
  }
}
