/**
  Runs of the blocking machinery: signalling a key (blocked.c, `signalKeyAsReadyLogic`),
  every other operation as an event, and the invariant in every reachable state.
*/
module BlockedRuns {
  import opened Collections
  import opened Blocked

  datatype ObjType = StringObj | ListObj | SetObj | ZSetObj | HashObj | ModuleObj | StreamObj

  function BlockedTypeOf(t: ObjType): BType {
    match t
    case ListObj => List
    case ZSetObj => ZSet
    case ModuleObj => BType.Module
    case StreamObj => Stream
    case _ => NotBlocked
  }

  /** `signalKeyAsReadyLogic`, with its quick returns. */
  function Signal(s: State, k: Key, t: ObjType, deleted: bool): State
    requires forall b: BType :: b in s.byType
  {
    var b := BlockedTypeOf(t);
    if b == NotBlocked then s
    else if s.byType[b] == 0 && s.byType[BType.Module] == 0 then s
    else if deleted && k !in s.noKey then s
    else if !deleted && k !in s.blocking then s
    else if k in s.readySet then s
    else s.(ready := s.ready + [k], readySet := s.readySet + {k})
  }

  lemma SignalKeeps(s: State, k: Key, t: ObjType, deleted: bool)
    requires Inv(s)
    ensures Inv(Signal(s, k, t, deleted))
  {
    var s' := Signal(s, k, t, deleted);
    if s' != s {
      AppendNoDup(s.taken + s.ready, k);
      assert s'.taken + s'.ready == s.taken + s.ready + [k];
    }
  }

  /** A key somebody wants to see deleted is a key somebody waits on. */
  lemma WakeOnDeleteIsBlocking(s: State, k: Key)
    requires Inv(s)
    ensures k in s.noKey <==> exists c :: c in Waiters(s.blocking, k) && Wants(s.clients, c)
    ensures k in s.noKey ==> k in s.blocking
  {
    assert NoKeyAt(s.noKey, k) == NoKeyWaiters(s.clients, Waiters(s.blocking, k));
    SomeWants(s.clients, Waiters(s.blocking, k));
  }

  lemma {:induction false} SomeWants(clients: map<ClientId, Client>, l: seq<ClientId>)
    ensures NoKeyWaiters(clients, l) > 0 <==> exists c :: c in l && Wants(clients, c)
  {
    if l != [] {
      SomeWants(clients, l[1..]);
      assert l == [l[0]] + l[1..];
    }
  }

  /** Some client is blocked on type b exactly when the counter is not zero. */
  lemma CounterMeans(s: State, b: BType)
    requires Inv(s) && b != NotBlocked
    ensures s.byType[b] != 0 <==> exists c :: c in s.clients && s.clients[c].btype == b
  {
    if c :| c in s.clients && s.clients[c].btype == b {
      assert c in BlockedOf(s.clients, b);
    } else {
      assert BlockedOf(s.clients, b) == {};
    }
  }

  /** Clients blocked with b can be waiting for an object of type t; those of modules for any type one can wait for. */
  predicate WaitsFor(b: BType, t: ObjType) {
    || (b == List && t == ListObj) || (b == ZSet && t == ZSetObj) || (b == Stream && t == StreamObj)
    || (b == BType.Module && (t == ListObj || t == ZSetObj || t == StreamObj || t == ModuleObj))
  }

  ghost predicate SomeoneWaitsFor(s: State, t: ObjType) { exists c :: c in s.clients && WaitsFor(s.clients[c].btype, t) }

  ghost predicate SomeoneWaits(s: State, k: Key, deleted: bool) {
    exists c :: c in Waiters(s.blocking, k) && (deleted ==> Wants(s.clients, c))
  }

  /** The quick returns leave out exactly the signals nobody can be waiting for. */
  lemma SignalExact(s: State, k: Key, t: ObjType, deleted: bool)
    requires Inv(s)
    ensures k in Signal(s, k, t, deleted).readySet <==> k in s.readySet || (SomeoneWaitsFor(s, t) && SomeoneWaits(s, k, deleted))
    ensures var s' := Signal(s, k, t, deleted); s' == s || s' == s.(ready := s.ready + [k], readySet := s.readySet + {k})
  {
    WakeOnDeleteIsBlocking(s, k);
    if BlockedTypeOf(t) != NotBlocked {
      CounterMeans(s, BlockedTypeOf(t));
      CounterMeans(s, BType.Module);
    }
    assert k in s.blocking <==> SomeoneWaits(s, k, false) by {
      if k in s.blocking { assert s.blocking[k][0] in Waiters(s.blocking, k); }
    }
  }

  lemma {:induction false} OnceEach(q: seq<Key>, k: Key)
    requires NoDup(q) && k in q
    ensures multiset(q)[k] == 1
  {
    assert q == [q[0]] + q[1..];
    if q[0] == k {
      assert k !in q[1..];
      assert k !in multiset(q[1..]);
    } else {
      OnceEach(q[1..], k);
    }
  }

  /** No lost wake-up: a signal a blocked client waits for leaves its key queued, once. */
  lemma NoLostWakeup(s: State, c: ClientId, k: Key, t: ObjType, deleted: bool)
    requires Inv(s) && c in s.clients && k in s.clients[c].keys
    requires WaitsFor(s.clients[c].btype, t)
    requires deleted ==> s.clients[c].onNoKey
    ensures var s' := Signal(s, k, t, deleted); multiset(s'.taken + s'.ready)[k] == 1 && k in s'.readySet
  {
    var s' := Signal(s, k, t, deleted);
    assert k in KeysOf(s.clients, c);
    assert c in Waiters(s.blocking, k);
    SignalExact(s, k, t, deleted);
    SignalKeeps(s, k, t, deleted);
    OnceEach(s'.taken + s'.ready, k);
  }

  // ----- Runs --------------------------------------------------------------------------------

  datatype Event =
    | Connect(c: ClientId, isModule: bool)
    | BlockOnKeys(c: ClientId, b: BType, ks: set<Key>, onNoKey: bool)
    | BlockOther(c: ClientId, b: BType)
    | ReleaseKey(c: ClientId, k: Key)            // first half of `unblockClientOnKey`
    | UnblockClient(c: ClientId, queue: bool)
    | ModuleServes(c: ClientId)
    | Free(c: ClientId)
    | Enqueue(c: ClientId)
    | Dequeue
    | SignalKey(k: Key, t: ObjType, deleted: bool)
    | TakeReady                                  // the handler swaps the ready list
    | BeginKey                                   // the handler starts on a key

  function Fresh(isModule: bool): Client { Client(false, NotBlocked, {}, false, false, isModule, false) }

  function Init(): State {
    State(map[], map[], map[], 0, map b: BType | b in AllTypes() :: 0, [], [], [], {})
  }

  function AllTypes(): set<BType> {
    {NotBlocked, List, ZSet, Stream, BType.Module, Wait, WaitAof, Postpone, Shutdown}
  }

  predicate Unblocked(s: State, c: ClientId) { c in s.clients && !s.clients[c].blocked }

  predicate Enabled(s: State, e: Event) {
    match e
    case Connect(c, _) => c !in s.clients
    case BlockOnKeys(c, b, _, _) => Unblocked(s, c) && OnKeys(b)
    case BlockOther(c, b) => Unblocked(s, c) && b != NotBlocked
    case ReleaseKey(c, k) => c in s.clients && k in s.clients[c].keys
    case UnblockClient(c, _) => c in s.clients && s.clients[c].blocked
    case ModuleServes(c) => c in s.clients && s.clients[c].btype.Module?
    case Free(c) => c in s.clients
    case Enqueue(c) => c in s.clients
    case Dequeue => s.unblocked != [] && s.unblocked[0] in s.clients
    case SignalKey(_, _, _) => true
    case TakeReady => s.taken == []
    case BeginKey => s.taken != []
  }

  ghost predicate WellFormed(s: State) { forall b: BType :: b in s.byType }

  ghost function Step(s: State, e: Event): State
    requires WellFormed(s) && Enabled(s, e)
  {
    match e
    case Connect(c, m) => s.(clients := s.clients[c := Fresh(m)])
    case BlockOnKeys(c, b, ks, n) => BlockKeys(s, c, b, ks, n)
    case BlockOther(c, b) => Counted(s, c, b)
    case ReleaseKey(c, k) => Release(s, c, {k})
    case UnblockClient(c, queue) => Unblock(s, c, queue)
    case ModuleServes(c) => Served(s, c)
    case Free(c) => Freed(s, c)
    case Enqueue(c) => Queued(s, c)
    case Dequeue => Dequeued(s)
    case SignalKey(k, t, d) => Signal(s, k, t, d)
    case TakeReady => s.(taken := s.ready, ready := [])
    case BeginKey => s.(taken := s.taken[1..], readySet := s.readySet - {s.taken[0]})
  }

  lemma HeadKnown(s: State)
    requires Inv(s) && s.unblocked != []
    ensures s.unblocked[0] in s.clients
  {
    assert IsQueued(s.clients, s.unblocked[0]);
  }

  lemma ConnectKeeps(s: State, c: ClientId, isModule: bool)
    requires Inv(s) && c !in s.clients
    ensures Inv(s.(clients := s.clients[c := Fresh(isModule)]))
  {
    var clients := s.clients[c := Fresh(isModule)];
    IndexFrame(s.noKey, s.blocking, s.clients, clients);
    assert CountedOf(clients) == CountedOf(s.clients);
    forall b: BType | b != NotBlocked ensures BlockedOf(clients, b) == BlockedOf(s.clients, b) {}
    assert forall x :: IsQueued(clients, x) == IsQueued(s.clients, x);
  }

  lemma TakeKeeps(s: State)
    requires Inv(s) && s.taken == []
    ensures Inv(s.(taken := s.ready, ready := []))
  {
    assert s.taken + s.ready == s.ready + [];
  }

  lemma ReadyTail(q: seq<Key>, readySet: set<Key>)
    requires ReadyOk(q, readySet) && q != []
    ensures ReadyOk(q[1..], readySet - {q[0]})
  {
    assert q == [q[0]] + q[1..];
  }

  lemma BeginKeeps(s: State)
    requires Inv(s) && s.taken != []
    ensures Inv(s.(taken := s.taken[1..], readySet := s.readySet - {s.taken[0]}))
  {
    ReadyTail(s.taken + s.ready, s.readySet);
    assert (s.taken + s.ready)[1..] == s.taken[1..] + s.ready;
  }

  lemma StepKeeps(s: State, e: Event)
    requires Inv(s) && Enabled(s, e)
    ensures Inv(Step(s, e))
  {
    match e
    case Connect(c, m) => ConnectKeeps(s, c, m);
    case BlockOnKeys(c, b, ks, n) => BlockKeysKeeps(s, c, b, ks, n);
    case BlockOther(c, b) => BlockKeeps(s, c, b);
    case ReleaseKey(c, k) => ReleaseKeeps(s, c, {k});
    case UnblockClient(c, queue) => UnblockKeeps(s, c, queue);
    case ModuleServes(c) => ServedKeeps(s, c);
    case Free(c) => FreedKeeps(s, c);
    case Enqueue(c) => QueuedKeeps(s, c);
    case Dequeue => DequeuedKeeps(s);
    case SignalKey(k, t, d) => SignalKeeps(s, k, t, d);
    case TakeReady => TakeKeeps(s);
    case BeginKey => BeginKeeps(s);
  }

  /** s' is reached from s by the events of run, each enabled when it happens. */
  ghost predicate IsRun(s: State, run: seq<Event>, s': State)
    decreases |run|
  {
    if run == [] then s' == s
    else WellFormed(s) && Enabled(s, run[0]) && IsRun(Step(s, run[0]), run[1..], s')
  }

  lemma InitOk()
    ensures Inv(Init())
  {
    assert CountedOf(Init().clients) == {};
    forall b: BType ensures b in AllTypes() && BlockedOf(Init().clients, b) == {} {
      match b case NotBlocked => case _ =>
    }
  }

  lemma {:induction false} RunKeeps(s: State, run: seq<Event>, s': State)
    requires Inv(s) && IsRun(s, run, s')
    ensures Inv(s')
    decreases |run|
  {
    if run != [] {
      StepKeeps(s, run[0]);
      RunKeeps(Step(s, run[0]), run[1..], s');
    }
  }

  /** In every reachable state the index, the counters and the queues agree with the clients. */
  lemma ReachableIsConsistent(run: seq<Event>, s: State)
    requires IsRun(Init(), run, s)
    ensures Inv(s)
  {
    InitOk();
    RunKeeps(Init(), run, s);
  }

  // ----- First come, first served ------------------------------------------------------------------

  /** The clients in front of a in a list. */
  function Front(l: seq<ClientId>, a: ClientId): seq<ClientId> {
    if l == [] || l[0] == a then [] else [l[0]] + Front(l[1..], a)
  }

  lemma {:induction false} FrontAppend(l: seq<ClientId>, c: ClientId, a: ClientId)
    requires a in l
    ensures Front(l + [c], a) == Front(l, a)
  {
    if l[0] != a {
      assert (l + [c])[1..] == l[1..] + [c];
      FrontAppend(l[1..], c, a);
    }
  }

  lemma {:induction false} FrontWithout(l: seq<ClientId>, c: ClientId, a: ClientId)
    requires a != c
    ensures Front(Without(l, c), a) == Without(Front(l, a), c)
  {
    if l != [] && l[0] != c {
      FrontWithout(l[1..], c, a);
      assert ([l[0]] + Without(l[1..], c))[1..] == Without(l[1..], c);
    }
  }

  lemma {:induction false} WithoutLess(l: seq<ClientId>, c: ClientId)
    ensures forall x :: x in Without(l, c) ==> x in l
  {
    if l != [] && l[0] != c { WithoutLess(l[1..], c); }
  }

  /** A step leaves a key's list alone, takes one client out of it, or puts one at its end. */
  lemma StepMoves(s: State, e: Event, k: Key) returns (c: ClientId)
    requires Inv(s) && Enabled(s, e)
    ensures var w, w' := Waiters(s.blocking, k), Waiters(Step(s, e).blocking, k);
      w' == w || w' == Without(w, c) || w' == w + [c]
  {
    c := if e.BlockOnKeys? || e.ReleaseKey? || e.UnblockClient? || e.Free? then e.c else 0;
    if e.ReleaseKey? { UnlinkedWaiters(s.blocking, e.c, {e.k}, k); }
    if e.Free? && s.clients[e.c].blocked { UnlinkedWaiters(s.blocking, e.c, s.clients[e.c].keys, k); }
    if e.UnblockClient? { UnlinkedWaiters(s.blocking, e.c, s.clients[e.c].keys, k); }
  }

  /** Client a waits on key k all along a run. */
  ghost predicate Stays(s: State, run: seq<Event>, k: Key, a: ClientId)
    decreases |run|
  {
    && a in Waiters(s.blocking, k)
    && (run == [] || (WellFormed(s) && Enabled(s, run[0]) && Stays(Step(s, run[0]), run[1..], k, a)))
  }

  lemma StepFront(s: State, e: Event, k: Key, a: ClientId)
    requires Inv(s) && Enabled(s, e) && a in Waiters(s.blocking, k) && a in Waiters(Step(s, e).blocking, k)
    ensures forall b :: b in Front(Waiters(Step(s, e).blocking, k), a) ==> b in Front(Waiters(s.blocking, k), a)
  {
    var c := StepMoves(s, e, k);
    var w := Waiters(s.blocking, k);
    FrontAppend(w, c, a);
    if c != a {
      FrontWithout(w, c, a);
      WithoutLess(Front(w, a), c);
    } else {
      WithoutIs(w, c);
    }
  }

  /** Nobody overtakes a waiting client: whoever is in front of it at the end of a run was there at the start. */
  lemma {:induction false} NeverOvertaken(s: State, run: seq<Event>, s': State, k: Key, a: ClientId)
    requires Inv(s) && IsRun(s, run, s') && Stays(s, run, k, a)
    ensures forall b :: b in Front(Waiters(s'.blocking, k), a) ==> b in Front(Waiters(s.blocking, k), a)
    decreases |run|
  {
    if run != [] {
      StepKeeps(s, run[0]);
      StepFront(s, run[0], k, a);
      NeverOvertaken(Step(s, run[0]), run[1..], s', k, a);
    }
  }
}
