/**
  Serving the clients of ready keys, as functions on states (blocked.c,
  `handleClientsBlockedOnKey`, `unblockClientOnKey`, `moduleUnblockClientOnKey`). What the data
  set holds and what a re-run command or a module's callback does are inputs: a command that
  blocks again and a callback that does not serve its client signal no key, others may signal
  any number.
*/
module BlockedServing {
  import opened Collections
  import opened Blocked
  import opened BlockedRuns

  datatype Signalled = Signalled(k: Key, t: ObjType, deleted: bool)

  datatype Result =
    | BlocksOnKeys(b: BType, keys: seq<Key>, onNoKey: bool)
    | BlocksOther(b: BType)
    | Finishes(signals: seq<Signalled>)

  /** What a module's callback does for a client of its own. */
  datatype Reply = Serves(signals: seq<Signalled>) | Declines

  /** What one visit finds: the object at the key, and how the re-run command or the callback ends. */
  datatype Choice = Choice(obj: Option<ObjType>, result: Result, reply: Reply)

  predicate ValidResult(r: Result) {
    match r
    case BlocksOnKeys(b, _, _) => b.List? || b.ZSet? || b.Stream?
    case BlocksOther(b) => b != NotBlocked && !OnKeys(b)
    case Finishes(_) => true
  }

  function Elems(keys: seq<Key>): set<Key> { set k | k in keys }

  /** Whether a waiting client is served for the object found at its key. */
  predicate Eligible(cl: Client, obj: Option<ObjType>) {
    || (obj.Some? && (cl.btype == BlockedTypeOf(obj.value) || cl.btype.Module?))
    || cl.onNoKey
  }

  /** The client leaves the key, then every other key, and is no longer blocked. */
  function Woken(s: State, c: ClientId, k: Key): State
    requires c in s.clients && s.clients[c].btype in s.byType
  {
    Unblock(Release(s, c, {k}), c, false)
  }

  ghost function SignalAll(s: State, signals: seq<Signalled>): State
    requires WellFormed(s)
    decreases |signals|
  {
    if signals == [] then s
    else SignalAll(Signal(s, signals[0].k, signals[0].t, signals[0].deleted), signals[1..])
  }

  /** The re-run command of an unblocked client. */
  ghost function Rerun(s: State, c: ClientId, r: Result): State
    requires WellFormed(s) && c in s.clients
  {
    match r
    case BlocksOnKeys(b, keys, n) => BlockKeys(s, c, b, Elems(keys), n)
    case BlocksOther(b) => Counted(s, c, b)
    case Finishes(signals) =>
      SignalAllFrame(s, signals);
      if s.clients[c].isModule then SignalAll(s, signals) else Queued(SignalAll(s, signals), c)
  }

  /** A client blocked by a module: its callback is called unless it has been served already. */
  ghost function ModuleVisit(s: State, c: ClientId, reply: Reply): State
    requires WellFormed(s) && c in s.clients
  {
    if s.clients[c].served || reply.Declines? then s
    else
      SignalAllFrame(s, reply.signals);
      Served(SignalAll(s, reply.signals), c)
  }

  /** One visit of a waiting client. */
  ghost function Visit(s: State, k: Key, c: ClientId, ch: Choice): State
    requires Inv(s) && c in Waiters(s.blocking, k)
  {
    WaiterKnown(s, k, c);
    if !Eligible(s.clients[c], ch.obj) then s
    else if s.clients[c].btype.Module? then ModuleVisit(s, c, ch.reply)
    else Rerun(Woken(s, c, k), c, ch.result)
  }

  lemma WaiterKnown(s: State, k: Key, c: ClientId)
    requires Inv(s) && c in Waiters(s.blocking, k)
    ensures c in s.clients && k in s.clients[c].keys && s.clients[c].blocked && OnKeys(s.clients[c].btype)
  {
    assert k in KeysOf(s.clients, c);
    assert ClientOk(s.clients[c]);
  }

  // ----- What a visit changes --------------------------------------------------------------------

  lemma {:induction false} SignalAllFrame(s: State, signals: seq<Signalled>)
    requires WellFormed(s)
    ensures var s' := SignalAll(s, signals);
      s'.clients == s.clients && s'.blocking == s.blocking && s'.byType == s.byType && s'.taken == s.taken
    decreases |signals|
  {
    if signals != [] {
      SignalAllFrame(Signal(s, signals[0].k, signals[0].t, signals[0].deleted), signals[1..]);
    }
  }

  lemma {:induction false} SignalAllKeeps(s: State, signals: seq<Signalled>)
    requires Inv(s)
    ensures Inv(SignalAll(s, signals))
    decreases |signals|
  {
    if signals != [] {
      SignalKeeps(s, signals[0].k, signals[0].t, signals[0].deleted);
      SignalAllKeeps(Signal(s, signals[0].k, signals[0].t, signals[0].deleted), signals[1..]);
    }
  }

  /** The blocked clients that serving can still release. */
  ghost function Unserved(s: State): set<ClientId> { set c | c in s.clients && s.clients[c].blocked && !s.clients[c].served }

  /** Leaving one key first and then all of them is leaving all of them. */
  lemma WokenKeeps(s: State, c: ClientId, k: Key)
    requires Inv(s) && c in Waiters(s.blocking, k)
    ensures c in s.clients && s.clients[c].btype in s.byType
    ensures var s' := Woken(s, c, k);
      && Inv(s') && Unblocked(s', c)
      && Waiters(s'.blocking, k) == Without(Waiters(s.blocking, k), c)
      && Unserved(s') == Unserved(s) - {c} && s'.ready == s.ready && s'.taken == s.taken && s'.readySet == s.readySet
  {
    WaiterKnown(s, k, c);
    var r := Release(s, c, {k});
    ReleaseKeeps(s, c, {k});
    UnblockKeeps(r, c, false);
    UnlinkedWaiters(s.blocking, c, {k}, k);
    UnlinkedWaiters(r.blocking, c, r.clients[c].keys, k);
  }

  lemma RerunKeeps(s: State, c: ClientId, r: Result)
    requires Inv(s) && Unblocked(s, c) && ValidResult(r)
    ensures Inv(Rerun(s, c, r)) && Rerun(s, c, r).taken == s.taken
  {
    match r
    case BlocksOnKeys(b, keys, n) => BlockKeysKeeps(s, c, b, Elems(keys), n);
    case BlocksOther(b) => BlockKeeps(s, c, b);
    case Finishes(signals) =>
      SignalAllKeeps(s, signals);
      SignalAllFrame(s, signals);
      QueuedKeeps(SignalAll(s, signals), c);
  }

  /** The re-run command leaves every list alone, or puts the client at its end. */
  lemma RerunWaiters(s: State, c: ClientId, r: Result, k: Key)
    requires WellFormed(s) && c in s.clients
    ensures var w, w' := Waiters(s.blocking, k), Waiters(Rerun(s, c, r).blocking, k); w' == w || w' == w + [c]
  {
    if r.Finishes? { SignalAllFrame(s, r.signals); }
  }

  /** Either one client less is blocked, or no key was queued. */
  lemma RerunProgress(s: State, c: ClientId, r: Result)
    requires Inv(s) && Unblocked(s, c)
    ensures var s' := Rerun(s, c, r);
      || Unserved(s') == Unserved(s)
      || (Unserved(s') == Unserved(s) + {c} && s'.ready == s.ready)
  {
    if r.Finishes? { SignalAllFrame(s, r.signals); }
  }

  lemma ModuleFacts(s: State, c: ClientId, reply: Reply)
    requires Inv(s) && c in s.clients && s.clients[c].btype.Module? && s.clients[c].blocked
    ensures var s' := ModuleVisit(s, c, reply); Inv(s') && s'.taken == s.taken && s'.blocking == s.blocking && Progress(s, s')
  {
    if !s.clients[c].served && reply.Serves? {
      SignalAllFrame(s, reply.signals);
      SignalAllKeeps(s, reply.signals);
      ServedKeeps(SignalAll(s, reply.signals), c);
      assert Unserved(ModuleVisit(s, c, reply)) == Unserved(s) - {c} && c in Unserved(s);
    }
  }

  /** What one visit does: the state stays consistent, the visited client may go or move to the end of
      the list, and either fewer clients are blocked or no key was queued. */
  lemma VisitFacts(s: State, k: Key, c: ClientId, ch: Choice)
    requires Inv(s) && c in Waiters(s.blocking, k) && ValidResult(ch.result)
    ensures var s' := Visit(s, k, c, ch);
      && Inv(s') && s'.taken == s.taken
      && Moved(Waiters(s.blocking, k), Waiters(s'.blocking, k), c)
      && Progress(s, s')
  {
    WaiterKnown(s, k, c);
    if Eligible(s.clients[c], ch.obj) && s.clients[c].btype.Module? {
      ModuleFacts(s, c, ch.reply);
    } else if Eligible(s.clients[c], ch.obj) {
      WokenKeeps(s, c, k);
      var woken := Woken(s, c, k);
      RerunKeeps(woken, c, ch.result);
      RerunWaiters(woken, c, ch.result, k);
      RerunProgress(woken, c, ch.result);
      assert Unserved(woken) + {c} == Unserved(s);
    }
  }

  ghost predicate Moved(w: seq<ClientId>, w': seq<ClientId>, c: ClientId) {
    w' == w || w' == Without(w, c) || w' == Without(w, c) + [c]
  }

  ghost predicate Progress(s: State, s': State) {
    |Unserved(s')| < |Unserved(s)| || (|Unserved(s')| == |Unserved(s)| && s'.ready == s.ready)
  }

  // ----- A pass over a key's clients ------------------------------------------------------------------

  ghost predicate ValidChoices(choice: nat -> Choice) { forall n :: ValidResult(choice(n).result) }

  /** Visiting the clients cs, each once, in this order. */
  ghost function VisitAll(s: State, k: Key, cs: seq<ClientId>, choice: nat -> Choice, t: nat): State
    requires Inv(s) && ValidChoices(choice) && NoDup(cs) && forall c :: c in cs ==> c in Waiters(s.blocking, k)
    decreases |cs|
  {
    if cs == [] then s
    else
      VisitOne(s, k, cs, choice(t));
      VisitAll(Visit(s, k, cs[0], choice(t)), k, cs[1..], choice, t + 1)
  }

  lemma VisitOne(s: State, k: Key, cs: seq<ClientId>, ch: Choice)
    requires Inv(s) && ValidResult(ch.result) && cs != [] && NoDup(cs) && forall c :: c in cs ==> c in Waiters(s.blocking, k)
    ensures cs[0] in Waiters(s.blocking, k) && var s' := Visit(s, k, cs[0], ch);
      Inv(s') && NoDup(cs[1..]) && forall c :: c in cs[1..] ==> c in Waiters(s'.blocking, k)
  {
    VisitFacts(s, k, cs[0], ch);
    assert NoDup(Waiters(s.blocking, k));
    WithoutIs(Waiters(s.blocking, k), cs[0]);
    assert cs == [cs[0]] + cs[1..];
  }
}
