/**
  What serving a ready key (blocked.c, `handleClientsBlockedOnKey`) means for each client that waits on
  it, said of the client's own record and of the object found at the key.
*/
module BlockedOutcome {
  import opened Collections
  import opened Blocked
  import opened BlockedRuns
  import opened BlockedServing

  /** The object is of the type the client waits for. */
  predicate Fits(b: BType, obj: Option<ObjType>) {
    || (b == List && obj == Some(ListObj))
    || (b == ZSet && obj == Some(ZSetObj))
    || (b == Stream && obj == Some(StreamObj))
  }

  /** The client's command is run again, and ends. */
  predicate Released(cl: Client, ch: Choice) {
    cl.btype != BType.Module && (Fits(cl.btype, ch.obj) || cl.onNoKey) && ch.result.Finishes?
  }

  /** The client after its command was run again. */
  ghost predicate RanAgain(cl: Client, r: Result, cl': Client) {
    match r
    case Finishes(_) =>
      !cl'.blocked && cl'.btype == NotBlocked && cl'.keys == {} && !cl'.onNoKey && cl'.queued == (cl.queued || !cl.isModule)
    case BlocksOnKeys(b, keys, onNoKey) =>
      cl'.blocked && cl'.btype == b && (forall k :: k in cl'.keys <==> k in keys) && cl'.onNoKey == onNoKey && cl'.queued == cl.queued
    case BlocksOther(b) =>
      cl'.blocked && cl'.btype == b && cl'.keys == {} && !cl'.onNoKey && cl'.queued == cl.queued
  }

  /**
    A client blocked for a list, a sorted set or a stream is unblocked and its command run again if its key holds an
    object of that type, or if it wants to know of the deletion. For a module's client the callback is called if there
    is an object of any type, or if the client wants to know, and it has not been served yet. Otherwise nothing happens.
  */
  ghost predicate Outcome(cl: Client, ch: Choice, cl': Client) {
    && cl'.isModule == cl.isModule
    && if cl.btype != BType.Module && (Fits(cl.btype, ch.obj) || cl.onNoKey) then RanAgain(cl, ch.result, cl')
       else if cl.btype == BType.Module && (ch.obj.Some? || cl.onNoKey) && !cl.served && ch.reply.Serves? then cl' == cl.(served := true)
       else cl' == cl
  }

  /** Nothing is done for the client. */
  predicate PassedOver(cl: Client, ch: Choice) {
    if cl.btype == BType.Module then (ch.obj.None? && !cl.onNoKey) || cl.served || ch.reply.Declines?
    else !Fits(cl.btype, ch.obj) && !cl.onNoKey
  }

  /** No other client's record changes. */
  ghost predicate OthersSame(before: map<ClientId, Client>, after: map<ClientId, Client>, c: ClientId) {
    after.Keys == before.Keys && forall d :: d in before && d != c ==> after[d] == before[d]
  }

  lemma EligibleIs(cl: Client, obj: Option<ObjType>)
    requires OnKeys(cl.btype)
    ensures Eligible(cl, obj) <==> Fits(cl.btype, obj) || (cl.btype == BType.Module && obj.Some?) || cl.onNoKey
  {}

  lemma WokenClient(s: State, c: ClientId, k: Key)
    requires Inv(s) && c in Waiters(s.blocking, k)
    ensures c in s.clients && s.clients[c].btype in s.byType && var s' := Woken(s, c, k);
      && OthersSame(s.clients, s'.clients, c)
      && s'.clients[c] == s.clients[c].(blocked := false, btype := NotBlocked, keys := {}, onNoKey := false, served := false)
  {
    WaiterKnown(s, k, c);
  }

  lemma RerunClient(s: State, c: ClientId, r: Result)
    requires WellFormed(s) && c in s.clients
    requires !s.clients[c].blocked && s.clients[c].btype == NotBlocked && s.clients[c].keys == {} && !s.clients[c].onNoKey
    ensures var s' := Rerun(s, c, r);
      OthersSame(s.clients, s'.clients, c) && RanAgain(s.clients[c], r, s'.clients[c]) && s'.clients[c].isModule == s.clients[c].isModule
  {
    if r.Finishes? { SignalAllFrame(s, r.signals); }
  }

  lemma UnblockedAnswers(s: State, k: Key, c: ClientId, r: Result)
    requires Inv(s) && c in Waiters(s.blocking, k)
    ensures c in s.clients && s.clients[c].btype in s.byType && WellFormed(Woken(s, c, k)) && c in Woken(s, c, k).clients
    ensures var s' := Rerun(Woken(s, c, k), c, r);
      OthersSame(s.clients, s'.clients, c) && RanAgain(s.clients[c], r, s'.clients[c]) && s'.clients[c].isModule == s.clients[c].isModule
  {
    WokenClient(s, c, k);
    WokenKeeps(s, c, k);
    RerunClient(Woken(s, c, k), c, r);
  }

  lemma ModuleAnswers(s: State, c: ClientId, reply: Reply)
    requires WellFormed(s) && c in s.clients
    ensures var s' := ModuleVisit(s, c, reply);
      && OthersSame(s.clients, s'.clients, c)
      && (if s.clients[c].served || reply.Declines? then s' == s else s'.clients[c] == s.clients[c].(served := true))
  {
    if reply.Serves? { SignalAllFrame(s, reply.signals); }
  }

  /** One visit. */
  lemma VisitAnswers(s: State, k: Key, c: ClientId, ch: Choice)
    requires Inv(s) && c in Waiters(s.blocking, k)
    ensures c in s.clients && var s' := Visit(s, k, c, ch);
      OthersSame(s.clients, s'.clients, c) && Outcome(s.clients[c], ch, s'.clients[c]) && (PassedOver(s.clients[c], ch) ==> s' == s)
  {
    WaiterKnown(s, k, c);
    var cl := s.clients[c];
    EligibleIs(cl, ch.obj);
    if cl.btype == BType.Module { ModuleAnswers(s, c, ch.reply); } else { UnblockedAnswers(s, k, c, ch.result); }
  }

  /** Every client visited ends as its own record and what its visit finds say; all others are as before. */
  ghost predicate Answered(before: map<ClientId, Client>, after: map<ClientId, Client>, visited: seq<ClientId>, choice: nat -> Choice, t: nat) {
    && after.Keys == before.Keys
    && (forall i :: 0 <= i < |visited| ==> visited[i] in before && Outcome(before[visited[i]], choice(t + i), after[visited[i]]))
    && (forall c :: c in before && c !in visited ==> after[c] == before[c])
  }

  lemma {:induction false} PassAnswers(s: State, k: Key, cs: seq<ClientId>, choice: nat -> Choice, t: nat)
    requires Inv(s) && ValidChoices(choice) && NoDup(cs) && forall c :: c in cs ==> c in Waiters(s.blocking, k)
    ensures Answered(s.clients, VisitAll(s, k, cs, choice, t).clients, cs, choice, t)
    decreases |cs|
  {
    if cs != [] {
      var c, rest := cs[0], cs[1..];
      VisitOne(s, k, cs, choice(t));
      VisitAnswers(s, k, c, choice(t));
      var s1 := Visit(s, k, c, choice(t));
      PassAnswers(s1, k, rest, choice, t + 1);
      AnsweredFirst(s.clients, s1.clients, VisitAll(s1, k, rest, choice, t + 1).clients, cs, choice, t);
    }
  }

  lemma AnsweredFirst(a: map<ClientId, Client>, b: map<ClientId, Client>, c: map<ClientId, Client>, cs: seq<ClientId>, choice: nat -> Choice, t: nat)
    requires cs != [] && NoDup(cs) && cs[0] in a && OthersSame(a, b, cs[0])
    requires Outcome(a[cs[0]], choice(t), b[cs[0]]) && Answered(b, c, cs[1..], choice, t + 1)
    ensures Answered(a, c, cs, choice, t)
  {
    assert cs == [cs[0]] + cs[1..] && cs[0] !in cs[1..];
    forall i | 0 <= i < |cs| ensures cs[i] in a && Outcome(a[cs[i]], choice(t + i), c[cs[i]]) {
      if i > 0 { assert cs[1..][i - 1] == cs[i] && t + i == t + 1 + (i - 1); }
    }
  }

  /** In a consistent state: a released client waits nowhere, and is queued for reprocessing unless it is a module's own. */
  lemma ReleasedMeans(before: map<ClientId, Client>, s: State, visited: seq<ClientId>, choice: nat -> Choice, t: nat, i: nat, k: Key)
    requires Inv(s) && Answered(before, s.clients, visited, choice, t) && i < |visited| && Released(before[visited[i]], choice(t + i))
    ensures var c := visited[i];
      c in s.clients && !s.clients[c].blocked && c !in Waiters(s.blocking, k) && (!s.clients[c].isModule ==> c in s.unblocked)
  {
    var c := visited[i];
    assert Outcome(before[c], choice(t + i), s.clients[c]);
    assert c in Waiters(s.blocking, k) <==> k in KeysOf(s.clients, c);
    assert c in s.unblocked <==> IsQueued(s.clients, c);
  }

  // ----- The signals of a command that finishes --------------------------------------------------------

  /** The signal is for a key somebody waits on, of a type somebody waits for. */
  ghost predicate Reaches(s: State, x: Signalled) { SomeoneWaitsFor(s, x.t) && SomeoneWaits(s, x.k, x.deleted) }

  /** All signals that reach somebody, and no others, leave their keys ready. */
  lemma {:induction false} SignalsExact(s: State, signals: seq<Signalled>, k: Key)
    requires Inv(s)
    ensures k in SignalAll(s, signals).readySet <==>
            k in s.readySet || exists i :: 0 <= i < |signals| && signals[i].k == k && Reaches(s, signals[i])
    decreases |signals|
  {
    if signals != [] {
      var x, rest := signals[0], signals[1..];
      var s1 := Signal(s, x.k, x.t, x.deleted);
      SignalKeeps(s, x.k, x.t, x.deleted);
      SignalExact(s, x.k, x.t, x.deleted);
      SignalsExact(s1, rest, k);
      forall y ensures Reaches(s1, y) <==> Reaches(s, y) {}
      assert signals == [x] + rest;
    }
  }

  // ----- Serving all ready keys ----------------------------------------------------------------------------

  /** When the handler's list is empty it takes the server's. */
  function Swapped(s: State): State { if s.taken == [] then s.(taken := s.ready, ready := []) else s }

  function Begun(s: State): State
    requires s.taken != []
  {
    s.(taken := s.taken[1..], readySet := s.readySet - {s.taken[0]})
  }

  /** One key is served: every client that waits on it then is visited, in order. */
  ghost predicate ServesKey(s: State, k: Key, choice: nat -> Choice, t: nat, s': State, t': nat) {
    && Inv(s) && ValidChoices(choice) && Swapped(s).taken != [] && k == Swapped(s).taken[0]
    && var b := Begun(Swapped(s));
       var w := Waiters(b.blocking, k);
       Inv(b) && NoDup(w) && s' == VisitAll(b, k, w, choice, t) && t' == t + |w|
  }

  type KeyStep = (State, Key, nat -> Choice, nat, State, nat) -> bool

  /** One step for each key of ks. */
  ghost predicate Chain(step: KeyStep, s: State, ks: seq<Key>, choice: nat -> Choice, t: nat, s': State, t': nat)
    decreases |ks|
  {
    if ks == [] then s' == s && t' == t
    else exists s1, t1 :: step(s, ks[0], choice, t, s1, t1) && Chain(step, s1, ks[1..], choice, t1, s', t')
  }

  /** The keys ks are served, one after the other. */
  ghost predicate ServesKeys(s: State, ks: seq<Key>, choice: nat -> Choice, t: nat, s': State, t': nat) {
    Chain(ServesKey, s, ks, choice, t, s', t')
  }

  lemma {:induction false} ChainMore(step: KeyStep, s: State, ks: seq<Key>, choice: nat -> Choice, t: nat, s1: State, t1: nat,
                                     more: seq<Key>, s2: State, t2: nat)
    requires Chain(step, s, ks, choice, t, s1, t1) && Chain(step, s1, more, choice, t1, s2, t2)
    ensures Chain(step, s, ks + more, choice, t, s2, t2)
    decreases |ks|
  {
    if ks == [] {
      assert ks + more == more;
    } else {
      var s', t' :| step(s, ks[0], choice, t, s', t') && Chain(step, s', ks[1..], choice, t', s1, t1);
      ChainMore(step, s', ks[1..], choice, t', s1, t1, more, s2, t2);
      assert (ks + more)[0] == ks[0] && (ks + more)[1..] == ks[1..] + more;
    }
  }

  lemma ChainLast(step: KeyStep, s: State, ks: seq<Key>, choice: nat -> Choice, t: nat, s1: State, t1: nat, k: Key, s2: State, t2: nat)
    requires Chain(step, s, ks, choice, t, s1, t1) && step(s1, k, choice, t1, s2, t2)
    ensures Chain(step, s, ks + [k], choice, t, s2, t2)
  {
    assert [k][1..] == [] && Chain(step, s2, [], choice, t2, s2, t2);
    ChainMore(step, s, ks, choice, t, s1, t1, [k], s2, t2);
  }

  /** Taking the list first makes no difference. */
  lemma ServesSwapped(s: State, ks: seq<Key>, choice: nat -> Choice, t: nat, s': State, t': nat)
    requires Inv(s) && ks != [] && ServesKeys(Swapped(s), ks, choice, t, s', t')
    ensures ServesKeys(s, ks, choice, t, s', t')
  {
    var s1, t1 :| ServesKey(Swapped(s), ks[0], choice, t, s1, t1) && ServesKeys(s1, ks[1..], choice, t1, s', t');
    assert ServesKey(s, ks[0], choice, t, s1, t1);
  }

  // No visit takes a key off the lists.

  lemma {:induction false} SignalsGrow(s: State, signals: seq<Signalled>)
    requires WellFormed(s)
    ensures s.ready <= SignalAll(s, signals).ready
    decreases |signals|
  {
    if signals != [] { SignalsGrow(Signal(s, signals[0].k, signals[0].t, signals[0].deleted), signals[1..]); }
  }

  lemma VisitGrows(s: State, k: Key, c: ClientId, ch: Choice)
    requires Inv(s) && c in Waiters(s.blocking, k) && ValidResult(ch.result)
    ensures var s' := Visit(s, k, c, ch); s.ready <= s'.ready && s'.taken == s.taken
  {
    VisitFacts(s, k, c, ch);
    WaiterKnown(s, k, c);
    WokenKeeps(s, c, k);
    if ch.reply.Serves? { SignalsGrow(s, ch.reply.signals); }
    if ch.result.Finishes? {
      SignalsGrow(Woken(s, c, k), ch.result.signals);
      SignalAllFrame(Woken(s, c, k), ch.result.signals);
    }
  }

  lemma {:induction false} PassGrows(s: State, k: Key, cs: seq<ClientId>, choice: nat -> Choice, t: nat)
    requires Inv(s) && ValidChoices(choice) && NoDup(cs) && forall c :: c in cs ==> c in Waiters(s.blocking, k)
    ensures var s' := VisitAll(s, k, cs, choice, t); s.ready <= s'.ready && s'.taken == s.taken
    decreases |cs|
  {
    if cs != [] {
      VisitOne(s, k, cs, choice(t));
      VisitGrows(s, k, cs[0], choice(t));
      PassGrows(Visit(s, k, cs[0], choice(t)), k, cs[1..], choice, t + 1);
    }
  }

  /** No ready key is forgotten: every key on either list, at the start or later, is served before both are empty. */
  lemma {:induction false} NoneForgotten(s: State, ks: seq<Key>, choice: nat -> Choice, t: nat, s': State, t': nat, k: Key)
    requires ServesKeys(s, ks, choice, t, s', t') && s'.taken == [] && s'.ready == [] && k in s.taken + s.ready
    ensures k in ks
    decreases |ks|
  {
    if ks != [] && k != ks[0] {
      var s1, t1 :| ServesKey(s, ks[0], choice, t, s1, t1) && ServesKeys(s1, ks[1..], choice, t1, s', t');
      var b := Begun(Swapped(s));
      PassGrows(b, ks[0], Waiters(b.blocking, ks[0]), choice, t);
      assert k in b.taken + b.ready;
      NoneForgotten(s1, ks[1..], choice, t1, s', t', k);
    }
  }

  // ----- What each operation leaves -------------------------------------------------------------------------

  /** A client blocks: it is the last to wait on each of the keys, and nothing else changes. */
  lemma BlockMeans(s: State, c: ClientId, b: BType, ks: set<Key>, onNoKey: bool, k: Key)
    requires Inv(s) && Unblocked(s, c) && OnKeys(b)
    ensures var s' := BlockKeys(s, c, b, ks, onNoKey);
      && s'.clients[c] == s.clients[c].(blocked := true, btype := b, keys := ks, onNoKey := onNoKey) && OthersSame(s.clients, s'.clients, c)
      && Waiters(s'.blocking, k) == (if k in ks then Waiters(s.blocking, k) + [c] else Waiters(s.blocking, k))
      && s'.unblocked == s.unblocked && s'.ready == s.ready
  {}

  /** It leaves some of its keys: nobody else is moved. */
  lemma ReleaseMeans(s: State, c: ClientId, ks: set<Key>, k: Key)
    requires Inv(s) && c in s.clients && ks <= s.clients[c].keys
    ensures var s' := Release(s, c, ks);
      && s'.clients[c] == s.clients[c].(keys := s.clients[c].keys - ks) && OthersSame(s.clients, s'.clients, c)
      && (c in Waiters(s'.blocking, k) <==> c in Waiters(s.blocking, k) && k !in ks)
      && Waiters(s'.blocking, k) == (if k in ks then Without(Waiters(s.blocking, k), c) else Waiters(s.blocking, k))
  {
    UnlinkedWaiters(s.blocking, c, ks, k);
    WithoutIs(Waiters(s.blocking, k), c);
    assert c in Waiters(s.blocking, k) <==> k in KeysOf(s.clients, c);
  }

  /** It is unblocked: it waits nowhere, and is queued for reprocessing, once, if that is asked for. */
  lemma UnblockMeans(s: State, c: ClientId, queue: bool, k: Key)
    requires Inv(s) && c in s.clients && s.clients[c].blocked
    ensures s.clients[c].btype in s.byType && var s' := Unblock(s, c, queue); var cl := s.clients[c];
      && s'.clients[c] == cl.(blocked := false, btype := NotBlocked, keys := {}, onNoKey := false, served := false, queued := cl.queued || queue)
      && OthersSame(s.clients, s'.clients, c) && c !in Waiters(s'.blocking, k)
      && s'.unblocked == s.unblocked + (if queue && !cl.queued then [c] else []) && s'.ready == s.ready
  {
    ReleaseMeans(s, c, s.clients[c].keys, k);
    assert c in Waiters(s.blocking, k) <==> k in KeysOf(s.clients, c);
  }

  /** It is freed: no trace is left of it. */
  lemma FreedMeans(s: State, c: ClientId, k: Key)
    requires Inv(s) && c in s.clients
    ensures s.clients[c].btype in s.byType && var s' := Freed(s, c);
      && s'.clients == s.clients - {c} && c !in s'.unblocked && c !in Waiters(s'.blocking, k) && s'.ready == s.ready
  {
    FreedKeeps(s, c);
    if s.clients[c].blocked { UnblockMeans(s, c, true, k); }
    var s' := Freed(s, c);
    assert c !in s'.clients;
    assert c in Waiters(s'.blocking, k) <==> k in KeysOf(s'.clients, c);
    assert c in s'.unblocked <==> IsQueued(s'.clients, c);
  }

  /** The client that has waited longest for reprocessing is taken from the queue. */
  lemma DequeuedMeans(s: State)
    requires Inv(s) && s.unblocked != []
    ensures s.unblocked[0] in s.clients && var s' := Dequeued(s); var c := s.unblocked[0];
      && s.unblocked == [c] + s'.unblocked && s'.clients[c] == s.clients[c].(queued := false) && OthersSame(s.clients, s'.clients, c)
      && s'.blocking == s.blocking && s'.ready == s.ready
  {
    HeadKnown(s);
  }
}
