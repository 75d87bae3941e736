/**
  The blocking machinery on mutable fields (blocked.c): each method performs, loop by
  loop, the operation of the same name on states. The server's own assertions are proof
  obligations here.
*/
module BlockedServer {
  import opened Collections
  import opened Blocked
  import opened BlockedRuns
  import opened BlockedServing
  import opened BlockedOutcome

  // ----- Loops over the keys of one client -----------------------------------------------------

  lemma UnlinkedIs(b: map<Key, seq<ClientId>>, c: ClientId, k: Key)
    requires k in b
    ensures Unlinked(b, c, {k}) == if Without(b[k], c) == [] then b - {k} else b[k := Without(b[k], c)]
  {}

  lemma UncountedIs(n: map<Key, nat>, b: map<Key, seq<ClientId>>, c: ClientId, k: Key, want: bool)
    requires k in b && (want && Without(b[k], c) != [] ==> k in n && n[k] > 0)
    ensures Uncounted(n, b, c, {k}, want) ==
            if Without(b[k], c) == [] then n - {k}
            else if !want then n
            else if n[k] == 1 then n - {k} else n[k := n[k] - 1]
  {}

  lemma UnlinkedMore(b: map<Key, seq<ClientId>>, c: ClientId, ks: set<Key>, k: Key)
    requires k !in ks
    ensures Unlinked(Unlinked(b, c, ks), c, {k}) == Unlinked(b, c, ks + {k})
  {}

  lemma UncountedMore(n: map<Key, nat>, b: map<Key, seq<ClientId>>, c: ClientId, ks: set<Key>, k: Key, want: bool)
    requires k !in ks
    ensures Uncounted(Uncounted(n, b, c, ks, want), Unlinked(b, c, ks), c, {k}, want) == Uncounted(n, b, c, ks + {k}, want)
  {
    UnlinkedWaiters(b, c, ks, k);
  }

  lemma UnlinkedNone(b: map<Key, seq<ClientId>>, n: map<Key, nat>, c: ClientId, want: bool)
    ensures Unlinked(b, c, {}) == b && Uncounted(n, b, c, {}, want) == n
  {}

  lemma LinkedMore(b: map<Key, seq<ClientId>>, c: ClientId, ks: set<Key>, k: Key)
    requires k !in ks
    ensures Linked(b, c, ks)[k := Waiters(Linked(b, c, ks), k) + [c]] == Linked(b, c, ks + {k})
  {}

  lemma WishedMore(n: map<Key, nat>, ks: set<Key>, k: Key)
    requires k !in ks
    ensures Wished(n, ks)[k := NoKeyAt(Wished(n, ks), k) + 1] == Wished(n, ks + {k})
  {}

  lemma LinkedNone(b: map<Key, seq<ClientId>>, n: map<Key, nat>, c: ClientId)
    ensures Linked(b, c, {}) == b && Wished(n, {}) == n
  {}

  /** The state after the loop of `blockForKeys` has linked the keys ks. */
  function LinkedState(s: State, c: ClientId, ks: set<Key>, want: bool): State
    requires c in s.clients
  {
    s.(clients := s.clients[c := s.clients[c].(keys := ks)], blocking := Linked(s.blocking, c, ks),
       noKey := if want then Wished(s.noKey, ks) else s.noKey)
  }

  function LinkedOne(s: State, c: ClientId, k: Key, want: bool): State
    requires c in s.clients
  {
    s.(clients := s.clients[c := s.clients[c].(keys := s.clients[c].keys + {k})],
       blocking := s.blocking[k := Waiters(s.blocking, k) + [c]],
       noKey := if want then s.noKey[k := NoKeyAt(s.noKey, k) + 1] else s.noKey)
  }

  lemma ElemsMore(keys: seq<Key>, j: nat)
    requires j < |keys|
    ensures Elems(keys[..j + 1]) == Elems(keys[..j]) + {keys[j]}
    ensures keys[j] in Elems(keys[..j]) ==> Elems(keys[..j]) + {keys[j]} == Elems(keys[..j])
  {
    assert keys[..j + 1] == keys[..j] + [keys[j]];
  }

  lemma LinkedStateNone(s: State, c: ClientId, want: bool)
    requires c in s.clients && s.clients[c].keys == {}
    ensures LinkedState(s, c, {}, want) == s
  {
    LinkedNone(s.blocking, s.noKey, c);
    assert s.clients[c].(keys := {}) == s.clients[c];
  }

  lemma LinkedStateMore(s: State, c: ClientId, ks: set<Key>, k: Key, want: bool)
    requires c in s.clients && k !in ks
    ensures LinkedOne(LinkedState(s, c, ks, want), c, k, want) == LinkedState(s, c, ks + {k}, want)
  {
    var l := LinkedState(s, c, ks, want);
    LinkedMore(s.blocking, c, ks, k);
    WishedMore(s.noKey, ks, k);
    assert l.clients[c].(keys := l.clients[c].keys + {k}) == s.clients[c].(keys := ks + {k});
    assert l.clients[c := s.clients[c].(keys := ks + {k})] == s.clients[c := s.clients[c].(keys := ks + {k})];
  }

  lemma LinkedThenBlocked(s: State, c: ClientId, b: BType, ks: set<Key>, want: bool)
    requires c in s.clients && b in s.byType
    ensures var l := LinkedState(s, c, ks, want);
      Counted(l.(clients := l.clients[c := l.clients[c].(onNoKey := want)]), c, b) == BlockKeys(s, c, b, ks, want)
  {}

  // ----- The iterator over a list that changes ----------------------------------------------------

  /** The client after c, which is what the node of c points to. */
  function NextOf(l: seq<ClientId>, c: ClientId): Option<ClientId> {
    if l == [] then None
    else if l[0] == c then (if |l| > 1 then Some(l[1]) else None)
    else NextOf(l[1..], c)
  }

  lemma {:induction false} NextIs(before: seq<ClientId>, c: ClientId, after: seq<ClientId>)
    requires NoDup(before + [c] + after)
    ensures NextOf(before + [c] + after, c) == if after == [] then None else Some(after[0])
    ensures Without(before + [c] + after, c) == before + after
  {
    var l := before + [c] + after;
    if before != [] {
      assert l[0] != l[|before|];
      assert l[1..] == before[1..] + [c] + after;
      NextIs(before[1..], c, after);
      assert [before[0]] + (before[1..] + after) == before + after;
    } else {
      assert l[1..] == after == before + after;
    }
  }

  lemma PrefixMore<T>(s: seq<T>, i: nat)
    requires i < |s|
    ensures s[..i + 1] == s[..i] + [s[i]]
  {}

  /** The list after a visit of c: the part before may keep c, the part after may get it back. */
  lemma MovedParts(before: seq<ClientId>, c: ClientId, rest: seq<ClientId>, back: seq<ClientId>, w': seq<ClientId>)
    returns (before': seq<ClientId>, back': seq<ClientId>)
    requires NoDup(before + [c] + (rest + back)) && Moved(before + [c] + (rest + back), w', c)
    ensures w' == before' + rest + back' && (back != [] ==> back' != [] && back'[0] == back[0])
  {
    NextIs(before, c, rest + back);
    Assoc(before, rest, back);
    if w' == before + [c] + (rest + back) {
      Assoc(before + [c], rest, back);
      before', back' := before + [c], back;
    } else if w' == before + (rest + back) {
      before', back' := before, back;
    } else {
      Assoc(before + rest, back, [c]);
      before', back' := before, back + [c];
    }
  }

  /** The shape of the list during a pass, i clients of entry having been visited: those not served stay
      in front, those that blocked again are at the end, and the iterator points to the next one. */
  ghost predicate Passing(w: seq<ClientId>, entry: seq<ClientId>, i: nat, before: seq<ClientId>, back: seq<ClientId>, next: Option<ClientId>) {
    && i <= |entry| && w == before + entry[i..] + back
    && (i < |entry| ==> next == Some(entry[i]))
    && (i == |entry| && next.Some? ==> back != [] && next.value == back[0])
  }

  lemma PassTurn(w: seq<ClientId>, w': seq<ClientId>, entry: seq<ClientId>, i: nat, before: seq<ClientId>, back: seq<ClientId>)
    returns (before': seq<ClientId>, back': seq<ClientId>)
    requires NoDup(w) && i < |entry| && w == before + entry[i..] + back && Moved(w, w', entry[i])
    ensures Passing(w', entry, i + 1, before', back', NextOf(w, entry[i]))
  {
    var rest := entry[i + 1..];
    assert entry[i..] == [entry[i]] + rest;
    Assoc(before, [entry[i]], rest);
    Assoc(before + [entry[i]], rest, back);
    NextIs(before, entry[i], rest + back);
    before', back' := MovedParts(before, entry[i], rest, back, w');
  }

  /** Visiting the clients cs from here ends in the state goal. */
  ghost predicate Visiting(s: State, k: Key, cs: seq<ClientId>, choice: nat -> Choice, t: nat, goal: State) {
    && Inv(s) && ValidChoices(choice) && NoDup(cs) && (forall c :: c in cs ==> c in Waiters(s.blocking, k))
    && VisitAll(s, k, cs, choice, t) == goal
  }

  lemma ProgressTwice(a: State, b: State, c: State)
    requires Progress(a, b) && Progress(b, c)
    ensures Progress(a, c)
  {}

  lemma VisitingTurn(s: State, k: Key, entry: seq<ClientId>, i: nat, choice: nat -> Choice, t: nat, goal: State)
    requires i < |entry| && Visiting(s, k, entry[i..], choice, t, goal)
    ensures entry[i] in Waiters(s.blocking, k) && Visiting(Visit(s, k, entry[i], choice(t)), k, entry[i + 1..], choice, t + 1, goal)
  {
    VisitOne(s, k, entry[i..], choice(t));
    assert entry[i..][0] == entry[i] && entry[i..][1..] == entry[i + 1..];
  }

  lemma WaitersNoDup(s: State, k: Key)
    requires Inv(s)
    ensures NoDup(Waiters(s.blocking, k))
  {}

  class BlockedServer {
    var clients: map<ClientId, Client>
    var blocking: map<Key, seq<ClientId>>
    var noKey: map<Key, nat>
    var blockedClients: int
    var byType: map<BType, int>
    var unblocked: seq<ClientId>
    var ready: seq<Key>
    var taken: seq<Key>
    var readySet: set<Key>

    function Now(): State
      reads this
    {
      State(clients, blocking, noKey, blockedClients, byType, unblocked, ready, taken, readySet)
    }

    constructor ()
      ensures Now() == Init() && Inv(Now())
    {
      clients, blocking, noKey, blockedClients := map[], map[], map[], 0;
      byType := map b | b in AllTypes() :: 0;
      unblocked, ready, taken, readySet := [], [], [], {};
      InitOk();
    }

    method BlockClient(c: ClientId, b: BType)
      requires c in clients && b in byType
      modifies this
      ensures Now() == old(Counted(Now(), c, b))
    {
      clients := clients[c := clients[c].(blocked := true, btype := b)];
      if !clients[c].isModule { blockedClients := blockedClients + 1; }
      byType := byType[b := byType[b] + 1];
    }

    method QueueClientForReprocessing(c: ClientId)
      requires c in clients
      modifies this
      ensures Now() == old(Queued(Now(), c))
    {
      if !clients[c].queued {
        clients := clients[c := clients[c].(queued := true)];
        unblocked := unblocked + [c];
      }
    }

    /** The client leaves one list. The list exists, and so does the count if the client wanted it. */
    method ReleaseBlockedEntry(c: ClientId, k: Key, removeKey: bool)
      requires c in clients && k in blocking
      requires clients[c].onNoKey && Without(blocking[k], c) != [] ==> k in noKey && noKey[k] > 0
      modifies this
      ensures Now() == old(Now().(blocking := Unlinked(blocking, c, {k}), noKey := Uncounted(noKey, blocking, c, {k}, clients[c].onNoKey),
                                      clients := if removeKey then clients[c := clients[c].(keys := clients[c].keys - {k})] else clients))
    {
      UnlinkedIs(blocking, c, k);
      UncountedIs(noKey, blocking, c, k, clients[c].onNoKey);
      var l := Without(blocking[k], c);
      if |l| == 0 {
        blocking := blocking - {k};
        noKey := noKey - {k};
      } else {
        blocking := blocking[k := l];
        if clients[c].onNoKey {
          var left := noKey[k] - 1;
          noKey := if left == 0 then noKey - {k} else noKey[k := left];
        }
      }
      if removeKey { clients := clients[c := clients[c].(keys := clients[c].keys - {k})]; }
    }

    method UnblockClientWaitingData(c: ClientId)
      requires Inv(Now()) && c in clients
      modifies this
      ensures Now() == old(Release(Now(), c, clients[c].keys))
    {
      ghost var b0, n0, want := blocking, noKey, clients[c].onNoKey;
      UnlinkedNone(b0, n0, c, want);
      var todo := clients[c].keys;
      ghost var done: set<Key> := {};
      while todo != {}
        invariant c in clients && todo !! done && todo + done == clients[c].keys
        invariant clients == old(clients) && Now() == old(Now()).(blocking := blocking, noKey := noKey)
        invariant blocking == Unlinked(b0, c, done) && noKey == Uncounted(n0, b0, c, done, want)
        decreases |todo|
      {
        var k :| k in todo;
        CanRelease(old(Now()), c, k);
        UnlinkedWaiters(b0, c, done, k);
        ReleaseBlockedEntry(c, k, false);
        UnlinkedMore(b0, c, done, k);
        UncountedMore(n0, b0, c, done, k, want);
        todo, done := todo - {k}, done + {k};
      }
      assert done == clients[c].keys;
      clients := clients[c := clients[c].(keys := {})];
      assert clients[c].keys == old(clients[c].keys) - done;
    }

    method UnblockClient(c: ClientId, queue: bool)
      requires Inv(Now()) && c in clients && clients[c].blocked
      modifies this
      ensures Now() == old(Unblock(Now(), c, queue)) && Inv(Now()) && Unblocked(Now(), c)
    {
      ClientKnown(Now(), c);
      UnblockKeeps(Now(), c, queue);
      if OnKeys(clients[c].btype) { UnblockClientWaitingData(c); } else { NoKeysNoRelease(Now(), c); }
      DiscountClient(c);
      if queue { QueueClientForReprocessing(c); }
    }

    /** What freeing a client does here: it is unblocked, taken from the queue, and gone. */
    method FreeClient(c: ClientId)
      requires Inv(Now()) && c in clients && clients[c].btype in byType
      modifies this
      ensures Now() == old(Freed(Now(), c)) && Inv(Now()) && c !in clients
    {
      FreedKeeps(Now(), c);
      if clients[c].blocked { UnblockClient(c, true); }
      unblocked := Without(unblocked, c);
      clients := clients - {c};
    }

    method DiscountClient(c: ClientId)
      requires c in clients && clients[c].btype in byType
      modifies this
      ensures Now() == old(Discounted(Now(), c))
    {
      if !clients[c].isModule { blockedClients := blockedClients - 1; }
      byType := byType[clients[c].btype := byType[clients[c].btype] - 1];
      clients := clients[c := clients[c].(blocked := false, btype := NotBlocked, onNoKey := false, served := false)];
    }

    /** One key of `blockForKeys`. */
    method LinkKey(c: ClientId, k: Key, onNoKey: bool)
      requires c in clients && k !in clients[c].keys
      modifies this
      ensures Now() == old(LinkedOne(Now(), c, k, onNoKey))
    {
      clients := clients[c := clients[c].(keys := clients[c].keys + {k})];
      var l := if k !in blocking then [] else blocking[k];
      blocking := blocking[k := l + [c]];
      if onNoKey {
        if k !in noKey { noKey := noKey[k := 1]; } else { noKey := noKey[k := noKey[k] + 1]; }
      }
    }

    /** Duplicate keys are ignored. */
    method BlockForKeys(c: ClientId, b: BType, keys: seq<Key>, onNoKey: bool)
      requires Inv(Now()) && Unblocked(Now(), c) && OnKeys(b)
      modifies this
      ensures Now() == old(BlockKeys(Now(), c, b, Elems(keys), onNoKey)) && Inv(Now())
    {
      BlockKeysKeeps(Now(), c, b, Elems(keys), onNoKey);
      LinkedThenBlocked(Now(), c, b, Elems(keys), onNoKey);
      ClientKnown(Now(), c);
      LinkAll(c, keys, onNoKey);
      clients := clients[c := clients[c].(onNoKey := onNoKey)];
      BlockClient(c, b);
    }

    /** The loop of `blockForKeys`. */
    method LinkAll(c: ClientId, keys: seq<Key>, onNoKey: bool)
      requires c in clients && clients[c].keys == {}
      modifies this
      ensures Now() == old(LinkedState(Now(), c, Elems(keys), onNoKey))
    {
      ghost var s := Now();
      LinkedStateNone(s, c, onNoKey);
      var j := 0;
      ghost var done: set<Key> := {};
      while j < |keys|
        invariant 0 <= j <= |keys| && done == Elems(keys[..j])
        invariant Now() == LinkedState(s, c, done, onNoKey)
      {
        var k := keys[j];
        ElemsMore(keys, j);
        if k !in clients[c].keys {
          LinkedStateMore(s, c, done, k, onNoKey);
          LinkKey(c, k, onNoKey);
        }
        done := done + {k};
        j := j + 1;
      }
      assert keys[..j] == keys;
    }

    method SignalKeyAsReady(k: Key, t: ObjType, deleted: bool)
      requires Inv(Now())
      modifies this
      ensures Now() == old(Signal(Now(), k, t, deleted)) && Inv(Now())
    {
      SignalKeeps(Now(), k, t, deleted);
      var b := BlockedTypeOf(t);
      if b == NotBlocked { return; }
      if byType[b] == 0 && byType[BType.Module] == 0 { return; }
      if deleted {
        if k !in noKey { return; }
      } else {
        if k !in blocking { return; }
      }
      if k in readySet { return; }
      readySet := readySet + {k};
      ready := ready + [k];
    }

    /** One turn of `processUnblockedClients`. */
    method NextUnblocked() returns (c: ClientId)
      requires Inv(Now()) && unblocked != []
      modifies this
      ensures c == old(unblocked[0]) && c in old(clients)
      ensures Now() == old(Dequeued(Now())) && Inv(Now())
    {
      HeadKnown(Now());
      DequeuedKeeps(Now());
      c := unblocked[0];
      unblocked := unblocked[1..];
      clients := clients[c := clients[c].(queued := false)];
    }

    /** Unblocks a client for a key and re-runs its command, which ends as r says. */
    method UnblockClientOnKey(c: ClientId, k: Key, r: Result)
      requires Inv(Now()) && c in Waiters(blocking, k) && c in clients && !clients[c].btype.Module? && ValidResult(r)
      requires clients[c].btype in byType
      modifies this
      ensures Now() == old(Rerun(Woken(Now(), c, k), c, r))
    {
      ghost var s := Now();
      WaiterKnown(s, k, c);
      CanRelease(s, c, k);
      WokenKeeps(s, c, k);
      RerunKeeps(Woken(s, c, k), c, r);
      ReleaseKeeps(s, c, {k});
      ReleaseBlockedEntry(c, k, true);
      assert Now() == Release(s, c, {k});
      UnblockClient(c, false);
      RunAgain(c, r);
    }

    method RunAgain(c: ClientId, r: Result)
      requires Inv(Now()) && Unblocked(Now(), c) && ValidResult(r)
      modifies this
      ensures Now() == old(Rerun(Now(), c, r))
    {
      match r
      case BlocksOnKeys(b, keys, onNoKey) => BlockForKeys(c, b, keys, onNoKey);
      case BlocksOther(b) => BlockClient(c, b);
      case Finishes(signals) =>
        SignalAllFrame(Now(), signals);
        SignalEach(signals);
        if !clients[c].isModule { QueueClientForReprocessing(c); }
    }

    /** Calls the module's callback, unless the client has been served, and marks it when served now. */
    method ModuleUnblockClientOnKey(c: ClientId, reply: Reply)
      requires Inv(Now()) && c in clients
      modifies this
      ensures Now() == old(ModuleVisit(Now(), c, reply))
    {
      if clients[c].served || reply.Declines? { return; }
      SignalAllFrame(Now(), reply.signals);
      SignalEach(reply.signals);
      clients := clients[c := clients[c].(served := true)];
    }

    method VisitClient(k: Key, c: ClientId, ch: Choice)
      requires Inv(Now()) && c in Waiters(blocking, k) && ValidResult(ch.result)
      modifies this
      ensures Now() == old(Visit(Now(), k, c, ch)) && Inv(Now()) && taken == old(taken)
      ensures Moved(old(Waiters(blocking, k)), Waiters(blocking, k), c) && Progress(old(Now()), Now())
    {
      VisitFacts(Now(), k, c, ch);
      WaiterKnown(Now(), k, c);
      if Eligible(clients[c], ch.obj) {
        if !clients[c].btype.Module? { UnblockClientOnKey(c, k, ch.result); } else { ModuleUnblockClientOnKey(c, ch.reply); }
      }
    }

    /** One pass over a ready key. Although serving unlinks nodes, may delete the list and may append the
        same client again, the iterator visits the clients waiting on entry, in order, once each, and never
        follows a node that left the list. */
    method HandleClientsBlockedOnKey(k: Key, choice: nat -> Choice, t: nat) returns (visited: seq<ClientId>)
      requires Inv(Now()) && ValidChoices(choice)
      modifies this
      ensures visited == old(Waiters(blocking, k))
      ensures Now() == old(VisitAll(Now(), k, Waiters(blocking, k), choice, t))
      ensures Inv(Now()) && Progress(old(Now()), Now()) && taken == old(taken)
      ensures Answered(old(clients), clients, visited, choice, t)
      ensures forall i :: 0 <= i < |visited| && Released(old(clients)[visited[i]], choice(t + i)) ==>
        !clients[visited[i]].blocked && visited[i] !in Waiters(blocking, k) && (!clients[visited[i]].isModule ==> visited[i] in unblocked)
    {
      visited := [];
      WaitersNoDup(Now(), k);
      PassAnswers(Now(), k, Waiters(blocking, k), choice, t);
      if k in blocking {
        ghost var goal := VisitAll(Now(), k, blocking[k], choice, t);
        visited := Pass(k, blocking[k], choice, t, goal);
      }
      ghost var before, now := old(clients), Now();
      forall i | 0 <= i < |visited| && Released(before[visited[i]], choice(t + i))
        ensures var c := visited[i]; c in now.clients && !now.clients[c].blocked && c !in Waiters(now.blocking, k)
        ensures var c := visited[i]; !now.clients[c].isModule ==> c in now.unblocked
      {
        ReleasedMeans(before, now, visited, choice, t, i, k);
      }
    }

    method Pass(k: Key, entry: seq<ClientId>, choice: nat -> Choice, t: nat, ghost goal: State) returns (visited: seq<ClientId>)
      requires entry != [] && Waiters(blocking, k) == entry && Visiting(Now(), k, entry, choice, t, goal)
      modifies this
      ensures visited == entry && Now() == goal && Inv(Now()) && Progress(old(Now()), Now()) && taken == old(taken)
    {
      ghost var before: seq<ClientId>, back: seq<ClientId>, now := [], [], Now();
      var count, next, i, n := |entry|, Some(entry[0]), 0, t;
      visited := [];
      assert entry[0..] == entry && before + entry[0..] + back == entry;
      while next.Some? && count > 0
        invariant 0 <= i <= |entry| && count == |entry| - i && visited == entry[..i]
        invariant now == Now() && Passing(Waiters(now.blocking, k), entry, i, before, back, next)
        invariant Visiting(now, k, entry[i..], choice, n, goal)
        invariant Progress(old(Now()), now) && taken == old(taken)
        decreases count
      {
        PrefixMore(entry, i);
        visited := visited + [next.value];
        before, back, next := VisitTurn(k, entry, i, next.value, choice, n, before, back, goal);
        ProgressTwice(old(Now()), now, Now());
        now := Now();
        count, i, n := count - 1, i + 1, n + 1;
      }
      assert i == |entry| && entry[..i] == entry && entry[i..] == [];
    }

    /** One turn of the pass: the iterator moves on before the client is served. */
    method VisitTurn(k: Key, ghost entry: seq<ClientId>, ghost i: nat, ln: ClientId, choice: nat -> Choice, n: nat,
                     ghost before: seq<ClientId>, ghost back: seq<ClientId>, ghost goal: State)
      returns (ghost before': seq<ClientId>, ghost back': seq<ClientId>, next: Option<ClientId>)
      requires i < |entry| && ln == entry[i] && Waiters(blocking, k) == before + entry[i..] + back
      requires Visiting(Now(), k, entry[i..], choice, n, goal)
      modifies this
      ensures Passing(Waiters(blocking, k), entry, i + 1, before', back', next)
      ensures Visiting(Now(), k, entry[i + 1..], choice, n + 1, goal)
      ensures Progress(old(Now()), Now()) && taken == old(taken)
    {
      WaitersNoDup(Now(), k);
      VisitingTurn(Now(), k, entry, i, choice, n, goal);
      next := NextOf(Waiters(blocking, k), ln);
      VisitClient(k, ln, choice(n));
      before', back' := PassTurn(old(Waiters(blocking, k)), Waiters(blocking, k), entry, i, before, back);
    }

    /** Serves ready keys until none is left. It ends because every key served either unblocks a client or
        queues nothing. */
    method HandleClientsBlockedOnKeys(choice: nat -> Choice) returns (served: seq<Key>)
      requires Inv(Now()) && ValidChoices(choice) && taken == []
      modifies this
      ensures Inv(Now()) && ready == [] && taken == [] && readySet == {}
      ensures exists n :: ServesKeys(old(Now()), served, choice, 0, Now(), n)
      ensures forall k :: k in old(ready) ==> k in served
    {
      var t := 0;
      ghost var start, now := Now(), Now();
      served := [];
      while ready != []
        invariant Inv(Now()) && taken == [] && now == Now() && ServesKeys(start, served, choice, 0, now, t)
        decreases |Unserved(Now())|, |ready|
      {
        TakeKeeps(Now());
        taken, ready := ready, [];
        ghost var t0 := t;
        var ks;
        ks, t := ServeTaken(choice, t, ServesKey);
        ServesSwapped(now, ks, choice, t0, Now(), t);
        ChainMore(ServesKey, start, served, choice, 0, now, t0, ks, Now(), t);
        served, now := served + ks, Now();
      }
      assert taken + ready == [];
      forall k | k in start.ready ensures k in served { NoneForgotten(start, served, choice, 0, now, t, k); }
    }

    /** The inner loop, over the list taken from the server. */
    method ServeTaken(choice: nat -> Choice, t: nat, ghost step: KeyStep) returns (served: seq<Key>, t': nat)
      requires Inv(Now()) && ValidChoices(choice) && step == ServesKey
      modifies this
      ensures Inv(Now()) && taken == [] && Progress(old(Now()), Now())
      ensures Chain(step, old(Now()), served, choice, t, Now(), t') && (old(taken) != [] ==> served != [])
    {
      t', served := t, [];
      ghost var start, now := Now(), Now();
      while taken != []
        invariant now == Now() && Inv(now) && Progress(start, now) && Chain(step, start, served, choice, t, now, t')
        invariant served == [] ==> taken == start.taken
        decreases |taken|
      {
        var k, n;
        k, n := ServeFirst(choice, t', step);
        ChainLast(step, start, served, choice, t, now, t', k, Now(), t' + n);
        ProgressTwice(start, now, Now());
        t', served, now := t' + n, served + [k], Now();
      }
    }

    method ServeFirst(choice: nat -> Choice, t: nat, ghost step: KeyStep) returns (k: Key, n: nat)
      requires Inv(Now()) && ValidChoices(choice) && taken != [] && step == ServesKey
      modifies this
      ensures Inv(Now()) && taken == old(taken)[1..] && Progress(old(Now()), Now())
      ensures step(old(Now()), k, choice, t, Now(), t + n)
    {
      BeginKeeps(Now());
      k := taken[0];
      taken, readySet := taken[1..], readySet - {k};
      WaitersNoDup(Now(), k);
      var visited := HandleClientsBlockedOnKey(k, choice, t);
      n := |visited|;
    }

    method SignalEach(signals: seq<Signalled>)
      requires Inv(Now())
      modifies this
      ensures Now() == old(SignalAll(Now(), signals)) && Inv(Now())
    {
      var i := 0;
      while i < |signals|
        invariant 0 <= i <= |signals| && Inv(Now())
        invariant SignalAll(Now(), signals[i..]) == old(SignalAll(Now(), signals))
      {
        assert signals[i..][0] == signals[i] && signals[i..][1..] == signals[i + 1..];
        SignalKeyAsReady(signals[i].k, signals[i].t, signals[i].deleted);
        i := i + 1;
      }
    }
  }

  lemma ClientKnown(s: State, c: ClientId)
    requires Inv(s) && c in s.clients
    ensures ClientOk(s.clients[c])
  {}

  lemma NoKeysNoRelease(s: State, c: ClientId)
    requires c in s.clients && s.clients[c].keys == {}
    ensures Release(s, c, {}) == s
  {
    UnlinkedNone(s.blocking, s.noKey, c, s.clients[c].onNoKey);
    assert s.clients[c].(keys := s.clients[c].keys - {}) == s.clients[c];
  }

  /** The assertions of `releaseBlockedEntry` cannot fail. */
  lemma CanRelease(s: State, c: ClientId, k: Key)
    requires Inv(s) && c in s.clients && k in s.clients[c].keys
    ensures k in s.blocking && c in s.blocking[k] && (s.clients[c].onNoKey ==> k in s.noKey && s.noKey[k] > 0)
  {
    assert k in KeysOf(s.clients, c);
    assert c in Waiters(s.blocking, k);
    WakeOnDeleteIsBlocking(s, k);
  }
}
