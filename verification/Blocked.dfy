/**
  Clients blocked on keys (blocked.c): the index from clients to keys and from keys
  to waiting clients, the counters beside it, and the queue of ready keys.

  `State` is the index as a value and each operation a function on it; `Inv` is kept
  by every operation. `BlockedServer` performs the operations on mutable fields.
*/
module Blocked {
  import opened Collections

  type ClientId = nat
  type Key = (nat, string)   // database number and key

  datatype BType = NotBlocked | List | ZSet | Stream | Module | Wait | WaitAof | Postpone | Shutdown

  datatype Client = Client(
    blocked: bool,          // CLIENT_BLOCKED
    btype: BType,
    keys: set<Key>,         // bstate.keys
    onNoKey: bool,          // bstate.unblock_on_nokey
    queued: bool,           // CLIENT_UNBLOCKED
    isModule: bool,         // CLIENT_MODULE
    served: bool)           // the module's handle is marked unblocked; the client is released later

  datatype State = State(
    clients: map<ClientId, Client>,
    blocking: map<Key, seq<ClientId>>,   // db->blocking_keys
    noKey: map<Key, nat>,                // db->blocking_keys_unblock_on_nokey
    blockedClients: int,
    byType: map<BType, int>,
    unblocked: seq<ClientId>,
    ready: seq<Key>,                     // server.ready_keys
    taken: seq<Key>,                     // the handler's private list, less the key being served
    readySet: set<Key>)                  // db->ready_keys

  predicate OnKeys(b: BType) { b.List? || b.ZSet? || b.Stream? || b.Module? }

  // ----- Lists of clients --------------------------------------------------------

  function Without(l: seq<ClientId>, c: ClientId): seq<ClientId> {
    if l == [] then [] else if l[0] == c then l[1..] else [l[0]] + Without(l[1..], c)
  }

  lemma {:induction false} WithoutIs(l: seq<ClientId>, c: ClientId)
    requires NoDup(l)
    ensures NoDup(Without(l, c)) && forall x :: x in Without(l, c) <==> x in l && x != c
    ensures c in l ==> |Without(l, c)| == |l| - 1
    ensures c !in l ==> Without(l, c) == l
  {
    if l != [] {
      assert forall x :: x in l[1..] ==> x != l[0];
      assert NoDup(l[1..]);
      WithoutIs(l[1..], c);
      if l[0] != c {
        var r := Without(l[1..], c);
        forall i, j | 0 <= i < j < |[l[0]] + r| ensures ([l[0]] + r)[i] != ([l[0]] + r)[j] {
          assert r[j - 1] in r;
        }
      }
    }
  }

  predicate Wants(clients: map<ClientId, Client>, c: ClientId) { c in clients && clients[c].onNoKey }

  /** The waiters of a list that want to be woken when the key goes away. */
  function NoKeyWaiters(clients: map<ClientId, Client>, l: seq<ClientId>): nat {
    if l == [] then 0
    else One(Wants(clients, l[0])) + NoKeyWaiters(clients, l[1..])
  }

  lemma {:induction false} NoKeyWaitersAppend(clients: map<ClientId, Client>, l: seq<ClientId>, c: ClientId)
    ensures NoKeyWaiters(clients, l + [c]) == NoKeyWaiters(clients, l) + One(Wants(clients, c))
  {
    if l == [] {
      assert l + [c] == [c] && [c][1..] == [];
    } else {
      assert (l + [c])[1..] == l[1..] + [c];
      NoKeyWaitersAppend(clients, l[1..], c);
    }
  }

  lemma {:induction false} NoKeyWaitersWithout(clients: map<ClientId, Client>, l: seq<ClientId>, c: ClientId)
    requires c in l
    ensures NoKeyWaiters(clients, Without(l, c)) == NoKeyWaiters(clients, l) - One(Wants(clients, c))
  {
    if l[0] != c {
      NoKeyWaitersWithout(clients, l[1..], c);
      assert ([l[0]] + Without(l[1..], c))[1..] == Without(l[1..], c);
    }
  }

  /** Only the flags of the clients in the list matter. */
  lemma {:induction false} NoKeyWaitersAgree(a: map<ClientId, Client>, b: map<ClientId, Client>, l: seq<ClientId>)
    requires forall c :: c in l ==> Wants(a, c) == Wants(b, c)
    ensures NoKeyWaiters(a, l) == NoKeyWaiters(b, l)
  {
    if l != [] {
      assert l[0] in l;
      NoKeyWaitersAgree(a, b, l[1..]);
    }
  }

  // ----- Invariant -------------------------------------------------------------------

  function KeysOf(clients: map<ClientId, Client>, c: ClientId): set<Key> {
    if c in clients then clients[c].keys else {}
  }

  function Waiters(blocking: map<Key, seq<ClientId>>, k: Key): seq<ClientId> {
    if k in blocking then blocking[k] else []
  }

  function NoKeyAt(noKey: map<Key, nat>, k: Key): nat { if k in noKey then noKey[k] else 0 }

  /** A client waits on a key exactly when it is in the key's list, once; no stored list is empty. */
  ghost predicate IndexOk(blocking: map<Key, seq<ClientId>>, clients: map<ClientId, Client>) {
    && (forall k :: k in blocking ==> blocking[k] != [])
    && (forall k :: NoDup(Waiters(blocking, k)))
    && (forall k, c :: c in Waiters(blocking, k) <==> k in KeysOf(clients, c))
  }

  /** A key's wake-on-delete count is the number of its waiters that want it; zero counts are not stored. */
  ghost predicate NoKeyOk(noKey: map<Key, nat>, blocking: map<Key, seq<ClientId>>, clients: map<ClientId, Client>) {
    && (forall k :: k in noKey ==> noKey[k] > 0)
    && (forall k :: NoKeyAt(noKey, k) == NoKeyWaiters(clients, Waiters(blocking, k)))
  }

  ghost predicate ClientOk(c: Client) {
    && (c.blocked <==> c.btype != NotBlocked)
    && (c.keys != {} ==> OnKeys(c.btype))
    && (c.onNoKey ==> c.blocked) && (c.served ==> c.btype.Module?)
  }

  ghost function BlockedOf(clients: map<ClientId, Client>, b: BType): set<ClientId> {
    set c | c in clients && clients[c].btype == b
  }

  predicate IsCounted(cl: Client) { cl.blocked && !cl.isModule }

  ghost function CountedOf(clients: map<ClientId, Client>): set<ClientId> {
    set c | c in clients && IsCounted(clients[c])
  }

  ghost predicate CountersOk(s: State) {
    && s.blockedClients == |CountedOf(s.clients)|
    && (forall b: BType :: b in s.byType)
    && (forall b: BType :: b != NotBlocked ==> s.byType[b] == |BlockedOf(s.clients, b)|)
  }

  predicate IsQueued(clients: map<ClientId, Client>, c: ClientId) { c in clients && clients[c].queued }

  /** The reprocessing queue holds each flagged client once. */
  ghost predicate QueueOk(unblocked: seq<ClientId>, clients: map<ClientId, Client>) {
    NoDup(unblocked) && forall c :: c in unblocked <==> IsQueued(clients, c)
  }

  ghost predicate ClientsOk(clients: map<ClientId, Client>) { forall c :: c in clients ==> ClientOk(clients[c]) }

  /** The ready dictionary is the set of queued keys, and no key is queued twice. */
  ghost predicate ReadyOk(queue: seq<Key>, readySet: set<Key>) {
    NoDup(queue) && forall k :: k in readySet <==> k in queue
  }

  ghost predicate Inv(s: State) {
    && IndexOk(s.blocking, s.clients) && NoKeyOk(s.noKey, s.blocking, s.clients)
    && CountersOk(s) && QueueOk(s.unblocked, s.clients) && ClientsOk(s.clients)
    && ReadyOk(s.taken + s.ready, s.readySet)
  }

  // ----- Operations ----------------------------------------------------------------------

  /** The key lists without client c, for the keys ks it waits on; a list that becomes empty goes. */
  function Unlinked(blocking: map<Key, seq<ClientId>>, c: ClientId, ks: set<Key>): map<Key, seq<ClientId>> {
    map k | k in blocking && (k in ks ==> Without(blocking[k], c) != []) ::
      if k in ks then Without(blocking[k], c) else blocking[k]
  }

  /** The wake-on-delete counts, likewise; a count goes with its list, or when it reaches zero. */
  function Uncounted(noKey: map<Key, nat>, blocking: map<Key, seq<ClientId>>, c: ClientId, ks: set<Key>, onNoKey: bool): map<Key, nat> {
    map k | k in noKey && (k in ks ==> Without(Waiters(blocking, k), c) != [] && (onNoKey ==> noKey[k] != 1)) ::
      if k in ks && onNoKey && noKey[k] > 0 then noKey[k] - 1 else noKey[k]
  }

  function Linked(blocking: map<Key, seq<ClientId>>, c: ClientId, ks: set<Key>): map<Key, seq<ClientId>> {
    map k | k in blocking.Keys + ks :: if k in ks then Waiters(blocking, k) + [c] else blocking[k]
  }

  function Wished(noKey: map<Key, nat>, ks: set<Key>): map<Key, nat> {
    map k | k in noKey.Keys + ks :: NoKeyAt(noKey, k) + if k in ks then 1 else 0
  }

  /** `releaseBlockedEntry` for each key of ks, dropping the keys on the client's side too. */
  function Release(s: State, c: ClientId, ks: set<Key>): State
    requires c in s.clients
  {
    var cl := s.clients[c];
    s.(blocking := Unlinked(s.blocking, c, ks), noKey := Uncounted(s.noKey, s.blocking, c, ks, cl.onNoKey),
       clients := s.clients[c := cl.(keys := cl.keys - ks)])
  }

  /** `blockForKeys`. */
  function BlockKeys(s: State, c: ClientId, b: BType, ks: set<Key>, onNoKey: bool): State
    requires c in s.clients && b in s.byType
  {
    var cl := s.clients[c].(keys := ks, onNoKey := onNoKey, blocked := true, btype := b);
    s.(blocking := Linked(s.blocking, c, ks), noKey := if onNoKey then Wished(s.noKey, ks) else s.noKey,
       clients := s.clients[c := cl],
       blockedClients := if cl.isModule then s.blockedClients else s.blockedClients + 1,
       byType := s.byType[b := s.byType[b] + 1])
  }

  /** `blockClient`. */
  function Counted(s: State, c: ClientId, b: BType): State
    requires c in s.clients && b in s.byType
  {
    var cl := s.clients[c];
    s.(clients := s.clients[c := cl.(blocked := true, btype := b)],
       blockedClients := if cl.isModule then s.blockedClients else s.blockedClients + 1,
       byType := s.byType[b := s.byType[b] + 1])
  }

  /** `queueClientForReprocessing`. */
  function Queued(s: State, c: ClientId): State
    requires c in s.clients
  {
    var cl := s.clients[c];
    if cl.queued then s else s.(clients := s.clients[c := cl.(queued := true)], unblocked := s.unblocked + [c])
  }

  /** The end of `unblockClient`, after the client left the key lists. */
  function Discounted(s: State, c: ClientId): State
    requires c in s.clients && s.clients[c].btype in s.byType
  {
    var cl := s.clients[c];
    s.(clients := s.clients[c := cl.(blocked := false, btype := NotBlocked, onNoKey := false, served := false)],
       blockedClients := if cl.isModule then s.blockedClients else s.blockedClients - 1,
       byType := s.byType[cl.btype := s.byType[cl.btype] - 1])
  }

  /** `unblockClient`. */
  function Unblock(s: State, c: ClientId, queue: bool): State
    requires c in s.clients && s.clients[c].btype in s.byType
  {
    var s' := Discounted(Release(s, c, s.clients[c].keys), c);
    if queue then Queued(s', c) else s'
  }

  /** `moduleUnblockClient`: the client stays where it is until the module's clients are handled. */
  function Served(s: State, c: ClientId): State
    requires c in s.clients
  {
    s.(clients := s.clients[c := s.clients[c].(served := true)])
  }

  /** The client is freed: unblocked, taken from the queue, and gone. */
  function Freed(s: State, c: ClientId): State
    requires c in s.clients && s.clients[c].btype in s.byType
  {
    var s' := if s.clients[c].blocked then Unblock(s, c, true) else s;
    s'.(clients := s'.clients - {c}, unblocked := Without(s'.unblocked, c))
  }

  /** One turn of `processUnblockedClients`. */
  function Dequeued(s: State): State
    requires s.unblocked != [] && s.unblocked[0] in s.clients
  {
    var c := s.unblocked[0];
    s.(clients := s.clients[c := s.clients[c].(queued := false)], unblocked := s.unblocked[1..])
  }

  // ----- Each operation keeps the invariant ----------------------------------------------------

  lemma AppendNoDup<T>(l: seq<T>, c: T)
    requires NoDup(l) && c !in l
    ensures NoDup(l + [c])
  {}

  lemma UnlinkedWaiters(blocking: map<Key, seq<ClientId>>, c: ClientId, ks: set<Key>, k: Key)
    ensures Waiters(Unlinked(blocking, c, ks), k) == if k in ks then Without(Waiters(blocking, k), c) else Waiters(blocking, k)
  {}

  lemma UnlinkedIndex(blocking: map<Key, seq<ClientId>>, clients: map<ClientId, Client>, c: ClientId, ks: set<Key>)
    requires IndexOk(blocking, clients) && c in clients
    ensures IndexOk(Unlinked(blocking, c, ks), clients[c := clients[c].(keys := clients[c].keys - ks)])
  {
    var blocking', clients' := Unlinked(blocking, c, ks), clients[c := clients[c].(keys := clients[c].keys - ks)];
    forall k
      ensures NoDup(Waiters(blocking', k))
      ensures forall x :: x in Waiters(blocking', k) <==> k in KeysOf(clients', x)
    {
      UnlinkedWaiters(blocking, c, ks, k);
      WithoutIs(Waiters(blocking, k), c);
      forall x ensures x in Waiters(blocking', k) <==> k in KeysOf(clients', x) {
        assert x in Waiters(blocking, k) <==> k in KeysOf(clients, x);
      }
    }
  }

  lemma UnlinkedNoKey(noKey: map<Key, nat>, blocking: map<Key, seq<ClientId>>, clients: map<ClientId, Client>, c: ClientId, ks: set<Key>)
    requires IndexOk(blocking, clients) && NoKeyOk(noKey, blocking, clients) && c in clients && ks <= clients[c].keys
    ensures NoKeyOk(Uncounted(noKey, blocking, c, ks, clients[c].onNoKey), Unlinked(blocking, c, ks),
                    clients[c := clients[c].(keys := clients[c].keys - ks)])
  {
    var noKey', blocking' := Uncounted(noKey, blocking, c, ks, clients[c].onNoKey), Unlinked(blocking, c, ks);
    var clients' := clients[c := clients[c].(keys := clients[c].keys - ks)];
    forall k ensures NoKeyAt(noKey', k) == NoKeyWaiters(clients', Waiters(blocking', k)) {
      UnlinkedWaiters(blocking, c, ks, k);
      NoKeyWaitersAgree(clients', clients, Waiters(blocking, k));
      if k in ks {
        assert k in KeysOf(clients, c);
        NoKeyWaitersWithout(clients', Waiters(blocking, k), c);
      }
    }
  }

  lemma LinkedIndex(blocking: map<Key, seq<ClientId>>, clients: map<ClientId, Client>, clients': map<ClientId, Client>, c: ClientId, ks: set<Key>)
    requires IndexOk(blocking, clients) && KeysOf(clients, c) == {}
    requires KeysOf(clients', c) == ks && forall x :: x != c ==> KeysOf(clients', x) == KeysOf(clients, x)
    ensures IndexOk(Linked(blocking, c, ks), clients')
  {
    var blocking' := Linked(blocking, c, ks);
    forall k
      ensures NoDup(Waiters(blocking', k))
      ensures forall x :: x in Waiters(blocking', k) <==> k in KeysOf(clients', x)
    {
      assert c !in Waiters(blocking, k);
      if k in ks { AppendNoDup(Waiters(blocking, k), c); }
      assert Waiters(blocking', k) == if k in ks then Waiters(blocking, k) + [c] else Waiters(blocking, k);
    }
  }

  lemma LinkedNoKey(noKey: map<Key, nat>, blocking: map<Key, seq<ClientId>>, clients: map<ClientId, Client>, clients': map<ClientId, Client>, c: ClientId, ks: set<Key>)
    requires IndexOk(blocking, clients) && NoKeyOk(noKey, blocking, clients) && KeysOf(clients, c) == {}
    requires forall x :: x != c ==> Wants(clients', x) == Wants(clients, x)
    ensures NoKeyOk(if Wants(clients', c) then Wished(noKey, ks) else noKey, Linked(blocking, c, ks), clients')
  {
    var noKey', blocking' := if Wants(clients', c) then Wished(noKey, ks) else noKey, Linked(blocking, c, ks);
    forall k ensures NoKeyAt(noKey', k) == NoKeyWaiters(clients', Waiters(blocking', k)) {
      assert c !in Waiters(blocking, k);
      NoKeyWaitersAgree(clients', clients, Waiters(blocking, k));
      NoKeyWaitersAppend(clients', Waiters(blocking, k), c);
      assert Waiters(blocking', k) == if k in ks then Waiters(blocking, k) + [c] else Waiters(blocking, k);
    }
  }

  /** The index does not depend on the clients' other fields. */
  lemma IndexFrame(noKey: map<Key, nat>, blocking: map<Key, seq<ClientId>>, clients: map<ClientId, Client>, clients': map<ClientId, Client>)
    requires IndexOk(blocking, clients) && NoKeyOk(noKey, blocking, clients)
    requires forall x :: KeysOf(clients', x) == KeysOf(clients, x)
    requires forall x :: KeysOf(clients, x) != {} ==> Wants(clients', x) == Wants(clients, x)
    ensures IndexOk(blocking, clients') && NoKeyOk(noKey, blocking, clients')
  {
    forall k ensures NoKeyWaiters(clients', Waiters(blocking, k)) == NoKeyWaiters(clients, Waiters(blocking, k)) {
      NoKeyWaitersAgree(clients', clients, Waiters(blocking, k));
    }
  }

  lemma SetUpdateSize<T>(before: set<T>, after: set<T>, c: T)
    requires before - {c} == after - {c}
    ensures |after| == |before| + One(c in after) - One(c in before)
  {
    assert c in before ==> before == before - {c} + {c};
    assert c in after ==> after == after - {c} + {c};
    assert c !in before ==> before == before - {c};
    assert c !in after ==> after == after - {c};
  }

  /** Changing one client changes each count by at most one. */
  lemma BlockedOfUpdate(clients: map<ClientId, Client>, c: ClientId, cl: Client, b: BType)
    requires c in clients
    ensures |BlockedOf(clients[c := cl], b)| == |BlockedOf(clients, b)| + One(cl.btype == b) - One(clients[c].btype == b)
  {
    SetUpdateSize(BlockedOf(clients, b), BlockedOf(clients[c := cl], b), c);
  }

  lemma CountedOfUpdate(clients: map<ClientId, Client>, c: ClientId, cl: Client)
    requires c in clients
    ensures |CountedOf(clients[c := cl])| == |CountedOf(clients)| + One(IsCounted(cl)) - One(IsCounted(clients[c]))
  {
    SetUpdateSize(CountedOf(clients), CountedOf(clients[c := cl]), c);
  }

  lemma CountersUpdate(s: State, s': State, c: ClientId, cl: Client)
    requires CountersOk(s) && c in s.clients && s'.clients == s.clients[c := cl]
    requires s'.blockedClients == s.blockedClients + One(IsCounted(cl)) - One(IsCounted(s.clients[c]))
    requires forall b: BType :: b in s'.byType
    requires forall b: BType :: b != NotBlocked ==> s'.byType[b] == s.byType[b] + One(cl.btype == b) - One(s.clients[c].btype == b)
    ensures CountersOk(s')
  {
    CountedOfUpdate(s.clients, c, cl);
    forall b: BType | b != NotBlocked ensures s'.byType[b] == |BlockedOf(s'.clients, b)| {
      BlockedOfUpdate(s.clients, c, cl, b);
    }
  }

  lemma CountersFrame(s: State, s': State, c: ClientId, cl: Client)
    requires CountersOk(s) && c in s.clients && s'.clients == s.clients[c := cl]
    requires s'.blockedClients == s.blockedClients && s'.byType == s.byType
    requires IsCounted(cl) == IsCounted(s.clients[c]) && cl.btype == s.clients[c].btype
    ensures CountersOk(s')
  {
    CountersUpdate(s, s', c, cl);
  }

  lemma CountersBlocked(s: State, s': State, c: ClientId, cl: Client)
    requires CountersOk(s) && c in s.clients && s'.clients == s.clients[c := cl]
    requires ClientOk(s.clients[c]) && !s.clients[c].blocked && cl.blocked && cl.isModule == s.clients[c].isModule
    requires cl.btype != NotBlocked
    requires s'.blockedClients == s.blockedClients + One(!cl.isModule) && s'.byType == s.byType[cl.btype := s.byType[cl.btype] + 1]
    ensures CountersOk(s')
  {
    CountersUpdate(s, s', c, cl);
  }

  lemma CountersUnblocked(s: State, s': State, c: ClientId, cl: Client, b: BType)
    requires CountersOk(s) && c in s.clients && s'.clients == s.clients[c := cl]
    requires s.clients[c].blocked && s.clients[c].btype == b && b != NotBlocked
    requires !cl.blocked && cl.btype == NotBlocked
    requires s'.blockedClients == s.blockedClients - One(!s.clients[c].isModule) && s'.byType == s.byType[b := s.byType[b] - 1]
    ensures CountersOk(s')
  {
    CountersUpdate(s, s', c, cl);
  }

  lemma QueueFrame(unblocked: seq<ClientId>, clients: map<ClientId, Client>, c: ClientId, cl: Client)
    requires QueueOk(unblocked, clients) && c in clients && cl.queued == clients[c].queued
    ensures QueueOk(unblocked, clients[c := cl])
  {
    assert forall x :: IsQueued(clients[c := cl], x) == IsQueued(clients, x);
  }

  lemma ClientsFrame(clients: map<ClientId, Client>, c: ClientId, cl: Client)
    requires ClientsOk(clients) && ClientOk(cl)
    ensures ClientsOk(clients[c := cl])
  {}

  lemma LinkedKeeps(noKey: map<Key, nat>, blocking: map<Key, seq<ClientId>>, clients: map<ClientId, Client>, c: ClientId, cl: Client)
    requires IndexOk(blocking, clients) && NoKeyOk(noKey, blocking, clients) && KeysOf(clients, c) == {}
    ensures IndexOk(Linked(blocking, c, cl.keys), clients[c := cl])
    ensures NoKeyOk(if cl.onNoKey then Wished(noKey, cl.keys) else noKey, Linked(blocking, c, cl.keys), clients[c := cl])
  {
    LinkedIndex(blocking, clients, clients[c := cl], c, cl.keys);
    LinkedNoKey(noKey, blocking, clients, clients[c := cl], c, cl.keys);
  }

  lemma BlockKeysKeeps(s: State, c: ClientId, b: BType, ks: set<Key>, onNoKey: bool)
    requires Inv(s) && c in s.clients && !s.clients[c].blocked && OnKeys(b)
    ensures Inv(BlockKeys(s, c, b, ks, onNoKey))
  {
    var s' := BlockKeys(s, c, b, ks, onNoKey);
    var cl := s.clients[c].(keys := ks, onNoKey := onNoKey, blocked := true, btype := b);
    assert ClientOk(s.clients[c]);
    LinkedKeeps(s.noKey, s.blocking, s.clients, c, cl);
    CountersBlocked(s, s', c, cl);
    QueueFrame(s.unblocked, s.clients, c, cl);
    ClientsFrame(s.clients, c, cl);
  }

  lemma BlockKeeps(s: State, c: ClientId, b: BType)
    requires Inv(s) && c in s.clients && !s.clients[c].blocked && b != NotBlocked
    ensures Inv(Counted(s, c, b))
  {
    var s' := Counted(s, c, b);
    var cl := s.clients[c].(blocked := true, btype := b);
    assert ClientOk(s.clients[c]);
    CountersBlocked(s, s', c, cl);
    IndexFrame(s.noKey, s.blocking, s.clients, s'.clients);
    QueueFrame(s.unblocked, s.clients, c, cl);
  }

  lemma ReleaseKeeps(s: State, c: ClientId, ks: set<Key>)
    requires Inv(s) && c in s.clients && ks <= s.clients[c].keys
    ensures Inv(Release(s, c, ks))
  {
    var s' := Release(s, c, ks);
    assert ClientOk(s.clients[c]);
    UnlinkedIndex(s.blocking, s.clients, c, ks);
    UnlinkedNoKey(s.noKey, s.blocking, s.clients, c, ks);
    CountersFrame(s, s', c, s'.clients[c]);
    QueueFrame(s.unblocked, s.clients, c, s'.clients[c]);
  }

  lemma DiscountedKeeps(s: State, c: ClientId)
    requires Inv(s) && c in s.clients && s.clients[c].blocked && s.clients[c].keys == {}
    ensures Inv(Discounted(s, c))
  {
    var s' := Discounted(s, c);
    assert ClientOk(s.clients[c]);
    CountersUnblocked(s, s', c, s'.clients[c], s.clients[c].btype);
    IndexFrame(s.noKey, s.blocking, s.clients, s'.clients);
    QueueFrame(s.unblocked, s.clients, c, s'.clients[c]);
  }

  lemma QueuedKeeps(s: State, c: ClientId)
    requires Inv(s) && c in s.clients
    ensures Inv(Queued(s, c))
  {
    var s' := Queued(s, c);
    if !s.clients[c].queued {
      assert ClientOk(s.clients[c]);
      CountersFrame(s, s', c, s'.clients[c]);
      IndexFrame(s.noKey, s.blocking, s.clients, s'.clients);
      assert c !in s.unblocked;
      AppendNoDup(s.unblocked, c);
      assert forall x :: IsQueued(s'.clients, x) == (IsQueued(s.clients, x) || x == c);
    }
  }

  lemma UnblockKeeps(s: State, c: ClientId, queue: bool)
    requires Inv(s) && c in s.clients && s.clients[c].blocked
    ensures Inv(Unblock(s, c, queue)) && !Unblock(s, c, queue).clients[c].blocked
  {
    var released := Release(s, c, s.clients[c].keys);
    ReleaseKeeps(s, c, s.clients[c].keys);
    DiscountedKeeps(released, c);
    QueuedKeeps(Discounted(released, c), c);
  }

  lemma DequeuedKeeps(s: State)
    requires Inv(s) && s.unblocked != [] && s.unblocked[0] in s.clients
    ensures Inv(Dequeued(s))
  {
    var s', c := Dequeued(s), s.unblocked[0];
    assert ClientOk(s.clients[c]);
    CountersFrame(s, s', c, s'.clients[c]);
    IndexFrame(s.noKey, s.blocking, s.clients, s'.clients);
    assert s.unblocked == [c] + s.unblocked[1..];
    assert forall x :: IsQueued(s'.clients, x) == (IsQueued(s.clients, x) && x != c);
  }

  lemma ServedKeeps(s: State, c: ClientId)
    requires Inv(s) && c in s.clients && s.clients[c].btype.Module?
    ensures Inv(Served(s, c))
  {
    var s' := Served(s, c);
    assert ClientOk(s.clients[c]);
    CountersFrame(s, s', c, s'.clients[c]);
    IndexFrame(s.noKey, s.blocking, s.clients, s'.clients);
    QueueFrame(s.unblocked, s.clients, c, s'.clients[c]);
  }

  /** A client that is not blocked can go. */
  lemma GoneKeeps(s: State, c: ClientId)
    requires Inv(s) && c in s.clients && !s.clients[c].blocked
    ensures Inv(s.(clients := s.clients - {c}, unblocked := Without(s.unblocked, c)))
  {
    var s' := s.(clients := s.clients - {c}, unblocked := Without(s.unblocked, c));
    assert ClientOk(s.clients[c]);
    IndexFrame(s.noKey, s.blocking, s.clients, s'.clients);
    assert CountedOf(s'.clients) == CountedOf(s.clients);
    forall b: BType | b != NotBlocked ensures BlockedOf(s'.clients, b) == BlockedOf(s.clients, b) {}
    WithoutIs(s.unblocked, c);
    assert forall x :: IsQueued(s'.clients, x) == (IsQueued(s.clients, x) && x != c);
  }

  lemma FreedKeeps(s: State, c: ClientId)
    requires Inv(s) && c in s.clients
    ensures Inv(Freed(s, c)) && c !in Freed(s, c).clients
  {
    assert ClientOk(s.clients[c]);
    if s.clients[c].blocked { UnblockKeeps(s, c, true); }
    GoneKeeps(if s.clients[c].blocked then Unblock(s, c, true) else s, c);
  }
}
