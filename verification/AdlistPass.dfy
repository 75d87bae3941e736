/**
  One pass over the clients waiting on a key (blocked.c, `handleClientsBlockedOnKey`), on the nodes of
  their list: serving the client of a node may unlink the node, and may append the client again.
*/
module AdlistPass {
  import opened Collections
  import opened Adlist

  /** What serving a client does to its place in the list. */
  datatype Fate = Stays | Leaves | Requeues

  function Staying<T>(s: seq<Node<T>>, fate: nat -> Fate, from: nat): seq<Node<T>> {
    if s == [] then [] else (if fate(from).Stays? then [s[0]] else []) + Staying(s[1..], fate, from + 1)
  }

  function Requeued<T>(s: seq<Node<T>>, fate: nat -> Fate, from: nat): seq<T> {
    if s == [] then [] else (if fate(from).Requeues? then [s[0].value] else []) + Requeued(s[1..], fate, from + 1)
  }

  lemma StayingTurn<T>(rest: seq<Node<T>>, fate: nat -> Fate, n: nat, kept: seq<Node<T>>, kept': seq<Node<T>>)
    requires rest != [] && kept' == if fate(n).Stays? then kept + [rest[0]] else kept
    ensures kept' + Staying(rest[1..], fate, n + 1) == kept + Staying(rest, fate, n)
  {}

  lemma RequeuedTurn<T>(rest: seq<Node<T>>, fate: nat -> Fate, n: nat, vs: seq<T>, vs': seq<T>)
    requires rest != [] && vs' == if fate(n).Requeues? then vs + [rest[0].value] else vs
    ensures vs' + Requeued(rest[1..], fate, n + 1) == vs + Requeued(rest, fate, n)
  {}

  lemma Regroup<T>(kept: seq<T>, node: T, rest: seq<T>, added: seq<T>)
    ensures kept + [node] + rest + added == kept + [node] + (rest + added)
    ensures kept + rest + added == kept + (rest + added)
  {}

  /** Puts a value at the end. */
  method Append<T>(l: List<T>, v: T, ghost front: seq<Node<T>>, ghost added: seq<Node<T>>, ghost all: set<Node<T>>)
    returns (ghost added': seq<Node<T>>)
    requires l.Valid() && l.nodes == front + added && l.All() <= all
    modifies l, all`prev, all`next
    ensures l.Valid() && fresh(l.All() - all) && l.nodes == front + added' && |added'| == |added| + 1 && added' == added + [added'[|added|]]
    ensures added'[|added|].value == v
  {
    l.AddTail(v);
    ghost var last := l.nodes[|l.nodes| - 1];
    assert l.Contents()[|l.nodes| - 1] == v;
    added' := added + [last];
    Assoc(front, added, [last]);
  }

  /** Takes the node out, and puts its value at the end again if that is its fate. */
  method Serve<T>(l: List<T>, node: Node<T>, f: Fate, ghost kept: seq<Node<T>>, ghost rest: seq<Node<T>>, ghost added: seq<Node<T>>,
                  ghost all: set<Node<T>>)
    returns (ghost kept': seq<Node<T>>, ghost added': seq<Node<T>>)
    requires l.Valid() && l.nodes == kept + [node] + rest + added && l.All() <= all
    modifies l, all`prev, all`next
    ensures l.Valid() && fresh(l.All() - all)
    ensures kept' == (if f.Stays? then kept + [node] else kept) && l.nodes == kept' + rest + added'
    ensures if f.Requeues? then |added'| == |added| + 1 && added' == added + [added'[|added|]] && added'[|added|].value == node.value else added' == added
  {
    kept', added' := if f.Stays? then kept + [node] else kept, added;
    if !f.Stays? {
      Regroup(kept, node, rest, added);
      l.Unlink(node, kept, rest + added);
      if f.Requeues? { added' := Append(l, node.value, kept + rest, added, all); }
    }
  }

  /** One turn: the node is served, and the iterator moves on if more of the first clients are left. */
  method PassTurn<T>(l: List<T>, it: Iter<T>, node: Node<T>, f: Fate, more: bool,
                     ghost kept: seq<Node<T>>, ghost rest: seq<Node<T>>, ghost added: seq<Node<T>>, ghost all: set<Node<T>>)
    returns (next: Node?<T>, ghost kept': seq<Node<T>>, ghost added': seq<Node<T>>)
    requires l.Valid() && l.nodes == kept + [node] + rest + added && l.All() <= all && it.forward && (more <==> rest != [])
    requires rest != [] ==> it.Before(l, |kept| + 1)
    modifies l, all`prev, all`next, it
    ensures l.Valid() && fresh(l.All() - all) && it.forward
    ensures kept' == (if f.Stays? then kept + [node] else kept) && l.nodes == kept' + rest + added'
    ensures if f.Requeues? then |added'| == |added| + 1 && added' == added + [added'[|added|]] && added'[|added|].value == node.value else added' == added
    ensures next == First(rest, null)
    ensures |rest| > 1 ==> it.Before(l, |kept'| + 1)
  {
    kept', added' := Serve(l, node, f, kept, rest, added, all);
    next := null;
    if more {
      assert l.nodes[|kept'|] == rest[0];
      next := it.Next(l, |kept'|);
    }
  }

  /**
    The pass visits exactly the nodes there are at the start, in order, once each, and no node that has left; the
    clients that stay keep their order, and those that wait again follow them in the order they were served.
  */
  method Pass<T>(l: List<T>, fate: nat -> Fate) returns (visited: seq<Node<T>>, ghost added: seq<Node<T>>)
    requires l.Valid()
    modifies l, l.All()`prev, l.All()`next
    ensures l.Valid() && visited == old(l.nodes)
    ensures l.nodes == Staying(visited, fate, 0) + added && Values(added) == Requeued(visited, fate, 0)
  {
    var it := new Iter(l, true);
    ghost var all := l.All();
    var node := it.Next(l, 0);
    visited, added := PassAll(l, it, node, fate, all);
  }

  method PassAll<T>(l: List<T>, it: Iter<T>, first: Node?<T>, fate: nat -> Fate, ghost all: set<Node<T>>)
    returns (visited: seq<Node<T>>, ghost added: seq<Node<T>>)
    requires l.Valid() && l.All() <= all && it.forward && first == First(l.nodes, null) && (l.nodes != [] ==> it.Before(l, 1))
    modifies l, all`prev, all`next, it
    ensures l.Valid() && visited == old(l.nodes)
    ensures l.nodes == Staying(visited, fate, 0) + added && Values(added) == Requeued(visited, fate, 0)
  {
    ghost var entry, kept: seq<Node<T>>, rest, everyone := l.nodes, [], l.nodes, all;
    var node, n: nat, count := first, 0, l.len;
    visited, added := [], [];
    assert kept + rest + added == l.nodes;
    while node != null && count > 0
      invariant l.Valid() && it.forward && l.nodes == kept + rest + added && l.All() <= everyone && fresh(everyone - all)
      invariant node == First(rest, null) && count == |rest| && (|rest| > 1 ==> it.Before(l, |kept| + 1))
      invariant visited + rest == entry
      invariant kept + Staying(rest, fate, n) == Staying(entry, fate, 0)
      invariant Values(added) + Requeued(rest, fate, n) == Requeued(entry, fate, 0)
      decreases |rest|
    {
      var current: Node<T> := node;
      ghost var was, now, vs := kept, rest, Values(added);
      HeadTail(kept, rest);
      HeadTail(visited, rest);
      visited := visited + [current];
      rest := rest[1..];
      ghost var before := added;
      node, kept, added := PassTurn(l, it, current, fate(n), count > 1, kept, rest, added, everyone);
      everyone := everyone + l.All();
      StayingTurn(now, fate, n, was, kept);
      ValuesGrow(before, added, vs, current.value, fate(n).Requeues?);
      RequeuedTurn(now, fate, n, vs, Values(added));
      n, count := n + 1, count - 1;
    }
  }

  lemma ValuesGrow<T>(s: seq<Node<T>>, s': seq<Node<T>>, vs: seq<T>, v: T, grows: bool)
    requires Values(s) == vs
    requires if grows then |s'| == |s| + 1 && s' == s + [s'[|s|]] && s'[|s|].value == v else s' == s
    ensures Values(s') == if grows then vs + [v] else vs
  {
    if grows { ValuesConcat(s, [s'[|s|]]); }
  }
}
