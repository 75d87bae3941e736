/**
  The doubly linked list (adlist.c) as a heap structure. `nodes` is the sequence of nodes
  the pointers chain together; every operation is stated as what it does to that sequence.
*/
module Adlist {
  import opened Collections

  class Node<T> {
    var prev: Node?<T>
    var next: Node?<T>
    const value: T   // no list operation changes it

    constructor (v: T)
      ensures prev == null && next == null && value == v
    {
      prev, next, value := null, null, v;
    }
  }

  /** The nodes are chained forwards, the last one pointing to after. */
  ghost predicate Forward<T>(s: seq<Node<T>>, after: Node?<T>)
    reads s
  {
    && (forall i :: 0 <= i < |s| - 1 ==> s[i].next == s[i + 1])
    && (s != [] ==> s[|s| - 1].next == after)
  }

  /** The nodes are chained backwards, the first one pointing to before. */
  ghost predicate Backward<T>(s: seq<Node<T>>, before: Node?<T>)
    reads s
  {
    && (forall i :: 0 < i < |s| ==> s[i].prev == s[i - 1])
    && (s != [] ==> s[0].prev == before)
  }

  function First<T>(s: seq<Node<T>>, otherwise: Node?<T>): Node?<T> { if s == [] then otherwise else s[0] }

  function Last<T>(s: seq<Node<T>>, otherwise: Node?<T>): Node?<T> { if s == [] then otherwise else s[|s| - 1] }

  /** Two chains that point to each other are one chain, and the other way round. */
  lemma ForwardJoin<T>(a: seq<Node<T>>, b: seq<Node<T>>, after: Node?<T>)
    requires Forward(a, First(b, after)) && Forward(b, after)
    ensures Forward(a + b, after)
  {
    var s := a + b;
    forall i | 0 <= i < |s| - 1 ensures s[i].next == s[i + 1] {
      if i < |a| { assert s[i] == a[i]; } else { assert s[i] == b[i - |a|]; }
    }
  }

  lemma ForwardSplit<T>(a: seq<Node<T>>, b: seq<Node<T>>, after: Node?<T>)
    requires Forward(a + b, after)
    ensures Forward(a, First(b, after)) && Forward(b, after)
  {
    var s := a + b;
    forall i | 0 <= i < |a| - 1 ensures a[i].next == a[i + 1] { assert s[i].next == s[i + 1]; }
    forall i | 0 <= i < |b| - 1 ensures b[i].next == b[i + 1] { assert s[|a| + i].next == s[|a| + i + 1]; }
    if a != [] && b != [] { assert s[|a| - 1].next == s[|a|]; }
  }

  lemma BackwardJoin<T>(a: seq<Node<T>>, b: seq<Node<T>>, before: Node?<T>)
    requires Backward(a, before) && Backward(b, Last(a, before))
    ensures Backward(a + b, before)
  {
    var s := a + b;
    forall i | 0 < i < |s| ensures s[i].prev == s[i - 1] {
      if i < |a| { assert s[i] == a[i]; } else { assert s[i] == b[i - |a|]; }
    }
  }

  lemma BackwardSplit<T>(a: seq<Node<T>>, b: seq<Node<T>>, before: Node?<T>)
    requires Backward(a + b, before)
    ensures Backward(a, before) && Backward(b, Last(a, before))
  {
    var s := a + b;
    forall i | 0 < i < |a| ensures a[i].prev == a[i - 1] { assert s[i].prev == s[i - 1]; }
    forall i | 0 < i < |b| ensures b[i].prev == b[i - 1] { assert s[|a| + i].prev == s[|a| + i - 1]; }
    if a != [] && b != [] { assert s[|a|].prev == s[|a| - 1]; }
  }

  function Values<T>(s: seq<Node<T>>): seq<T> { seq(|s|, i requires 0 <= i < |s| => s[i].value) }

  lemma ValuesConcat<T>(a: seq<Node<T>>, b: seq<Node<T>>)
    ensures Values(a + b) == Values(a) + Values(b)
  {}

  ghost predicate Chained<T>(s: seq<Node<T>>, before: Node?<T>, after: Node?<T>)
    reads s
  {
    Forward(s, after) && Backward(s, before)
  }

  lemma ChainedJoin<T>(a: seq<Node<T>>, b: seq<Node<T>>, before: Node?<T>, after: Node?<T>)
    requires Chained(a, before, First(b, after)) && Chained(b, Last(a, before), after)
    ensures Chained(a + b, before, after)
  {
    ForwardJoin(a, b, after);
    BackwardJoin(a, b, before);
  }

  lemma ChainedSplit<T>(a: seq<Node<T>>, b: seq<Node<T>>, before: Node?<T>, after: Node?<T>)
    requires Chained(a + b, before, after)
    ensures Chained(a, before, First(b, after)) && Chained(b, Last(a, before), after)
  {
    ForwardSplit(a, b, after);
    BackwardSplit(a, b, before);
  }

  /** Makes the last node of a chain point to x. */
  method PointNext<T>(ghost a: seq<Node<T>>, last: Node<T>, x: Node?<T>, ghost before: Node?<T>, ghost after: Node?<T>)
    requires a != [] && last == a[|a| - 1] && NoDup(a) && Chained(a, before, after)
    modifies last`next
    ensures Chained(a, before, x)
  {
    last.next := x;
  }

  /** Makes the first node of a chain point back to x. */
  method PointPrev<T>(ghost b: seq<Node<T>>, first: Node<T>, x: Node?<T>, ghost before: Node?<T>, ghost after: Node?<T>)
    requires b != [] && first == b[0] && NoDup(b) && Chained(b, before, after)
    modifies first`prev
    ensures Chained(b, x, after)
  {
    first.prev := x;
  }

  /** Takes a node out from between two chains. */
  method Bypass<T>(ghost a: seq<Node<T>>, node: Node<T>, ghost b: seq<Node<T>>, ghost all: set<Node<T>>)
    requires node in all && (forall x :: x in a ==> x in all) && (forall x :: x in b ==> x in all)
    requires NoDup(a) && NoDup(b) && node !in a && node !in b && forall x :: x in a ==> x !in b
    requires Chained(a, null, node) && Chained(b, node, null)
    requires node.prev == Last(a, null) && node.next == First(b, null)
    modifies all`prev, all`next
    ensures Chained(a + b, null, null)
    ensures node.prev == null && node.next == null
  {
    if node.prev != null { PointNext(a, node.prev, node.next, null, node); }
    if node.next != null { PointPrev(b, node.next, node.prev, node, null); }
    node.next, node.prev := null, null;
    ChainedJoin(a, b, null, null);
  }

  /** Puts a node between two chains that follow each other. */
  method Splice<T>(ghost a: seq<Node<T>>, node: Node<T>, ghost b: seq<Node<T>>, ghost all: set<Node<T>>)
    requires (forall x :: x in a ==> x in all) && (forall x :: x in b ==> x in all)
    requires NoDup(a) && NoDup(b) && node !in a && node !in b && forall x :: x in a ==> x !in b
    requires Chained(a, null, First(b, null)) && Chained(b, Last(a, null), null)
    requires node.prev == Last(a, null) && node.next == First(b, null)
    modifies all`prev, all`next
    ensures Chained(a + [node] + b, null, null)
  {
    if node.prev != null { PointNext(a, node.prev, node, null, First(b, null)); }
    if node.next != null { PointPrev(b, node.next, node, Last(a, null), null); }
    ChainedJoin(a, [node], null, First(b, null));
    ChainedJoin(a + [node], b, null, null);
  }

  /** Moves the node after a chain to its front. */
  method MoveToFront<T>(ghost a: seq<Node<T>>, t: Node<T>, first: Node<T>, last: Node<T>, ghost all: set<Node<T>>)
    requires t in all && (forall x :: x in a ==> x in all)
    requires a != [] && NoDup(a) && t !in a && Chained(a, null, t) && first == a[0] && last == a[|a| - 1]
    modifies all`prev, all`next
    ensures Chained([t] + a, null, null)
  {
    PointNext(a, last, null, null, t);
    PointPrev(a, first, t, null, null);
    t.prev, t.next := null, first;
    ChainedJoin([t], a, null, null);
  }

  /** Moves the node before a chain to its end. */
  method MoveToBack<T>(h: Node<T>, ghost b: seq<Node<T>>, first: Node<T>, last: Node<T>, ghost all: set<Node<T>>)
    requires h in all && (forall x :: x in b ==> x in all)
    requires b != [] && NoDup(b) && h !in b && Chained(b, h, null) && first == b[0] && last == b[|b| - 1]
    modifies all`prev, all`next
    ensures Chained(b + [h], null, null)
  {
    PointPrev(b, first, null, h, null);
    PointNext(b, last, h, null, null);
    h.next, h.prev := null, last;
    ChainedJoin(b, [h], null, null);
  }

  /** Links two chains. */
  method Concat<T>(ghost a: seq<Node<T>>, last: Node?<T>, first: Node<T>, ghost b: seq<Node<T>>, ghost all: set<Node<T>>)
    requires (forall x :: x in a ==> x in all) && (forall x :: x in b ==> x in all)
    requires NoDup(a) && NoDup(b) && forall x :: x in a ==> x !in b
    requires Chained(a, null, null) && Chained(b, null, null) && last == Last(a, null) && b != [] && first == b[0]
    modifies all`prev, all`next
    ensures Chained(a + b, null, null)
  {
    assert first in b;
    PointPrev(b, first, last, null, null);
    assert last != null ==> last in a;
    if last != null { PointNext(a, last, first, null, null); }
    ChainedJoin(a, b, null, null);
  }

  lemma DistinctConcat<T>(a: seq<T>, b: seq<T>)
    requires NoDup(a) && NoDup(b) && forall x :: x in a ==> x !in b
    ensures NoDup(a + b)
  {
    var s := a + b;
    forall i, j | 0 <= i < j < |s| ensures s[i] != s[j] {
      if i < |a| <= j { assert a[i] in a && b[j - |a|] in b; }
    }
  }

  lemma DistinctInsert<T>(a: seq<T>, x: T, b: seq<T>)
    requires NoDup(a) && NoDup(b) && x !in a && x !in b && forall y :: y in a ==> y !in b
    ensures NoDup(a + [x] + b)
  {
    DistinctConcat(a, [x]);
    DistinctConcat(a + [x], b);
  }

  lemma DistinctParts<T>(a: seq<T>, x: T, b: seq<T>)
    requires NoDup(a + [x] + b)
    ensures NoDup(a) && NoDup(b) && NoDup(a + b) && x !in a && x !in b && forall y :: y in a ==> y !in b
  {
    var s := a + [x] + b;
    assert forall i :: 0 <= i < |a| ==> a[i] == s[i];
    assert forall i :: 0 <= i < |b| ==> b[i] == s[|a| + 1 + i];
    assert s[|a|] == x;
  }

  class List<T> {
    var head: Node?<T>
    var tail: Node?<T>
    var len: nat
    ghost var nodes: seq<Node<T>>

    ghost predicate Valid()
      reads this, nodes
    {
      && len == |nodes| && NoDup(nodes)
      && head == First(nodes, null) && tail == Last(nodes, null)
      && Chained(nodes, null, null)
    }

    ghost function All(): set<Node<T>>
      reads this
    {
      set x | x in nodes
    }

    ghost function Contents(): seq<T>
      reads this, nodes
    {
      Values(nodes)
    }

    constructor ()
      ensures Valid() && nodes == []
    {
      head, tail, len, nodes := null, null, 0, [];
    }

    method LinkHead(node: Node<T>)
      requires Valid() && node !in nodes
      modifies this, All()`prev, All()`next, node`prev, node`next
      ensures Valid() && nodes == [node] + old(nodes)
    {
      ghost var s := nodes;
      if len == 0 {
        head, tail := node, node;
        node.prev, node.next := null, null;
      } else {
        node.prev, node.next := null, head;
        head.prev := node;
        head := node;
      }
      len := len + 1;
      nodes := [node] + nodes;
      assert Chained([node], null, First(s, null)) && Chained(s, node, null);
      ChainedJoin([node], s, null, null);
    }

    method LinkTail(node: Node<T>)
      requires Valid() && node !in nodes
      modifies this, All()`prev, All()`next, node`prev, node`next
      ensures Valid() && nodes == old(nodes) + [node]
    {
      ghost var s := nodes;
      if len == 0 {
        head, tail := node, node;
        node.prev, node.next := null, null;
      } else {
        node.prev, node.next := tail, null;
        tail.next := node;
        tail := node;
      }
      len := len + 1;
      nodes := nodes + [node];
      assert Chained(s, null, node) && Chained([node], Last(s, null), null);
      ChainedJoin(s, [node], null, null);
    }

    method AddHead(v: T)
      requires Valid()
      modifies this, All()`prev, All()`next
      ensures Valid() && fresh(All() - old(All())) && Contents() == [v] + old(Contents())
      ensures |nodes| > 0 && nodes == [nodes[0]] + old(nodes)
    {
      ghost var s := nodes;
      var node := new Node(v);
      LinkHead(node);
      assert Values([node]) == [v];
      ValuesConcat([node], s);
    }

    method AddTail(v: T)
      requires Valid()
      modifies this, All()`prev, All()`next
      ensures Valid() && fresh(All() - old(All())) && Contents() == old(Contents()) + [v]
      ensures |nodes| > 0 && nodes == old(nodes) + [nodes[|nodes| - 1]]
    {
      ghost var s := nodes;
      var node := new Node(v);
      LinkTail(node);
      assert Values([node]) == [v];
      ValuesConcat(s, [node]);
    }

    method Unlink(node: Node<T>, ghost a: seq<Node<T>>, ghost b: seq<Node<T>>)
      requires Valid() && nodes == a + [node] + b
      modifies this, All()`prev, All()`next
      ensures Valid() && nodes == a + b
      ensures node.prev == null && node.next == null
    {
      Parts(a, node, b);
      if node.prev == null { head := node.next; }
      if node.next == null { tail := node.prev; }
      LinkAcross(node, a, b);
    }

    /** The end of a removal, once the ends are right. */
    method LinkAcross(node: Node<T>, ghost a: seq<Node<T>>, ghost b: seq<Node<T>>)
      requires nodes == a + [node] + b && len == |nodes| && head == First(a + b, null) && tail == Last(a + b, null)
      requires NoDup(a + b) && NoDup(a) && NoDup(b) && node !in a && node !in b && forall x :: x in a ==> x !in b
      requires Chained(a, null, node) && Chained(b, node, null) && node.prev == Last(a, null) && node.next == First(b, null)
      modifies this`len, this`nodes, All()`prev, All()`next
      ensures Valid() && nodes == a + b && node.prev == null && node.next == null
    {
      Bypass(a, node, b, All());
      len := len - 1;
      nodes := a + b;
    }

    method Del(node: Node<T>, ghost a: seq<Node<T>>, ghost b: seq<Node<T>>)
      requires Valid() && nodes == a + [node] + b
      modifies this, All()`prev, All()`next
      ensures Valid() && nodes == a + b
      ensures Contents() == Values(a) + Values(b)
    {
      Unlink(node, a, b);
    }

    /** Inserts a value after or before a node of the list. */
    method Insert(node: Node<T>, v: T, after: bool, ghost a: seq<Node<T>>, ghost b: seq<Node<T>>) returns (n: Node<T>)
      requires Valid() && nodes == a + b
      requires if after then a != [] && a[|a| - 1] == node else b != [] && b[0] == node
      modifies this, All()`prev, All()`next
      ensures Valid() && fresh(n) && n.value == v && nodes == a + [n] + b
    {
      Halves(a, b);
      n := new Node(v);
      if after {
        n.prev, n.next := node, node.next;
        if tail == node { tail := n; }
      } else {
        n.next, n.prev := node, node.prev;
        if head == node { head := n; }
      }
      LinkBetween(n, a, b);
    }

    /** The end of an insertion, once the new node points to its neighbours and the ends are right. */
    method LinkBetween(n: Node<T>, ghost a: seq<Node<T>>, ghost b: seq<Node<T>>)
      requires nodes == a + b && len == |nodes| && head == First(a, n) && tail == Last(b, n)
      requires NoDup(a) && NoDup(b) && n !in a && n !in b && forall x :: x in a ==> x !in b
      requires Chained(a, null, First(b, null)) && Chained(b, Last(a, null), null)
      requires n.prev == Last(a, null) && n.next == First(b, null)
      modifies this`len, this`nodes, All()`prev, All()`next
      ensures Valid() && nodes == a + [n] + b
    {
      Splice(a, n, b, All());
      DistinctInsert(a, n, b);
      len := len + 1;
      nodes := a + [n] + b;
    }

    lemma Halves(a: seq<Node<T>>, b: seq<Node<T>>)
      requires Valid() && nodes == a + b
      ensures Chained(a, null, First(b, null)) && Chained(b, Last(a, null), null)
      ensures NoDup(a) && NoDup(b) && forall x :: x in a ==> x !in b
      ensures head == First(a, First(b, null)) && tail == Last(b, Last(a, null))
      ensures (forall x :: x in a ==> x in All()) && (forall x :: x in b ==> x in All())
      ensures tail == Last(a, null) <==> b == []
      ensures head == First(b, null) <==> a == []
    {
      ChainedSplit(a, b, null, null);
      assert forall i :: 0 <= i < |a| ==> a[i] == nodes[i];
      assert forall i :: 0 <= i < |b| ==> b[i] == nodes[|a| + i];
    }

    method RotateTailToHead()
      requires Valid()
      modifies this, All()`prev, All()`next
      ensures Valid() && |nodes| == |old(nodes)|
      ensures nodes == if |nodes| <= 1 then old(nodes) else [old(nodes)[|nodes| - 1]] + old(nodes)[..|nodes| - 1]
    {
      if len <= 1 { return; }
      assert nodes == nodes[..len - 1] + [nodes[len - 1]];
      RotateTail(nodes[..len - 1], tail);
    }

    method RotateTail(ghost a: seq<Node<T>>, t: Node<T>)
      requires Valid() && nodes == a + [t] && a != [] && t == tail
      modifies this, All()`prev, All()`next
      ensures Valid() && nodes == [t] + a
    {
      Halves(a, [t]);
      DistinctConcat([t], a);
      tail := t.prev;
      MoveToFront(a, t, head, tail, All());
      head := t;
      nodes := [t] + a;
    }

    method RotateHeadToTail()
      requires Valid()
      modifies this, All()`prev, All()`next
      ensures Valid() && |nodes| == |old(nodes)|
      ensures nodes == if |nodes| <= 1 then old(nodes) else old(nodes)[1..] + [old(nodes)[0]]
    {
      if len <= 1 { return; }
      assert nodes == [nodes[0]] + nodes[1..];
      RotateHead(head, nodes[1..]);
    }

    method RotateHead(h: Node<T>, ghost b: seq<Node<T>>)
      requires Valid() && nodes == [h] + b && b != [] && h == head
      modifies this, All()`prev, All()`next
      ensures Valid() && nodes == b + [h]
    {
      Halves([h], b);
      DistinctConcat(b, [h]);
      head := h.next;
      MoveToBack(h, b, head, tail, All());
      tail := h;
      nodes := b + [h];
    }

    /** Moves every node of the other list to the end of this one. */
    method Join(o: List<T>)
      requires Valid() && o.Valid() && o != this && forall x :: x in nodes ==> x !in o.nodes
      modifies this, o, All()`prev, All()`next, o.All()`prev, o.All()`next
      ensures Valid() && o.Valid() && nodes == old(nodes) + old(o.nodes) && o.nodes == []
    {
      if o.len == 0 { return; }
      Adopt(o.head, o.tail, o.len, o.nodes);
      o.head, o.tail, o.len, o.nodes := null, null, 0, [];
    }

    method Adopt(first: Node<T>, last: Node<T>, n: nat, ghost b: seq<Node<T>>)
      requires Valid() && b != [] && first == b[0] && last == b[|b| - 1] && n == |b|
      requires NoDup(b) && Chained(b, null, null) && forall x :: x in nodes ==> x !in b
      modifies this, All()`prev, All()`next, b`prev, b`next
      ensures Valid() && nodes == old(nodes) + b
    {
      DistinctConcat(nodes, b);
      Concat(nodes, tail, first, b, All() + set x | x in b);
      if tail == null { head := first; }
      tail := last;
      len := len + n;
      nodes := nodes + b;
    }

    lemma Parts(a: seq<Node<T>>, node: Node<T>, b: seq<Node<T>>)
      requires Valid() && nodes == a + [node] + b
      ensures Chained(a, null, node) && Chained(b, node, null) && node.prev == Last(a, null) && node.next == First(b, null)
      ensures NoDup(a) && NoDup(b) && NoDup(a + b) && node !in a && node !in b && forall x :: x in a ==> x !in b
      ensures head == First(a, node) && tail == Last(b, node)
      ensures node in All() && (forall x :: x in a ==> x in All()) && (forall x :: x in b ==> x in All())
      ensures First(a + b, null) == First(a, First(b, null)) && Last(a + b, null) == Last(b, Last(a, null))
    {
      DistinctParts(a, node, b);
      ChainedSplit(a + [node], b, null, null);
      ChainedSplit(a, [node], null, First(b, null));
    }

    /** Removes every element; the list stays usable. */
    method Empty()
      requires Valid()
      modifies this
      ensures Valid() && nodes == []
    {
      var current, left := head, len;
      while left > 0
        invariant Valid() && left <= len && current == Nth(nodes, len - left)
      {
        Neighbours(len - left);
        current := current.next;
        left := left - 1;
      }
      head, tail, len, nodes := null, null, 0, [];
    }

    /** Where a node's pointers lead. */
    lemma Neighbours(i: nat)
      requires Valid() && i < |nodes|
      ensures nodes[i].next == Nth(nodes, i + 1) && nodes[i].prev == Nth(nodes, i - 1)
    {}

    /** The node at an index; negative indices count from the tail. */
    method Index(index: int) returns (n: Node?<T>)
      requires Valid()
      ensures n == if index < 0 then Nth(nodes, |nodes| + index) else Nth(nodes, index)
    {
      if index < 0 {
        var left := -index - 1;
        ghost var at: int := |nodes| - 1;
        n := tail;
        while left > 0 && n != null
          invariant left >= 0 && at < |nodes| && n == Nth(nodes, at) && at - left == |nodes| + index
        {
          Neighbours(at);
          n, left, at := n.prev, left - 1, at - 1;
        }
      } else {
        var left := index;
        ghost var at := 0;
        n := head;
        while left > 0 && n != null
          invariant left >= 0 && at >= 0 && n == Nth(nodes, at) && at + left == index
        {
          Neighbours(at);
          n, left, at := n.next, left - 1, at + 1;
        }
      }
    }
  }

  function Nth<T>(s: seq<Node<T>>, i: int): Node?<T> { if 0 <= i < |s| then s[i] else null }

  /** An iterator stands before position i of a list (walking forward) or after it (walking back). */
  class Iter<T> {
    var next: Node?<T>
    var forward: bool

    ghost predicate Before(l: List<T>, i: nat)
      reads this, l
    {
      i <= |l.nodes| && next == if forward then Nth(l.nodes, i) else Nth(l.nodes, i - 1)
    }

    constructor (l: List<T>, forward: bool)
      requires l.Valid()
      ensures this.forward == forward && Before(l, if forward then 0 else |l.nodes|)
    {
      next := if forward then l.head else l.tail;
      this.forward := forward;
    }

    /** Returns the node it stands at and has already moved on. */
    method Next(ghost l: List<T>, ghost i: nat) returns (current: Node?<T>)
      requires l.Valid() && Before(l, i)
      modifies this
      ensures forward == old(forward) && current == old(next)
      ensures current != null ==> if forward then i < |l.nodes| && Before(l, i + 1) else i > 0 && Before(l, i - 1)
      ensures current == null ==> if forward then i == |l.nodes| else i == 0
    {
      current := next;
      if current != null {
        l.Neighbours(if forward then i else i - 1);
        next := if forward then current.next else current.prev;
      }
    }
  }

  /** The nodes that stay when those at the positions chosen by drop go. */
  function Kept<T>(s: seq<Node<T>>, drop: nat -> bool, from: nat): seq<Node<T>> {
    if s == [] then [] else (if drop(from) then [] else [s[0]]) + Kept(s[1..], drop, from + 1)
  }

  lemma KeptTurn<T>(rest: seq<Node<T>>, drop: nat -> bool, n: nat, done: seq<Node<T>>, done': seq<Node<T>>)
    requires rest != [] && done' == if drop(n) then done else done + [rest[0]]
    ensures done' + Kept(rest[1..], drop, n + 1) == done + Kept(rest, drop, n)
  {}

  lemma HeadTail<T>(done: seq<T>, rest: seq<T>)
    requires rest != []
    ensures done + rest == done + [rest[0]] + rest[1..]
  {}

  /** One turn of an iteration that may remove the node just returned. */
  method SweepTurn<T>(l: List<T>, it: Iter<T>, node: Node<T>, remove: bool, ghost done: seq<Node<T>>, ghost rest: seq<Node<T>>,
                      ghost all: set<Node<T>>)
    returns (next: Node?<T>, ghost done': seq<Node<T>>)
    requires l.Valid() && l.nodes == done + [node] + rest && l.All() <= all && it.forward && it.Before(l, |done| + 1)
    modifies l, all`prev, all`next, it
    ensures l.Valid() && l.All() <= all && it.forward && next == First(rest, null)
    ensures done' == (if remove then done else done + [node]) && l.nodes == done' + rest
    ensures rest != [] ==> it.Before(l, |done'| + 1)
  {
    done' := if remove then done else done + [node];
    if remove { l.Unlink(node, done, rest); }
    next := it.Next(l, |done'|);
  }

  /** Removing the node just returned never disturbs an iteration: every node is seen once, in order, and
      exactly the chosen ones are gone. */
  method Sweep<T>(l: List<T>, drop: nat -> bool) returns (visited: seq<Node<T>>)
    requires l.Valid()
    modifies l, l.All()`prev, l.All()`next
    ensures l.Valid() && visited == old(l.nodes) && l.nodes == Kept(old(l.nodes), drop, 0)
  {
    var it := new Iter(l, true);
    ghost var all := l.All();
    var node := it.Next(l, 0);
    visited := SweepAll(l, it, node, drop, all);
  }

  method SweepAll<T>(l: List<T>, it: Iter<T>, first: Node?<T>, drop: nat -> bool, ghost all: set<Node<T>>)
    returns (visited: seq<Node<T>>)
    requires l.Valid() && l.All() <= all && it.forward && first == First(l.nodes, null) && (l.nodes != [] ==> it.Before(l, 1))
    modifies l, all`prev, all`next, it
    ensures l.Valid() && visited == old(l.nodes) && l.nodes == Kept(old(l.nodes), drop, 0)
  {
    ghost var done: seq<Node<T>>, rest := [], l.nodes;
    var node, n: nat := first, 0;
    visited := [];
    while node != null
      invariant l.Valid() && it.forward && l.nodes == done + rest && l.All() <= all
      invariant node == First(rest, null) && (rest != [] ==> it.Before(l, |done| + 1))
      invariant done + Kept(rest, drop, n) == Kept(old(l.nodes), drop, 0) && visited + rest == old(l.nodes)
      decreases |rest|
    {
      var current: Node<T> := node;
      ghost var was, now := done, rest;
      HeadTail(done, rest);
      HeadTail(visited, rest);
      visited := visited + [current];
      rest := rest[1..];
      node, done := SweepTurn(l, it, current, drop(n), done, rest, all);
      KeptTurn(now, drop, n, was, done);
      n := n + 1;
    }
  }

  // ----- The same from the tail -------------------------------------------------------------------

  function Reversed<T>(s: seq<T>): seq<T> { if s == [] then [] else [s[|s| - 1]] + Reversed(s[..|s| - 1]) }

  /** The nodes that stay when the walk starts at the tail and drop counts from there. */
  function KeptBack<T>(s: seq<Node<T>>, drop: nat -> bool, from: nat): seq<Node<T>> {
    if s == [] then [] else KeptBack(s[..|s| - 1], drop, from + 1) + if drop(from) then [] else [s[|s| - 1]]
  }

  function LastOf<T>(s: seq<Node<T>>): Node?<T> { if s == [] then null else s[|s| - 1] }

  lemma KeptBackTurn<T>(rest: seq<Node<T>>, drop: nat -> bool, n: nat, done: seq<Node<T>>, done': seq<Node<T>>)
    requires rest != [] && done' == if drop(n) then done else [rest[|rest| - 1]] + done
    ensures KeptBack(rest[..|rest| - 1], drop, n + 1) + done' == KeptBack(rest, drop, n) + done
  {}

  lemma InitLast<T>(rest: seq<T>, done: seq<T>)
    requires rest != []
    ensures rest + done == rest[..|rest| - 1] + [rest[|rest| - 1]] + done
  {}

  method SweepBackTurn<T>(l: List<T>, it: Iter<T>, node: Node<T>, remove: bool, ghost rest: seq<Node<T>>, ghost done: seq<Node<T>>,
                          ghost all: set<Node<T>>)
    returns (next: Node?<T>, ghost done': seq<Node<T>>)
    requires l.Valid() && l.nodes == rest + [node] + done && l.All() <= all && !it.forward && it.Before(l, |rest|)
    modifies l, all`prev, all`next, it
    ensures l.Valid() && l.All() <= all && !it.forward && next == LastOf(rest)
    ensures done' == (if remove then done else [node] + done) && l.nodes == rest + done'
    ensures rest != [] ==> it.Before(l, |rest| - 1)
  {
    done' := if remove then done else [node] + done;
    Assoc(rest, [node], done);
    if remove { l.Unlink(node, rest, done); }
    next := it.Next(l, |rest|);
  }

  /** As `Sweep`, from the tail: `markRewrittenIncrAofAsHistory` deletes in this direction. */
  method SweepBack<T>(l: List<T>, drop: nat -> bool) returns (visited: seq<Node<T>>)
    requires l.Valid()
    modifies l, l.All()`prev, l.All()`next
    ensures l.Valid() && visited == Reversed(old(l.nodes)) && l.nodes == KeptBack(old(l.nodes), drop, 0)
  {
    var it := new Iter(l, false);
    ghost var all := l.All();
    var node := it.Next(l, |l.nodes|);
    visited := SweepAllBack(l, it, node, drop, all);
  }

  method SweepAllBack<T>(l: List<T>, it: Iter<T>, first: Node?<T>, drop: nat -> bool, ghost all: set<Node<T>>)
    returns (visited: seq<Node<T>>)
    requires l.Valid() && l.All() <= all && !it.forward && first == LastOf(l.nodes) && (l.nodes != [] ==> it.Before(l, |l.nodes| - 1))
    modifies l, all`prev, all`next, it
    ensures l.Valid() && visited == Reversed(old(l.nodes)) && l.nodes == KeptBack(old(l.nodes), drop, 0)
  {
    ghost var rest, done: seq<Node<T>> := l.nodes, [];
    var node, n: nat := first, 0;
    visited := [];
    while node != null
      invariant l.Valid() && !it.forward && l.nodes == rest + done && l.All() <= all
      invariant node == LastOf(rest) && (rest != [] ==> it.Before(l, |rest| - 1))
      invariant KeptBack(rest, drop, n) + done == KeptBack(old(l.nodes), drop, 0) && visited + Reversed(rest) == Reversed(old(l.nodes))
      decreases |rest|
    {
      var current: Node<T> := node;
      ghost var was, now := done, rest;
      InitLast(rest, done);
      assert visited + Reversed(rest) == visited + [current] + Reversed(rest[..|rest| - 1]);
      visited := visited + [current];
      rest := rest[..|rest| - 1];
      node, done := SweepBackTurn(l, it, current, drop(n), rest, done, all);
      KeptBackTurn(now, drop, n, was, done);
      n := n + 1;
    }
  }

  /** The first element that matches, from the head. Without a match function values are compared. */
  method Search<T(==)>(l: List<T>, key: T, match_: Option<(T, T) -> bool>) returns (found: Node?<T>, ghost at: nat)
    requires l.Valid()
    ensures at <= |l.nodes| && found == Nth(l.nodes, at)
    ensures forall i :: 0 <= i < at ==> !Matches(l.nodes[i].value, key, match_)
    ensures found != null ==> Matches(found.value, key, match_)
  {
    var it := new Iter(l, true);
    at := 0;
    found := it.Next(l, 0);
    while found != null
      invariant it.forward && at <= |l.nodes| && found == Nth(l.nodes, at) && (found != null ==> it.Before(l, at + 1))
      invariant found == null ==> at == |l.nodes|
      invariant forall i :: 0 <= i < at ==> !Matches(l.nodes[i].value, key, match_)
      decreases |l.nodes| - at
    {
      if Matches(found.value, key, match_) { return; }
      at := at + 1;
      found := it.Next(l, at);
    }
  }

  predicate Matches<T(==)>(value: T, key: T, match_: Option<(T, T) -> bool>) {
    if match_.Some? then match_.value(value, key) else key == value
  }

  function Copied<T>(v: T, dup: Option<T -> Option<T>>): Option<T> { if dup.Some? then dup.value(v) else Some(v) }

  function CopiedAll<T>(vs: seq<T>, dup: Option<T -> Option<T>>): Option<seq<T>> {
    if vs == [] then Some([])
    else
      var init, last := CopiedAll(vs[..|vs| - 1], dup), Copied(vs[|vs| - 1], dup);
      if init.None? || last.None? then None else Some(init.value + [last.value])
  }

  lemma {:induction false} CopiedFails<T>(vs: seq<T>, n: nat, dup: Option<T -> Option<T>>)
    requires n < |vs| && Copied(vs[n], dup).None?
    ensures CopiedAll(vs, dup).None?
  {
    if n < |vs| - 1 { CopiedFails(vs[..|vs| - 1], n, dup); }
  }

  lemma CopiedMore<T>(vs: seq<T>, n: nat, dup: Option<T -> Option<T>>)
    requires n < |vs|
    ensures CopiedAll(vs[..n], dup).Some? && Copied(vs[n], dup).Some? ==>
      CopiedAll(vs[..n + 1], dup) == Some(CopiedAll(vs[..n], dup).value + [Copied(vs[n], dup).value])
  {
    assert vs[..n + 1][..n] == vs[..n];
  }

  /** Appends to one list and moves on in another. */
  method CopyTurn<T>(c: List<T>, orig: List<T>, it: Iter<T>, ghost n: nat, v: T) returns (node: Node?<T>)
    requires c.Valid() && orig.Valid() && c != orig && c.All() !! orig.All()
    requires it.forward && n < |orig.nodes| && it.Before(orig, n + 1)
    modifies c, c.All()`prev, c.All()`next, it
    ensures c.Valid() && orig.Valid() && fresh(c.All() - old(c.All())) && c.Contents() == old(c.Contents()) + [v]
    ensures it.forward && node == Nth(orig.nodes, n + 1) && (node != null ==> it.Before(orig, n + 2))
  {
    c.AddTail(v);
    node := it.Next(orig, n + 1);
  }

  /** A copy of the list, through the dup function if there is one; nothing if a dup fails. The original
      is not touched. */
  method Dup<T>(orig: List<T>, dup: Option<T -> Option<T>>) returns (copy: List?<T>)
    requires orig.Valid()
    ensures copy == null <==> CopiedAll(orig.Contents(), dup).None?
    ensures copy != null ==>
      fresh(copy) && copy.Valid() && fresh(copy.All()) && Some(copy.Contents()) == CopiedAll(orig.Contents(), dup)
  {
    var c := new List();
    var it := new Iter(orig, true);
    var node := it.Next(orig, 0);
    var ok := CopyAll(c, orig, it, node, dup, orig.Contents());
    copy := if ok then c else null;
  }

  method CopyAll<T>(c: List<T>, orig: List<T>, it: Iter<T>, first: Node?<T>, dup: Option<T -> Option<T>>, ghost vs: seq<T>)
    returns (ok: bool)
    requires orig.Valid() && c.Valid() && c.nodes == [] && c != orig && vs == orig.Contents()
    requires it.forward && first == Nth(orig.nodes, 0) && (first != null ==> it.Before(orig, 1))
    modifies c, it
    ensures ok <==> CopiedAll(vs, dup).Some?
    ensures ok ==> c.Valid() && fresh(c.All()) && c.Contents() == CopiedAll(vs, dup).value
  {
    ghost var n: nat := 0;
    var node := first;
    assert vs[..0] == [] && c.Contents() == [];
    while node != null
      invariant c.Valid() && orig.Valid() && fresh(c.All()) && |vs| == |orig.nodes|
      invariant it.forward && n <= |vs| && node == Nth(orig.nodes, n) && (node != null ==> it.Before(orig, n + 1))
      invariant Some(c.Contents()) == CopiedAll(vs[..n], dup)
      decreases |vs| - n
    {
      var value := Copied(node.value, dup);
      assert node.value == vs[n];
      CopiedMore(vs, n, dup);
      if value.None? {
        CopiedFails(vs, n, dup);
        return false;
      }
      node := CopyTurn(c, orig, it, n, value.value);
      n := n + 1;
    }
    assert vs[..n] == vs;
    ok := true;
  }
}
