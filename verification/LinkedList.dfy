/**
 The doubly linked list and its iterator (lab 2), and the interconnect's latency queue on top of them:
 a loop that removes the node it is at still visits every node once.
 */
module LinkedList {
  import opened Common
  import opened Interconnect

  class Node<T> {
    var prev: Node?<T>
    var next: Node?<T>
    var val: T

    constructor (val: T)
      ensures this.val == val && prev == null && next == null
    {
      this.val, prev, next := val, null, null;
    }
  }

  function Before<T>(nodes: seq<Node<T>>, i: int): Node?<T> {
    if 0 < i <= |nodes| then nodes[i - 1] else null
  }

  function At<T>(nodes: seq<Node<T>>, i: int): Node?<T> {
    if 0 <= i < |nodes| then nodes[i] else null
  }

  /** No node occurs twice. */
  ghost predicate Distinct<T>(nodes: seq<Node<T>>) {
    forall i, j :: 0 <= i < j < |nodes| ==> nodes[i] != nodes[j]
  }

  /** The node has its neighbours and its value. */
  ghost predicate InPlace<T>(nodes: seq<Node<T>>, values: seq<T>, i: int)
    reads nodes
  {
    && 0 <= i < |nodes| == |values|
    && nodes[i].prev == Before(nodes, i) && nodes[i].next == At(nodes, i + 1) && nodes[i].val == values[i]
  }

  /** The neighbours in a list without node k. */
  lemma NeighboursWithout<T>(nodes: seq<Node<T>>, k: nat, i: nat, j: nat)
    requires k < |nodes| && i < |nodes| - 1 && j == if i < k then i else i + 1
    ensures
      var left := Without(nodes, k);
      && |left| == |nodes| - 1
      && left[i] == nodes[j]
      && At(left, i + 1) == At(nodes, if j + 1 == k then k + 1 else j + 1)
      && Before(left, i) == Before(nodes, if j == k + 1 then k else j)
  {
  }

  class List<T> {
    var head: Node?<T>
    var tail: Node?<T>
    var len: nat
    /** The nodes from head to tail. */
    ghost var nodes: seq<Node<T>>
    /** What they hold. */
    ghost var values: seq<T>

    ghost predicate Valid()
      reads this, nodes
    {
      && len == |nodes| == |values| && Distinct(nodes)
      && head == At(nodes, 0) && tail == At(nodes, |nodes| - 1)
      && forall i :: 0 <= i < |nodes| ==> InPlace(nodes, values, i)
    }

    constructor ()
      ensures Valid() && nodes == [] && values == []
    {
      head, tail, len, nodes, values := null, null, 0, [], [];
    }

    /** Append a node. */
    method RPush(node: Node<T>)
      requires Valid() && node !in nodes
      modifies this, node, nodes
      ensures Valid() && nodes == old(nodes) + [node]
      ensures values == old(values) + [old(node.val)]
    {
      if len > 0 {
        node.prev := tail;
        node.next := null;
        tail.next := node;
        tail := node;
      } else {
        head, tail := node, node;
        node.prev, node.next := null, null;
      }
      len := len + 1;
      nodes, values := nodes + [node], values + [node.val];
      forall i | 0 <= i < |nodes| - 1
        ensures InPlace(nodes, values, i)
      {
        assert old(InPlace(nodes, values, i));
      }
    }

    /** Prepend a node. */
    method LPush(node: Node<T>)
      requires Valid() && node !in nodes
      modifies this, node, nodes
      ensures Valid() && nodes == [node] + old(nodes)
      ensures values == [old(node.val)] + old(values)
    {
      if len > 0 {
        node.next := head;
        node.prev := null;
        head.prev := node;
        head := node;
      } else {
        head, tail := node, node;
        node.prev, node.next := null, null;
      }
      len := len + 1;
      nodes, values := [node] + nodes, [node.val] + values;
      forall i | 1 <= i < |nodes|
        ensures InPlace(nodes, values, i)
      {
        assert old(InPlace(nodes, values, i - 1));
        assert nodes[i] == old(nodes[i - 1]);
      }
    }

    /** Detach the last node. */
    method RPop() returns (node: Node?<T>)
      requires Valid()
      modifies this, nodes
      ensures Valid() && node == At(old(nodes), |old(nodes)| - 1)
      ensures nodes == if old(nodes) == [] then [] else old(nodes)[..|old(nodes)| - 1]
      ensures values == if old(nodes) == [] then [] else old(values)[..|old(nodes)| - 1]
      ensures node != null ==> node.prev == null && node.next == null && node.val == old(values)[|old(nodes)| - 1]
    {
      if len == 0 {
        return null;
      }
      node := tail;
      assert InPlace(nodes, values, |nodes| - 1);
      len := len - 1;
      if len > 0 {
        tail := node.prev;
        tail.next := null;
      } else {
        tail, head := null, null;
      }
      node.next, node.prev := null, null;
      nodes, values := nodes[..|nodes| - 1], values[..|nodes| - 1];
      forall i | 0 <= i < |nodes|
        ensures InPlace(nodes, values, i)
      {
        assert old(InPlace(nodes, values, i));
      }
    }

    /** Detach the first node. */
    method LPop() returns (node: Node?<T>)
      requires Valid()
      modifies this, nodes
      ensures Valid() && node == At(old(nodes), 0)
      ensures nodes == if old(nodes) == [] then [] else old(nodes)[1..]
      ensures values == if old(nodes) == [] then [] else old(values)[1..]
      ensures node != null ==> node.prev == null && node.next == null && node.val == old(values)[0]
    {
      if len == 0 {
        return null;
      }
      node := head;
      assert InPlace(nodes, values, 0);
      len := len - 1;
      if len > 0 {
        head := node.next;
        head.prev := null;
      } else {
        head, tail := null, null;
      }
      node.next, node.prev := null, null;
      nodes, values := nodes[1..], values[1..];
      forall i | 0 <= i < |nodes|
        ensures InPlace(nodes, values, i)
      {
        assert old(InPlace(nodes, values, i + 1));
      }
    }

    /** Take a node out of the chain: its neighbours become each other's. */
    method Unlink(node: Node<T>, ghost k: nat)
      requires Valid() && k < |nodes| && nodes[k] == node
      modifies this`head, this`tail, nodes
      ensures unchanged(node)
      ensures forall i :: 0 <= i < |nodes| ==>
                && nodes[i].val == old(nodes[i].val)
                && nodes[i].next == (if i + 1 == k then At(nodes, k + 1) else old(nodes[i].next))
                && nodes[i].prev == (if i == k + 1 then Before(nodes, k) else old(nodes[i].prev))
      ensures head == (if k == 0 then At(nodes, 1) else old(head))
      ensures tail == (if k == |nodes| - 1 then Before(nodes, k) else old(tail))
    {
      assert InPlace(nodes, values, k);
      if node.prev != null {
        node.prev.next := node.next;
      } else {
        head := node.next;
      }
      if node.next != null {
        node.next.prev := node.prev;
      } else {
        tail := node.prev;
      }
    }

    /** Remove a node of the list, wherever it is.  The node itself may be freed: nothing leads to it. */
    method Remove(node: Node<T>, ghost k: nat)
      requires Valid() && k < |nodes| && nodes[k] == node
      modifies this, nodes
      ensures Valid() && nodes == Without(old(nodes), k)
      ensures values == Without(old(values), k)
      ensures unchanged(node)
    {
      assert InPlace(nodes, values, k);
      Unlink(node, k);
      len := len - 1;
      ghost var was, had := nodes, values;
      nodes, values := Without(was, k), Without(had, k);
      forall i | 0 <= i < |was| - 1
        ensures InPlace(nodes, values, i)
      {
        ghost var j := if i < k then i else i + 1;
        NeighboursWithout(was, k, i, j);
        assert old(InPlace(was, had, j));
      }
    }

    /** Overwrite what a node holds. */
    method SetVal(node: Node<T>, ghost k: nat, val: T)
      requires Valid() && k < |nodes| && nodes[k] == node
      modifies this`values, node`val
      ensures Valid() && values == old(values)[k := val]
    {
      node.val := val;
      values := values[k := val];
      forall i | 0 <= i < |nodes|
        ensures InPlace(nodes, values, i)
      {
        assert old(InPlace(nodes, values, i));
      }
    }
  }

  class Iterator<T> {
    var next: Node?<T>
    const fromHead: bool

    constructor (list: List<T>, fromHead: bool)
      ensures this.fromHead == fromHead && next == if fromHead then list.head else list.tail
    {
      this.fromHead := fromHead;
      next := if fromHead then list.head else list.tail;
    }

    /** The next node, or null at the end.  Its successor is fetched first, so the node may be removed. */
    method Next() returns (curr: Node?<T>)
      modifies this`next
      ensures curr == old(next)
      ensures next == if curr == null then null else if fromHead then curr.next else curr.prev
    {
      curr := next;
      if curr != null {
        next := if fromHead then curr.next else curr.prev;
      }
    }
  }

  lemma VisitedNext<T>(nodes: seq<Node<T>>, i: nat, node: Node<T>, visited: seq<Node<T>>)
    requires i < |nodes| && node == nodes[i] && visited == nodes[..i]
    ensures visited + [node] == nodes[..i + 1]
  {
  }

  // ---- the latency queue ----

  /** A traversal in progress: the list is what has been kept of the first i nodes, and then the rest. */
  ghost predicate Traversed(nodes0: seq<Node<Message>>, values0: seq<Message>, i: nat,
                            nodes: seq<Node<Message>>, values: seq<Message>, kept: nat) {
    && i <= |nodes0| == |values0| && kept == |Kept(values0[..i])| <= |nodes|
    && nodes[kept..] == nodes0[i..]
    && values == Kept(values0[..i]) + values0[i..]
  }

  lemma TraversedAt(nodes0: seq<Node<Message>>, values0: seq<Message>, i: nat,
                    nodes: seq<Node<Message>>, values: seq<Message>, kept: nat)
    requires Traversed(nodes0, values0, i, nodes, values, kept) && i < |nodes0|
    ensures kept < |nodes| && nodes[kept] == nodes0[i] && At(nodes, kept + 1) == At(nodes0, i + 1)
    ensures kept < |values| && values[kept] == values0[i]
  {
    assert nodes[kept..][0] == nodes0[i..][0];
    if i + 1 < |nodes0| {
      assert nodes[kept..][1] == nodes0[i..][1];
    }
  }

  lemma TraversedKeep(nodes0: seq<Node<Message>>, values0: seq<Message>, i: nat,
                      nodes: seq<Node<Message>>, values: seq<Message>, kept: nat)
    requires Traversed(nodes0, values0, i, nodes, values, kept) && i < |nodes0| && values0[i].cycles > 0
    ensures kept < |nodes| && kept < |values|
    ensures Traversed(nodes0, values0, i + 1, nodes,
                      values[kept := values0[i].(cycles := values0[i].cycles - 1)], kept + 1)
    ensures Due(values0[..i + 1]) == Due(values0[..i])
  {
    TraversedAt(nodes0, values0, i, nodes, values, kept);
    assert values0[..i + 1][..i] == values0[..i];
    assert nodes[kept + 1..] == nodes[kept..][1..];
    var nearer := values0[i].(cycles := values0[i].cycles - 1);
    assert values[kept := nearer] == Kept(values0[..i]) + [nearer] + values0[i + 1..];
  }

  lemma TraversedRemove(nodes0: seq<Node<Message>>, values0: seq<Message>, i: nat,
                        nodes: seq<Node<Message>>, values: seq<Message>, kept: nat)
    requires Traversed(nodes0, values0, i, nodes, values, kept) && i < |nodes0| && values0[i].cycles == 0
    ensures kept < |nodes| && kept < |values|
    ensures Traversed(nodes0, values0, i + 1, Without(nodes, kept), Without(values, kept), kept)
    ensures Due(values0[..i + 1]) == Due(values0[..i]) + [values0[i]]
  {
    TraversedAt(nodes0, values0, i, nodes, values, kept);
    assert values0[..i + 1][..i] == values0[..i];
    assert Without(nodes, kept)[kept..] == nodes[kept..][1..];
    assert Without(values, kept) == Kept(values0[..i]) + values0[i + 1..];
  }

  ghost predicate Within(nodes: seq<Node<Message>>, footprint: set<Node<Message>>) {
    forall k :: 0 <= k < |nodes| ==> nodes[k] in footprint
  }

  class LatencyQueue {
    const messages: List<Message>

    constructor ()
      ensures fresh(messages) && messages.Valid() && messages.values == []
    {
      messages := new List();
    }

    method Send(block: nat, latency: nat, dir: Direction)
      requires messages.Valid() && latency > 0
      modifies messages, messages.nodes
      ensures messages.Valid() && messages.values == old(messages.values) + [Sent(block, latency, dir)]
      ensures |messages.nodes| == |old(messages.nodes)| + 1
      ensures messages.nodes[..|old(messages.nodes)|] == old(messages.nodes)
      ensures fresh(messages.nodes[|old(messages.nodes)|])
    {
      var node := new Node(Message(block, latency - 1, dir));
      messages.RPush(node);
    }

    /** The first i nodes have been visited, and the others have not been touched. */
    ghost predicate Halfway(nodes0: seq<Node<Message>>, values0: seq<Message>, i: nat, kept: nat, due: seq<Message>,
                            footprint: set<Node<Message>>)
      reads messages, messages.nodes
    {
      && messages.Valid() && Within(messages.nodes, footprint)
      && Traversed(nodes0, values0, i, messages.nodes, messages.values, kept)
      && due == Due(values0[..i])
    }

    /** Every node is visited once, in order, though the nodes of the delivered messages are removed on
        the way; the queue is left with the other messages, each one cycle nearer. */
    method Cycle() returns (due: seq<Message>, ghost visited: seq<Node<Message>>)
      requires messages.Valid()
      modifies messages, messages.nodes
      ensures messages.Valid()
      ensures messages.values == Kept(old(messages.values)) && due == Due(old(messages.values))
      ensures visited == old(messages.nodes)
    {
      var it := new Iterator(messages, true);
      ghost var footprint := set node | node in messages.nodes;
      Start(footprint);
      due, visited := Traverse(it, messages.nodes, messages.values, footprint);
    }

    method Traverse(it: Iterator<Message>, ghost nodes0: seq<Node<Message>>, ghost values0: seq<Message>,
                    ghost footprint: set<Node<Message>>)
      returns (due: seq<Message>, ghost visited: seq<Node<Message>>)
      requires Halfway(nodes0, values0, 0, 0, [], footprint)
      requires it.fromHead && it.next == At(nodes0, 0)
      requires nodes0 != [] ==> nodes0[0].next == At(nodes0, 1)
      modifies it, messages, footprint
      ensures messages.Valid() && messages.values == Kept(values0) && due == Due(values0)
      ensures visited == nodes0
    {
      due, visited := [], [];
      ghost var kept, i := 0, 0;
      var node := it.Next();
      while node != null
        invariant i <= |nodes0| && node == At(nodes0, i) && visited == nodes0[..i]
        invariant Halfway(nodes0, values0, i, kept, due, footprint)
        invariant it.fromHead && it.next == At(nodes0, i + 1)
        decreases |nodes0| - i
      {
        due, kept := Visit(node, nodes0, values0, i, kept, due, footprint);
        VisitedNext(nodes0, i, node, visited);
        visited, i := visited + [node], i + 1;
        node := it.Next();
      }
      End(nodes0, values0, kept, due, footprint);
    }

    lemma Start(footprint: set<Node<Message>>)
      requires messages.Valid() && Within(messages.nodes, footprint)
      ensures Halfway(messages.nodes, messages.values, 0, 0, [], footprint)
      ensures messages.nodes != [] ==> messages.nodes[0].next == At(messages.nodes, 1)
    {
      assert messages.nodes != [] ==> InPlace(messages.nodes, messages.values, 0);
    }

    lemma End(nodes0: seq<Node<Message>>, values0: seq<Message>, kept: nat, due: seq<Message>,
              footprint: set<Node<Message>>)
      requires Halfway(nodes0, values0, |nodes0|, kept, due, footprint)
      ensures messages.Valid()
      ensures messages.values == Kept(values0) && due == Due(values0)
    {
      assert values0[..|nodes0|] == values0;
    }

    /** While the queue is traversed, the successor of the node to be visited has not been touched. */
    lemma Successor(nodes0: seq<Node<Message>>, values0: seq<Message>, i: nat, kept: nat, due: seq<Message>,
                    footprint: set<Node<Message>>)
      requires Halfway(nodes0, values0, i, kept, due, footprint) && i < |nodes0|
      ensures nodes0[i].next == At(nodes0, i + 1)
    {
      TraversedAt(nodes0, values0, i, messages.nodes, messages.values, kept);
      assert InPlace(messages.nodes, messages.values, kept);
    }

    /** Deliver the message of the node and remove it, or bring it one cycle nearer. */
    method Visit(node: Node<Message>, ghost nodes0: seq<Node<Message>>, ghost values0: seq<Message>, ghost i: nat,
                 ghost kept: nat, due: seq<Message>, ghost footprint: set<Node<Message>>)
      returns (dueNow: seq<Message>, ghost keptNow: nat)
      requires Halfway(nodes0, values0, i, kept, due, footprint) && node == At(nodes0, i)
      modifies messages, footprint
      ensures Halfway(nodes0, values0, i + 1, keptNow, dueNow, footprint)
      ensures i + 1 < |nodes0| ==> nodes0[i + 1].next == At(nodes0, i + 2)
    {
      TraversedAt(nodes0, values0, i, messages.nodes, messages.values, kept);
      assert InPlace(messages.nodes, messages.values, kept);
      var m := node.val;
      if m.cycles > 0 {
        TraversedKeep(nodes0, values0, i, messages.nodes, messages.values, kept);
        messages.SetVal(node, kept, m.(cycles := m.cycles - 1));
        dueNow, keptNow := due, kept + 1;
      } else {
        TraversedRemove(nodes0, values0, i, messages.nodes, messages.values, kept);
        messages.Remove(node, kept);
        dueNow, keptNow := due + [m], kept;
      }
      if i + 1 < |nodes0| {
        Successor(nodes0, values0, i + 1, keptNow, dueNow, footprint);
      }
    }
  }
}
