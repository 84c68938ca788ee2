/**
 The list of ongoing requests of the DRAM scheduler (lab 2): the newest request is at its head, and a cycle
 goes through it from the tail, removing requests on the way.
 */
module RetireList {
  import opened Common
  import opened LinkedList
  import opened DramScheduler

  function Reversed<T>(s: seq<T>): (r: seq<T>)
    ensures |r| == |s| && forall k :: 0 <= k < |s| ==> r[k] == s[|s| - 1 - k]
  {
    seq(|s|, k requires 0 <= k < |s| => s[|s| - 1 - k])
  }

  lemma ReversedAppend<T>(s: seq<T>, x: T)
    ensures Reversed(s + [x]) == [x] + Reversed(s)
  {
  }

  ghost predicate Inside(nodes: seq<Node<Request>>, footprint: set<Node<Request>>) {
    forall k :: 0 <= k < |nodes| ==> nodes[k] in footprint
  }

  /** A traversal from the tail that has visited i nodes: the others are untouched, and of the visited ones
      the unserved ones are left. */
  ghost predicate Retired(nodes0: seq<Node<Request>>, values0: seq<Request>, i: nat, now: int,
                          nodes: seq<Node<Request>>, values: seq<Request>, replies: seq<nat>) {
    && i <= |nodes0| == |values0| && |nodes0| - i <= |nodes| && AllOk(Reversed(values0))
    && nodes[..|nodes0| - i] == nodes0[..|nodes0| - i]
    && values == values0[..|nodes0| - i] + Reversed(Unserved(Reversed(values0)[..i], now))
    && replies == BlocksOf(Served(Reversed(values0)[..i], now))
  }

  lemma RetiredNext(nodes0: seq<Node<Request>>, values0: seq<Request>, i: nat, now: int)
    requires i < |nodes0| == |values0| && AllOk(Reversed(values0))
    ensures
      var oldest, m := Reversed(values0), |nodes0| - 1 - i;
      if values0[m].data.end <= now then
        && Unserved(oldest[..i + 1], now) == Unserved(oldest[..i], now)
        && BlocksOf(Served(oldest[..i + 1], now)) == BlocksOf(Served(oldest[..i], now)) + [values0[m].block]
      else
        && Reversed(Unserved(oldest[..i + 1], now)) == [values0[m]] + Reversed(Unserved(oldest[..i], now))
        && Served(oldest[..i + 1], now) == Served(oldest[..i], now)
  {
    var oldest, m := Reversed(values0), |nodes0| - 1 - i;
    assert oldest[..i + 1][..i] == oldest[..i] && oldest[i] == values0[m];
    ReversedAppend(Unserved(oldest[..i], now), values0[m]);
  }

  lemma RetiredKeep(nodes0: seq<Node<Request>>, values0: seq<Request>, i: nat, now: int,
                    nodes: seq<Node<Request>>, values: seq<Request>, replies: seq<nat>)
    requires Retired(nodes0, values0, i, now, nodes, values, replies) && i < |nodes0|
    requires values0[|nodes0| - 1 - i].data.end > now
    ensures Retired(nodes0, values0, i + 1, now, nodes, values, replies)
  {
    var m := |nodes0| - 1 - i;
    RetiredNext(nodes0, values0, i, now);
    assert nodes[..m] == nodes[..m + 1][..m];
    assert values0[..m + 1] == values0[..m] + [values0[m]];
  }

  lemma RetiredRemove(nodes0: seq<Node<Request>>, values0: seq<Request>, i: nat, now: int,
                      nodes: seq<Node<Request>>, values: seq<Request>, replies: seq<nat>)
    requires Retired(nodes0, values0, i, now, nodes, values, replies) && i < |nodes0| && |nodes| == |values|
    requires values0[|nodes0| - 1 - i].data.end <= now
    ensures
      var m := |nodes0| - 1 - i;
      Retired(nodes0, values0, i + 1, now, Without(nodes, m), Without(values, m), replies + [values0[m].block])
  {
    var m := |nodes0| - 1 - i;
    RetiredNext(nodes0, values0, i, now);
    assert Without(nodes, m)[..m] == nodes[..m + 1][..m];
    assert Without(values, m) == values0[..m] + Reversed(Unserved(Reversed(values0)[..i], now));
  }

  class OngoingList {
    const requests: List<Request>

    constructor ()
      ensures fresh(requests) && requests.Valid() && requests.values == []
    {
      requests := new List();
    }

    /** A request has been scheduled: it is the newest one. */
    method Start(r: Request)
      requires requests.Valid()
      modifies requests, requests.nodes
      ensures requests.Valid() && requests.values == [r] + old(requests.values)
      ensures Reversed(requests.values) == Reversed(old(requests.values)) + [r]
    {
      var node := new Node(r);
      requests.LPush(node);
    }

    ghost predicate Halfway(nodes0: seq<Node<Request>>, values0: seq<Request>, i: nat, now: int, replies: seq<nat>,
                            footprint: set<Node<Request>>)
      reads requests, requests.nodes
    {
      && requests.Valid() && Inside(requests.nodes, footprint)
      && Retired(nodes0, values0, i, now, requests.nodes, requests.values, replies)
    }

    /** Every request is visited once, from the oldest one on, and exactly those whose data have passed are
        removed and answered, in that order. */
    method Retire(now: int) returns (replies: seq<nat>, ghost visited: seq<Node<Request>>)
      requires requests.Valid() && AllOk(Reversed(requests.values))
      modifies requests, requests.nodes
      ensures requests.Valid()
      ensures Reversed(requests.values) == Unserved(Reversed(old(requests.values)), now)
      ensures replies == BlocksOf(Served(Reversed(old(requests.values)), now))
      ensures visited == Reversed(old(requests.nodes))
    {
      var it := new Iterator(requests, false);
      ghost var footprint := set node | node in requests.nodes;
      Begin(now, footprint);
      replies, visited := Traverse(it, now, requests.nodes, requests.values, footprint);
    }

    method Traverse(it: Iterator<Request>, now: int, ghost nodes0: seq<Node<Request>>, ghost values0: seq<Request>,
                    ghost footprint: set<Node<Request>>)
      returns (replies: seq<nat>, ghost visited: seq<Node<Request>>)
      requires Halfway(nodes0, values0, 0, now, [], footprint)
      requires !it.fromHead && it.next == At(nodes0, |nodes0| - 1)
      requires nodes0 != [] ==> nodes0[|nodes0| - 1].prev == At(nodes0, |nodes0| - 2)
      modifies it, requests, footprint
      ensures requests.Valid() && AllOk(Reversed(values0)) && visited == Reversed(nodes0)
      ensures Reversed(requests.values) == Unserved(Reversed(values0), now)
      ensures replies == BlocksOf(Served(Reversed(values0), now))
    {
      replies, visited := [], [];
      ghost var i := 0;
      var node := it.Next();
      while node != null
        invariant i <= |nodes0| && node == At(nodes0, |nodes0| - 1 - i) && visited == Reversed(nodes0)[..i]
        invariant Halfway(nodes0, values0, i, now, replies, footprint)
        invariant !it.fromHead && it.next == At(nodes0, |nodes0| - 2 - i)
        decreases |nodes0| - i
      {
        replies := Visit(node, now, nodes0, values0, i, replies, footprint);
        VisitedNext(Reversed(nodes0), i, node, visited);
        visited, i := visited + [node], i + 1;
        node := it.Next();
      }
      Finish(nodes0, values0, now, replies, footprint);
    }

    lemma Begin(now: int, footprint: set<Node<Request>>)
      requires requests.Valid() && Inside(requests.nodes, footprint) && AllOk(Reversed(requests.values))
      ensures Halfway(requests.nodes, requests.values, 0, now, [], footprint)
      ensures
        var nodes := requests.nodes;
        nodes != [] ==> nodes[|nodes| - 1].prev == At(nodes, |nodes| - 2)
    {
      assert requests.nodes != [] ==> InPlace(requests.nodes, requests.values, |requests.nodes| - 1);
      assert Reversed(requests.values)[..0] == [];
    }

    lemma Finish(nodes0: seq<Node<Request>>, values0: seq<Request>, now: int, replies: seq<nat>,
                 footprint: set<Node<Request>>)
      requires Halfway(nodes0, values0, |nodes0|, now, replies, footprint)
      ensures requests.Valid() && AllOk(Reversed(values0))
      ensures Reversed(requests.values) == Unserved(Reversed(values0), now)
      ensures replies == BlocksOf(Served(Reversed(values0), now))
    {
      assert Reversed(values0)[..|nodes0|] == Reversed(values0);
    }

    /** The node to be visited has not been touched. */
    lemma Untouched(nodes0: seq<Node<Request>>, values0: seq<Request>, i: nat, now: int, replies: seq<nat>,
                    footprint: set<Node<Request>>)
      requires Halfway(nodes0, values0, i, now, replies, footprint) && i < |nodes0|
      ensures
        var m := |nodes0| - 1 - i;
        && m < |requests.nodes| && requests.nodes[m] == nodes0[m]
        && nodes0[m].prev == At(nodes0, m - 1) && nodes0[m].val == values0[m]
    {
      var m := |nodes0| - 1 - i;
      assert requests.nodes[..m + 1][m] == nodes0[..m + 1][m];
      assert m > 0 ==> requests.nodes[..m + 1][m - 1] == nodes0[..m + 1][m - 1];
      assert InPlace(requests.nodes, requests.values, m);
    }

    /** Answer the request and remove its node, if its data have passed. */
    method Settle(node: Node<Request>, now: int, ghost nodes0: seq<Node<Request>>, ghost values0: seq<Request>,
                  ghost i: nat, replies: seq<nat>, ghost footprint: set<Node<Request>>)
      returns (repliesNow: seq<nat>)
      requires Halfway(nodes0, values0, i, now, replies, footprint) && node == At(nodes0, |nodes0| - 1 - i)
      modifies requests, footprint
      ensures Halfway(nodes0, values0, i + 1, now, repliesNow, footprint)
    {
      Untouched(nodes0, values0, i, now, replies, footprint);
      var r := node.val;
      if r.data.end <= now {
        RetiredRemove(nodes0, values0, i, now, requests.nodes, requests.values, replies);
        requests.Remove(node, |nodes0| - 1 - i);
        repliesNow := replies + [r.block];
      } else {
        RetiredKeep(nodes0, values0, i, now, requests.nodes, requests.values, replies);
        repliesNow := replies;
      }
    }

    /** ... and the node that comes next has not been touched. */
    method Visit(node: Node<Request>, now: int, ghost nodes0: seq<Node<Request>>, ghost values0: seq<Request>,
                 ghost i: nat, replies: seq<nat>, ghost footprint: set<Node<Request>>)
      returns (repliesNow: seq<nat>)
      requires Halfway(nodes0, values0, i, now, replies, footprint) && node == At(nodes0, |nodes0| - 1 - i)
      modifies requests, footprint
      ensures Halfway(nodes0, values0, i + 1, now, repliesNow, footprint)
      ensures i + 1 < |nodes0| ==> nodes0[|nodes0| - 2 - i].prev == At(nodes0, |nodes0| - 3 - i)
    {
      repliesNow := Settle(node, now, nodes0, values0, i, replies, footprint);
      if i + 1 < |nodes0| {
        Untouched(nodes0, values0, i + 1, now, repliesNow, footprint);
      }
    }
  }
}
