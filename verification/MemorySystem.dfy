/**
 The memory hierarchy of lab 2 as the pipeline drives it: in every cycle first the interconnect, then the
 memory controller.  The blocks in the controller's two lists are exactly those that the miss protocol
 has handed over and not got back.
 */
module MemorySystem {
  import opened Common
  import opened Interconnect
  import M = MissProtocol
  import D = DramScheduler

  // ---- the blocks of a list of requests ----

  /** The requests are for these blocks, one request for each. */
  ghost predicate Lists(rs: seq<D.Request>, blocks: set<nat>) {
    if rs == [] then blocks == {} else
      var b := rs[|rs| - 1].block;
      b in blocks && Lists(rs[..|rs| - 1], blocks - {b})
  }

  lemma ListsPush(rs: seq<D.Request>, blocks: set<nat>, r: D.Request, after: seq<D.Request>)
    requires Lists(rs, blocks) && r.block !in blocks && after == rs + [r]
    ensures Lists(after, blocks + {r.block})
  {
    assert after[..|rs|] == rs;
    assert blocks + {r.block} - {r.block} == blocks;
  }

  lemma {:induction false} ListsSame(rs: seq<D.Request>, qs: seq<D.Request>, blocks: set<nat>)
    requires Lists(qs, blocks) && D.SameRequests(rs, qs)
    ensures Lists(rs, blocks)
  {
    if rs != [] {
      var last := |rs| - 1;
      ListsSame(rs[..last], qs[..last], blocks - {qs[last].block});
    }
  }

  lemma PutBack(blocks: set<nat>, b: nat, c: nat)
    requires b in blocks && b != c
    ensures blocks - {b} - {c} + {b} == blocks - {c}
  {
  }

  lemma WithoutLast(rs: seq<D.Request>, i: nat)
    requires i < |rs|
    ensures i == |rs| - 1 ==> Without(rs, i) == rs[..i]
    ensures i < |rs| - 1 ==> Without(rs, i) == Without(rs[..|rs| - 1], i) + [rs[|rs| - 1]]
  {
  }

  lemma {:induction false} ListsWithout(rs: seq<D.Request>, blocks: set<nat>, i: nat)
    requires Lists(rs, blocks) && i < |rs|
    ensures rs[i].block in blocks && Lists(Without(rs, i), blocks - {rs[i].block})
  {
    var last := |rs| - 1;
    var b, c := rs[last].block, rs[i].block;
    WithoutLast(rs, i);
    if i < last {
      var init, after := Without(rs[..last], i), Without(rs, i);
      ListsWithout(rs[..last], blocks - {b}, i);
      ListsPush(init, blocks - {b} - {c}, rs[last], after);
      PutBack(blocks, b, c);
      assert Lists(after, blocks - {c});
    }
  }

  lemma TakeOut(blocks: set<nat>, some: set<nat>, b: nat)
    requires b in blocks && some <= blocks - {b}
    ensures blocks - (some + {b}) == blocks - {b} - some
    ensures blocks - some == blocks - {b} - some + {b}
  {
  }

  function ServedBlocks(ongoing: seq<D.Request>, now: int): set<nat> {
    if ongoing == [] then {} else
      var r := ongoing[|ongoing| - 1];
      var some := ServedBlocks(ongoing[..|ongoing| - 1], now);
      if r.data.end <= now then some + {r.block} else some
  }

  lemma {:induction false} ListsServed(ongoing: seq<D.Request>, blocks: set<nat>, now: int)
    requires D.AllOk(ongoing) && Lists(ongoing, blocks)
    ensures ServedBlocks(ongoing, now) <= blocks
    ensures Lists(D.Served(ongoing, now), ServedBlocks(ongoing, now))
  {
    if ongoing != [] {
      var last := |ongoing| - 1;
      var r, some := ongoing[last], ServedBlocks(ongoing[..last], now);
      ListsServed(ongoing[..last], blocks - {r.block}, now);
      ListsPush(D.Served(ongoing[..last], now), some, r, D.Served(ongoing[..last], now) + [r]);
    }
  }

  /** What is retired and what is left are for different blocks. */
  lemma {:induction false} ListsUnserved(ongoing: seq<D.Request>, blocks: set<nat>, now: int)
    requires D.AllOk(ongoing) && Lists(ongoing, blocks)
    ensures Lists(D.Unserved(ongoing, now), blocks - ServedBlocks(ongoing, now))
  {
    if ongoing != [] {
      var last := |ongoing| - 1;
      var r, some := ongoing[last], ServedBlocks(ongoing[..last], now);
      ListsServed(ongoing[..last], blocks - {r.block}, now);
      ListsUnserved(ongoing[..last], blocks - {r.block}, now);
      TakeOut(blocks, some, r.block);
      ListsPush(D.Unserved(ongoing[..last], now), blocks - {r.block} - some, r, D.Unserved(ongoing[..last], now) + [r]);
    }
  }

  /** The blocks of the two lists of the memory controller. */
  ghost predicate Holds(s: D.State, blocks: set<nat>, pending: set<nat>) {
    pending <= blocks && Lists(s.pending, pending) && Lists(s.ongoing, blocks - pending)
  }

  lemma PickHolds(s: D.State, banks: seq<D.Bank>, t: D.State, pick: nat, pending: set<nat>, unserved: set<nat>)
    requires D.StateOk(s) && |banks| == D.NUM_BANKS && D.IsCycle(s, banks, t, pick)
    requires Lists(s.pending, pending) && Lists(D.Unserved(s.ongoing, s.now), unserved)
    requires forall b :: b in pending ==> b !in unserved
    ensures
      var b := s.pending[pick].block;
      b in pending && Lists(t.pending, pending - {b}) && Lists(t.ongoing, unserved + {b})
  {
    var b := s.pending[pick].block;
    ListsWithout(s.pending, pending, pick);
    ListsSame(t.pending, Without(s.pending, pick), pending - {b});
    ListsPush(D.Unserved(s.ongoing, s.now), unserved, D.Assessed(s.pending[pick], banks, s.now), t.ongoing);
  }

  lemma MoveOne(blocks: set<nat>, pending: set<nat>, served: set<nat>, b: nat)
    requires pending <= blocks && served <= blocks - pending && b in pending
    ensures blocks - served - (pending - {b}) == blocks - pending - served + {b}
  {
  }

  /** A cycle of the memory controller: each of its blocks stays in one of the lists, or is sent back. */
  lemma CycleHolds(s: D.State, banks: seq<D.Bank>, t: D.State, pick: int, blocks: set<nat>, pending: set<nat>)
    returns (served: set<nat>, pendingNow: set<nat>)
    requires D.StateOk(s) && |banks| == D.NUM_BANKS && D.IsCycle(s, banks, t, pick)
    requires Holds(s, blocks, pending)
    ensures served <= blocks && Lists(D.Served(s.ongoing, s.now), served)
    ensures Holds(t, blocks - served, pendingNow)
  {
    served := ServedBlocks(s.ongoing, s.now);
    ListsServed(s.ongoing, blocks - pending, s.now);
    ListsUnserved(s.ongoing, blocks - pending, s.now);
    if pick < 0 {
      ListsSame(t.pending, s.pending, pending);
      pendingNow := pending;
      assert blocks - pending - served == blocks - served - pending;
    } else {
      PickHolds(s, banks, t, pick, pending, blocks - pending - served);
      MoveOne(blocks, pending, served, s.pending[pick].block);
      pendingNow := pending - {s.pending[pick].block};
    }
  }

  lemma {:induction false} RepliesInTurn(replies: seq<nat>, rs: seq<D.Request>, served: set<nat>, blocks: set<nat>)
    requires replies == D.BlocksOf(rs) && Lists(rs, served) && served <= blocks
    ensures InTurn(replies, blocks) && blocks - served == Left(replies, blocks)
  {
    if rs != [] {
      var last := |rs| - 1;
      assert replies[..last] == D.BlocksOf(rs[..last]);
      RepliesInTurn(replies[..last], rs[..last], served - {rs[last].block}, blocks);
      forall i | 0 <= i < |replies|
        ensures replies[i] in Left(replies[..i], blocks)
      {
        if i < last {
          assert replies[..last][..i] == replies[..i];
        }
      }
    }
  }

  /** What is left of `blocks` after these. */
  function Left(replies: seq<nat>, blocks: set<nat>): set<nat> {
    if replies == [] then blocks else Left(replies[..|replies| - 1], blocks) - {replies[|replies| - 1]}
  }

  /** One after the other can be taken from `blocks`. */
  ghost predicate InTurn(replies: seq<nat>, blocks: set<nat>) {
    forall i :: 0 <= i < |replies| ==> replies[i] in Left(replies[..i], blocks)
  }

  // ---- how many requests there can be ----

  lemma {:induction false} ListsSize(rs: seq<D.Request>, blocks: set<nat>)
    requires Lists(rs, blocks)
    ensures |blocks| == |rs|
  {
    if rs != [] {
      var last := |rs| - 1;
      ListsSize(rs[..last], blocks - {rs[last].block});
      assert blocks == blocks - {rs[last].block} + {rs[last].block};
    }
  }

  /** The blocks of some MSHRs are no more than these. */
  lemma {:induction false} MshrBlocks(mshrs: seq<M.Mshr>) returns (blocks: set<nat>)
    ensures |blocks| <= |mshrs| && forall i :: 0 <= i < |mshrs| ==> mshrs[i].block in blocks
  {
    blocks := {};
    if mshrs != [] {
      var last := |mshrs| - 1;
      var others := MshrBlocks(mshrs[..last]);
      blocks := others + {mshrs[last].block};
      assert forall i :: 0 <= i < last ==> mshrs[..last][i].block in others;
    }
  }

  /** There is an MSHR for each request. */
  lemma RequestsFit(requests: set<nat>, inFlight: set<nat>, mshrs: seq<M.Mshr>, rs: seq<D.Request>, pending: set<nat>)
    requires M.Matched(inFlight, mshrs) && pending <= requests <= inFlight && Lists(rs, pending)
    ensures |rs| <= |mshrs|
  {
    var blocks := MshrBlocks(mshrs);
    assert pending <= blocks;
    SubsetSize(pending, blocks);
    ListsSize(rs, pending);
  }

  // ---- the two together ----

  ghost predicate Known(blocks: seq<nat>, heap: M.Heap) {
    forall i :: 0 <= i < |blocks| ==> blocks[i] in heap
  }

  /** The requests for some blocks, by their tags. */
  function NewRequests(blocks: seq<nat>, heap: M.Heap): (rs: seq<D.Request>)
    requires Known(blocks, heap)
    ensures D.AllOk(rs) && D.BlocksOf(rs) == blocks
  {
    seq(|blocks|, i requires 0 <= i < |blocks| => D.NewRequest(blocks[i], heap[blocks[i]].tag))
  }

  lemma ArrivedNext(s: D.State, blocks: seq<nat>, heap: M.Heap, i: nat)
    requires Known(blocks, heap) && i < |blocks|
    ensures
      var sofar := D.Arrived(s, NewRequests(blocks[..i], heap));
      D.Arrived(s, NewRequests(blocks[..i + 1], heap))
        == sofar.(pending := sofar.pending + [D.NewRequest(blocks[i], heap[blocks[i]].tag)])
  {
    var r := D.NewRequest(blocks[i], heap[blocks[i]].tag);
    assert NewRequests(blocks[..i + 1], heap) == NewRequests(blocks[..i], heap) + [r];
    assert s.pending + (NewRequests(blocks[..i], heap) + [r]) == s.pending + NewRequests(blocks[..i], heap) + [r];
  }

  /** What one cycle of the hierarchy does to its queue and to the memory controller: what is due arrives there,
      and what has been served by then is sent back.  `left` is the queue after the cycle, before the caches send
      more, and `mshrs` are the MSHRs then. */
  ghost predicate IsStep(queue: seq<Message>, s: D.State, arrivals: seq<D.Request>, pick: int, banks: seq<D.Bank>,
                         t: D.State, left: seq<Message>, mshrs: seq<M.Mshr>) {
    var arrived := D.Arrived(s, arrivals);
    && D.StateOk(s) && D.AllOk(arrivals) && |banks| == D.NUM_BANKS
    && D.BlocksOf(arrivals) == M.Requested(Due(queue)) && |arrived.pending| <= M.MSHR_SIZE
    && D.IsCycle(arrived, banks, t, pick)
    && left == Kept(queue) + Answers(D.BlocksOf(D.Served(s.ongoing, s.now)))
    && M.Released(Due(queue), mshrs)
  }

  class MemorySystem {
    const hierarchy: M.Hierarchy
    const memory: D.Memory
    ghost var pending: set<nat>

    ghost predicate Linked()
      reads this, hierarchy, memory
    {
      Holds(memory.View(), hierarchy.requests, pending)
    }

    ghost predicate Valid()
      reads this, hierarchy, hierarchy.mshrs, memory, memory.banks
    {
      hierarchy.Valid() && memory.Valid() && Linked()
    }

    constructor ()
      ensures Valid() && fresh(hierarchy) && fresh(hierarchy.mshrs) && fresh(memory) && fresh(memory.banks)
      ensures hierarchy.messages == [] && memory.View() == D.State(0, [], [])
      ensures forall i :: 0 <= i < D.NUM_BANKS ==> !memory.banks[i].rowBufferOpen
    {
      var h := new M.Hierarchy();
      var m := new D.Memory();
      hierarchy, memory, pending := h, m, {};
    }

    /** Hand over the blocks that the interconnect has delivered to the memory controller. */
    method HandOver(added: seq<nat>, ghost requests0: set<nat>)
      requires memory.Valid() && Holds(memory.View(), requests0, pending)
      requires hierarchy.requests == requests0 + M.Elements(added) && M.AllNew(added, requests0)
      requires Known(added, hierarchy.heap)
      modifies this, memory`pending
      ensures memory.Valid() && Linked()
      ensures memory.View() == D.Arrived(old(memory.View()), NewRequests(added, hierarchy.heap))
    {
      var i := 0;
      ghost var s := memory.View();
      assert requests0 + M.Elements(added[..0]) == requests0;
      while i < |added|
        invariant 0 <= i <= |added|
        invariant memory.Valid()
        invariant Holds(memory.View(), requests0 + M.Elements(added[..i]), pending)
        invariant memory.View() == D.Arrived(s, NewRequests(added[..i], hierarchy.heap))
      {
        OneMore(added, requests0, i);
        ArrivedNext(s, added, hierarchy.heap, i);
        Add(added[i], hierarchy.heap[added[i]].tag, requests0 + M.Elements(added[..i]));
        i := i + 1;
      }
      assert added[..i] == added;
    }

    method SendBack(replies: seq<nat>)
      requires hierarchy.Valid() && InTurn(replies, hierarchy.requests)
      modifies hierarchy
      ensures hierarchy.Valid()
      ensures hierarchy.requests == Left(replies, old(hierarchy.requests))
      ensures hierarchy.messages == old(hierarchy.messages) + Answers(replies)
    {
      var i := 0;
      assert replies[..0] == [];
      ghost var requests0, messages0 := hierarchy.requests, hierarchy.messages;
      while i < |replies|
        invariant 0 <= i <= |replies| && hierarchy.Valid()
        invariant SentSoFar(replies, i, requests0, messages0, hierarchy.requests, hierarchy.messages)
      {
        SendMore(replies, i, requests0, messages0, hierarchy.requests, hierarchy.messages);
        hierarchy.Reply(replies[i]);
        i := i + 1;
      }
      assert replies[..i] == replies;
    }

    /** The memory controller's part of a cycle, once the new requests are in its list. */
    method RunMemory() returns (ghost pick: int)
      requires Valid()
      modifies this, hierarchy, memory
      ensures Valid()
      ensures hierarchy.messages ==
                old(hierarchy.messages) + Answers(D.BlocksOf(D.Served(old(memory.ongoing), old(memory.currCycle))))
      ensures D.IsCycle(old(memory.View()), memory.banks[..], memory.View(), pick)
    {
      ghost var s, blocks := memory.View(), hierarchy.requests;
      var replies;
      replies, pick := memory.Cycle();
      ghost var served, pendingNow := CycleHolds(s, memory.banks[..], memory.View(), pick, blocks, pending);
      RepliesInTurn(replies, D.Served(s.ongoing, s.now), served, blocks);
      pending := pendingNow;
      SendBack(replies);
    }

    lemma PendingFits()
      requires Valid()
      ensures |memory.pending| <= M.MSHR_SIZE
    {
      RequestsFit(hierarchy.requests, hierarchy.inFlight, hierarchy.mshrs[..], memory.pending, pending);
    }

    /** One cycle of the memory hierarchy: due messages are delivered, those for the memory controller become
        its newest requests, it runs, and what it has served is sent back. */
    method Cycle() returns (ghost arrivals: seq<D.Request>, ghost pick: int)
      requires Valid()
      modifies this, hierarchy, hierarchy.mshrs, memory
      ensures Valid()
      ensures Known(M.Requested(Due(old(hierarchy.messages))), old(hierarchy.heap))
      ensures arrivals == NewRequests(M.Requested(Due(old(hierarchy.messages))), old(hierarchy.heap))
      ensures IsStep(old(hierarchy.messages), old(memory.View()), arrivals, pick, memory.banks[..],
                     memory.View(), hierarchy.messages, hierarchy.mshrs[..])
    {
      hide D.IsCycle, D.Exclusive, D.Remembers, Lists, M.MshrsDiffer, Kept, Due, Answers, M.Requested;
      ghost var requests0, heap0 := hierarchy.requests, hierarchy.heap;
      var requested := hierarchy.InterconnectCycle();
      hierarchy.AddedInHeap(requested, requests0);
      arrivals := NewRequests(requested, hierarchy.heap);
      assert forall i :: 0 <= i < |requested| ==> requested[i] in heap0;
      assert arrivals == NewRequests(requested, heap0);
      HandOver(requested, requests0);
      PendingFits();
      pick := RunMemory();
    }

    method Add(b: nat, tag: nat, ghost blocks: set<nat>)
      requires memory.Valid() && Holds(memory.View(), blocks, pending) && b !in blocks
      modifies this, memory`pending
      ensures memory.Valid() && Holds(memory.View(), blocks + {b}, pending)
      ensures memory.View() == old(memory.View()).(pending := old(memory.pending) + [D.NewRequest(b, tag)])
    {
      AddHolds(memory.View(), blocks, pending, b, tag);
      memory.AddRequest(b, tag);
      pending := pending + {b};
    }
  }

  /** The memory controller's answers, in the order in which it has served them. */
  function Answers(replies: seq<nat>): (messages: seq<Message>)
    ensures |messages| == |replies|
  {
    if replies == [] then [] else
      Answers(replies[..|replies| - 1]) + [Sent(replies[|replies| - 1], MEMORY_LATENCY, MemToL2)]
  }

  ghost predicate SentSoFar(replies: seq<nat>, i: nat, requests0: set<nat>, messages0: seq<Message>,
                            requests: set<nat>, messages: seq<Message>) {
    i <= |replies| && requests == Left(replies[..i], requests0) && messages == messages0 + Answers(replies[..i])
  }

  lemma SendMore(replies: seq<nat>, i: nat, requests0: set<nat>, messages0: seq<Message>,
                 requests: set<nat>, messages: seq<Message>)
    requires SentSoFar(replies, i, requests0, messages0, requests, messages) && i < |replies|
    requires InTurn(replies, requests0)
    ensures replies[i] in requests
    ensures SentSoFar(replies, i + 1, requests0, messages0, requests - {replies[i]},
                      messages + [Sent(replies[i], MEMORY_LATENCY, MemToL2)])
  {
    assert replies[..i + 1][..i] == replies[..i];
  }

  lemma OneMore(added: seq<nat>, requests: set<nat>, i: nat)
    requires i < |added|
    ensures requests + M.Elements(added[..i + 1]) == requests + M.Elements(added[..i]) + {added[i]}
  {
    assert added[..i + 1][..i] == added[..i];
  }

  lemma AddHolds(s: D.State, blocks: set<nat>, pending: set<nat>, b: nat, tag: nat)
    requires Holds(s, blocks, pending) && b !in blocks
    ensures Holds(s.(pending := s.pending + [D.NewRequest(b, tag)]), blocks + {b}, pending + {b})
  {
    ListsPush(s.pending, pending, D.NewRequest(b, tag), s.pending + [D.NewRequest(b, tag)]);
    assert blocks + {b} - (pending + {b}) == blocks - pending;
  }
}
