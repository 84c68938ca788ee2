/**
 The miss protocol between the L1 caches, the L2 cache and the memory controller (lab 2).  Cache blocks
 are allocated for every L1 miss and passed around by pointer: through the latency queue, the memory
 controller's lists, and the miss status holding registers (MSHRs).  A pointer is a number here, and the
 heap maps the allocated ones to their contents, so reading or freeing a freed block is an error.
 Whether an L2 probe hits is an input, so the results hold for all contents of the cache arrays.
 */
module MissProtocol {
  import opened Interconnect

  const MSHR_SIZE: nat := 16

  /** A block: its tag and the L1 cache that asked for it. */
  datatype CacheBlock = CacheBlock(tag: nat, l1: nat)

  type Pointer = nat
  type Heap = map<Pointer, CacheBlock>

  datatype Mshr = Mshr(block: Pointer, valid: bool, done: bool)

  // ---- the MSHRs ----

  predicate IsBusy(mshrs: seq<Mshr>, i: int) {
    0 <= i < |mshrs| && !mshrs[i].done
  }

  function Busy(mshrs: seq<Mshr>): nat {
    if mshrs == [] then 0 else
      Busy(mshrs[..|mshrs| - 1]) + if mshrs[|mshrs| - 1].done then 0 else 1
  }

  lemma {:induction false} AllFree(mshrs: seq<Mshr>)
    requires forall i :: 0 <= i < |mshrs| ==> mshrs[i].done
    ensures Busy(mshrs) == 0
  {
    if mshrs != [] {
      AllFree(mshrs[..|mshrs| - 1]);
    }
  }

  /** A count below the size means that some MSHR is free. */
  lemma {:induction false} SomeIsFree(mshrs: seq<Mshr>)
    requires Busy(mshrs) < |mshrs|
    ensures exists i :: 0 <= i < |mshrs| && mshrs[i].done
  {
    var last := |mshrs| - 1;
    if !mshrs[last].done {
      SomeIsFree(mshrs[..last]);
      var i :| 0 <= i < last && mshrs[..last][i].done;
      assert mshrs[i].done;
    }
  }

  lemma {:induction false} AfterChange(mshrs: seq<Mshr>, i: nat, m: Mshr)
    requires i < |mshrs|
    ensures Busy(mshrs[i := m]) == Busy(mshrs) + (if m.done then 0 else 1) - (if mshrs[i].done then 0 else 1)
  {
    var last := |mshrs| - 1;
    if i < last {
      AfterChange(mshrs[..last], i, m);
      assert mshrs[i := m][..last] == mshrs[..last][i := m];
    } else {
      assert mshrs[i := m][..last] == mshrs[..last];
    }
  }

  // ---- the invariant ----

  /** The MSHRs in use point to allocated blocks that differ in tag or L1 cache. */
  ghost predicate MshrsDiffer(heap: Heap, mshrs: seq<Mshr>) {
    && (forall i :: IsBusy(mshrs, i) ==> mshrs[i].block in heap)
    && (forall i, j :: IsBusy(mshrs, i) && IsBusy(mshrs, j) && i != j ==>
          heap[mshrs[i].block] != heap[mshrs[j].block])
  }

  /** The blocks in flight are exactly the blocks of the MSHRs in use. */
  ghost predicate Matched(inFlight: set<Pointer>, mshrs: seq<Mshr>) {
    && (forall i :: IsBusy(mshrs, i) ==> mshrs[i].block in inFlight)
    && (forall b :: b in inFlight ==> exists i :: IsBusy(mshrs, i) && mshrs[i].block == b)
  }

  /** The blocks in flight to, in, or back from the memory controller are those of the MSHRs in use, and
      the counter counts these.  A block on its way to L1 is allocated and belongs to no MSHR. */
  ghost predicate Conserved(heap: Heap, nextPointer: Pointer, toL1: set<Pointer>, inFlight: set<Pointer>,
                            mshrs: seq<Mshr>, mshrCount: int) {
    && |mshrs| == MSHR_SIZE
    && mshrCount == Busy(mshrs)
    && MshrsDiffer(heap, mshrs)
    && Matched(inFlight, mshrs)
    && toL1 <= heap.Keys && toL1 !! inFlight
    && (forall b :: b in heap ==> b < nextPointer)
  }

  /** Where the blocks are: in messages, or with the memory controller; each is in one place only. */
  ghost predicate Located(messages: seq<Message>, requests: set<Pointer>, toL1: set<Pointer>, inFlight: set<Pointer>) {
    && Apart(messages)
    && (forall i :: 0 <= i < |messages| ==> messages[i].block !in requests)
    && toL1 == Carried(messages, L2ToL1)
    && inFlight == Carried(messages, L2ToMem) + requests + Carried(messages, MemToL2)
  }

  lemma DifferentBlocks(heap: Heap, mshrs: seq<Mshr>, i: nat, j: nat)
    requires MshrsDiffer(heap, mshrs) && IsBusy(mshrs, i) && IsBusy(mshrs, j)
    ensures heap[mshrs[i].block] == heap[mshrs[j].block] ==> i == j
  {
  }

  lemma NewBlockKeeps(heap: Heap, nextPointer: Pointer, toL1: set<Pointer>, inFlight: set<Pointer>,
                      mshrs: seq<Mshr>, mshrCount: int, content: CacheBlock)
    requires Conserved(heap, nextPointer, toL1, inFlight, mshrs, mshrCount)
    ensures nextPointer !in toL1 && nextPointer !in inFlight && nextPointer !in heap
    ensures Conserved(heap[nextPointer := content], nextPointer + 1, toL1, inFlight, mshrs, mshrCount)
  {
    assert forall b :: b in toL1 ==> b in heap;
  }

  lemma AllocateKeeps(heap: Heap, nextPointer: Pointer, toL1: set<Pointer>, inFlight: set<Pointer>,
                      mshrs: seq<Mshr>, mshrCount: int, i: nat, b: Pointer)
    requires Conserved(heap, nextPointer, toL1, inFlight, mshrs, mshrCount)
    requires b in heap && b !in toL1 && i < |mshrs| && mshrs[i].done
    requires forall j :: IsBusy(mshrs, j) ==> heap[mshrs[j].block] != heap[b]
    ensures Conserved(heap, nextPointer, toL1, inFlight + {b}, mshrs[i := Mshr(b, true, false)], mshrCount + 1)
  {
    var after := mshrs[i := Mshr(b, true, false)];
    AfterChange(mshrs, i, after[i]);
    assert forall j :: IsBusy(after, j) <==> j == i || IsBusy(mshrs, j);
    forall c | c in inFlight + {b}
      ensures exists j :: IsBusy(after, j) && after[j].block == c
    {
      if c == b {
        assert IsBusy(after, i);
      } else {
        var j :| IsBusy(mshrs, j) && mshrs[j].block == c;
        assert IsBusy(after, j);
      }
    }
  }

  /** A fill frees its block once, and nothing that is left leads to that block. */
  lemma ReleaseKeeps(heap: Heap, nextPointer: Pointer, toL1: set<Pointer>, inFlight: set<Pointer>,
                     mshrs: seq<Mshr>, mshrCount: int, i: nat)
    requires Conserved(heap, nextPointer, toL1, inFlight, mshrs, mshrCount) && IsBusy(mshrs, i)
    ensures
      var b := mshrs[i].block;
      && b in heap && b in inFlight
      && Conserved(heap - {b}, nextPointer, toL1, inFlight - {b}, mshrs[i := Mshr(b, false, true)], mshrCount - 1)
  {
    var b := mshrs[i].block;
    var after := mshrs[i := Mshr(b, false, true)];
    AfterChange(mshrs, i, after[i]);
    forall j | IsBusy(after, j)
      ensures j != i && IsBusy(mshrs, j) && mshrs[j].block != b
    {
      DifferentBlocks(heap, mshrs, i, j);
    }
    forall c | c in inFlight - {b}
      ensures exists j :: IsBusy(after, j) && after[j].block == c
    {
      var j :| IsBusy(mshrs, j) && mshrs[j].block == c;
      assert IsBusy(after, j);
    }
  }

  lemma CancelKeeps(heap: Heap, nextPointer: Pointer, toL1: set<Pointer>, inFlight: set<Pointer>,
                    mshrs: seq<Mshr>, mshrCount: int, i: nat)
    requires Conserved(heap, nextPointer, toL1, inFlight, mshrs, mshrCount) && i < |mshrs|
    ensures Conserved(heap, nextPointer, toL1, inFlight, mshrs[i := mshrs[i].(valid := false)], mshrCount)
  {
    var after := mshrs[i := mshrs[i].(valid := false)];
    AfterChange(mshrs, i, after[i]);
    assert forall j :: IsBusy(after, j) <==> IsBusy(mshrs, j);
  }

  lemma DeliverKeeps(heap: Heap, nextPointer: Pointer, toL1: set<Pointer>, inFlight: set<Pointer>,
                     mshrs: seq<Mshr>, mshrCount: int, b: Pointer)
    requires Conserved(heap, nextPointer, toL1, inFlight, mshrs, mshrCount) && b in toL1
    ensures b in heap
    ensures Conserved(heap - {b}, nextPointer, toL1 - {b}, inFlight, mshrs, mshrCount)
  {
  }

  /** A block in flight belongs to an MSHR, and searching by tag and L1 cache finds that very MSHR. */
  lemma FindsItsMshr(heap: Heap, nextPointer: Pointer, toL1: set<Pointer>, inFlight: set<Pointer>,
                     mshrs: seq<Mshr>, mshrCount: int, b: Pointer) returns (k: nat)
    requires Conserved(heap, nextPointer, toL1, inFlight, mshrs, mshrCount) && b in inFlight
    ensures b in heap
    ensures IsBusy(mshrs, k) && mshrs[k].block == b
    ensures forall i :: IsBusy(mshrs, i) && i != k ==> heap[mshrs[i].block] != heap[b]
  {
    k :| IsBusy(mshrs, k) && mshrs[k].block == b;
    forall i | IsBusy(mshrs, i) && i != k
      ensures heap[mshrs[i].block] != heap[b]
    {
      DifferentBlocks(heap, mshrs, i, k);
    }
  }

  /** One to one: the blocks in flight lie in pairwise different places, one for each MSHR in use. */
  lemma OnePlaceEach(heap: Heap, nextPointer: Pointer, messages: seq<Message>, requests: set<Pointer>,
                     toL1: set<Pointer>, inFlight: set<Pointer>, mshrs: seq<Mshr>, mshrCount: int, i: nat)
    requires Conserved(heap, nextPointer, toL1, inFlight, mshrs, mshrCount) && IsBusy(mshrs, i)
    requires Located(messages, requests, toL1, inFlight)
    ensures mshrs[i].block in requests <==> forall k :: 0 <= k < |messages| ==> messages[k].block != mshrs[i].block
    ensures forall k :: 0 <= k < |messages| && messages[k].block == mshrs[i].block ==> messages[k].dir != L2ToL1
    ensures forall k, l :: 0 <= k < l < |messages| ==> messages[k].block != messages[l].block
    ensures forall j :: IsBusy(mshrs, j) && mshrs[j].block == mshrs[i].block ==> i == j
  {
    var b := mshrs[i].block;
    forall j | IsBusy(mshrs, j) && mshrs[j].block == b
      ensures i == j
    {
      DifferentBlocks(heap, mshrs, i, j);
    }
    if b !in requests {
      var k := CarriedBy(messages, if b in Carried(messages, L2ToMem) then L2ToMem else MemToL2, b);
    }
    forall k | 0 <= k < |messages| && messages[k].block == b
      ensures messages[k].dir != L2ToL1
    {
      CarriedHas(messages, k);
    }
  }

  // ---- moving blocks ----

  lemma {:induction false} CarriedHas(messages: seq<Message>, k: nat)
    requires k < |messages|
    ensures messages[k].block in Carried(messages, messages[k].dir)
  {
    if k < |messages| - 1 {
      CarriedHas(messages[..|messages| - 1], k);
    }
  }

  /** A block that is nowhere yet is sent on its way. */
  lemma PushLocated(messages: seq<Message>, m: Message, after: seq<Message>,
                    requests: set<Pointer>, toL1: set<Pointer>, inFlight: set<Pointer>)
    requires Located(messages, requests, toL1, inFlight) && after == messages + [m]
    requires m.block !in toL1 && m.block !in inFlight
    ensures Located(after, requests, if m.dir == L2ToL1 then toL1 + {m.block} else toL1,
                    if m.dir == L2ToL1 then inFlight else inFlight + {m.block})
  {
    CarriedPush(messages, m, L2ToL1);
    CarriedPush(messages, m, L2ToMem);
    CarriedPush(messages, m, MemToL2);
    forall i | 0 <= i < |messages|
      ensures messages[i].block != m.block
    {
      CarriedHas(messages, i);
    }
  }

  /** The memory controller sends back a block. */
  lemma ReplyLocated(messages: seq<Message>, m: Message, after: seq<Message>,
                     requests: set<Pointer>, toL1: set<Pointer>, inFlight: set<Pointer>)
    requires Located(messages, requests, toL1, inFlight) && after == messages + [m]
    requires m.dir == MemToL2 && m.block in requests
    ensures Located(after, requests - {m.block}, toL1, inFlight)
  {
    CarriedPush(messages, m, L2ToL1);
    CarriedPush(messages, m, L2ToMem);
    CarriedPush(messages, m, MemToL2);
  }

  lemma StepCarries(kept: seq<Message>, m: Message, rest: seq<Message>, dir: Direction)
    ensures Carried(kept + ([m] + rest), dir) ==
              if m.dir == dir then Carried(kept + rest, dir) + {m.block} else Carried(kept + rest, dir)
  {
    CarriedConcat(kept, rest, dir);
    CarriedConcat(kept + [m], rest, dir);
    CarriedPush(kept, m, dir);
    assert kept + ([m] + rest) == kept + [m] + rest;
  }

  /** A message that stays comes one cycle nearer. */
  lemma KeptLocated(left: seq<Message>, kept: seq<Message>, m: Message, rest: seq<Message>, after: seq<Message>,
                    requests: set<Pointer>, toL1: set<Pointer>, inFlight: set<Pointer>)
    requires left == kept + ([m] + rest) && m.cycles > 0 && after == kept + [m.(cycles := m.cycles - 1)] + rest
    requires Located(left, requests, toL1, inFlight)
    ensures Located(after, requests, toL1, inFlight)
  {
    var nearer := m.(cycles := m.cycles - 1);
    assert after == kept + ([nearer] + rest);
    forall dir
      ensures Carried(after, dir) == Carried(left, dir)
    {
      StepCarries(kept, m, rest, dir);
      StepCarries(kept, nearer, rest, dir);
    }
    assert forall i :: 0 <= i < |after| ==> after[i].block == left[i].block;
  }

  /** A message that is delivered takes its block with it: no other place has that block. */
  lemma DeliveredLocated(left: seq<Message>, kept: seq<Message>, m: Message, rest: seq<Message>, after: seq<Message>,
                         requests: set<Pointer>, toL1: set<Pointer>, inFlight: set<Pointer>)
    requires left == kept + ([m] + rest) && after == kept + rest
    requires Located(left, requests, toL1, inFlight)
    ensures m.block in (if m.dir == L2ToL1 then toL1 else inFlight)
    ensures Located(after,
                    if m.dir == L2ToMem then requests + {m.block} else requests,
                    if m.dir == L2ToL1 then toL1 - {m.block} else toL1,
                    if m.dir == MemToL2 then inFlight - {m.block} else inFlight)
  {
    assert left[|kept|] == m;
    forall i | 0 <= i < |after|
      ensures after[i] == left[if i < |kept| then i else i + 1] && after[i].block != m.block
    {
    }
    forall dir
      ensures m.block !in Carried(after, dir)
    {
      if m.block in Carried(after, dir) {
        var i := CarriedBy(after, dir, m.block);
      }
    }
    StepCarries(kept, m, rest, L2ToL1);
    StepCarries(kept, m, rest, L2ToMem);
    StepCarries(kept, m, rest, MemToL2);
  }

  // ---- one cycle of the queue ----

  /** The blocks that the delivered messages free: those that end in an L1 cache or at the L2 cache. */
  function Freed(due: seq<Message>): set<Pointer> {
    if due == [] then {} else
      var m := due[|due| - 1];
      var freed := Freed(due[..|due| - 1]);
      if m.dir == L2ToMem then freed else freed + {m.block}
  }

  /** No MSHR is kept for the blocks that have come back from memory. */
  ghost predicate Released(due: seq<Message>, mshrs: seq<Mshr>) {
    forall m, i :: m in due && m.dir == MemToL2 && IsBusy(mshrs, i) ==> mshrs[i].block != m.block
  }

  lemma {:induction false} FreedHas(due: seq<Message>, m: Message)
    requires m in due && m.dir != L2ToMem
    ensures m.block in Freed(due)
  {
    var last := |due| - 1;
    if m != due[last] {
      FreedHas(due[..last], m);
    }
  }

  lemma FreedReleased(due: seq<Message>, heap: Heap, mshrs: seq<Mshr>)
    requires MshrsDiffer(heap, mshrs) && heap.Keys !! Freed(due)
    ensures Released(due, mshrs)
  {
    forall m | m in due && m.dir == MemToL2
      ensures m.block in Freed(due)
    {
      FreedHas(due, m);
    }
  }

  /** The blocks that the delivered messages hand to the memory controller. */
  function Requested(due: seq<Message>): seq<Pointer> {
    if due == [] then [] else
      var m := due[|due| - 1];
      var requested := Requested(due[..|due| - 1]);
      if m.dir == L2ToMem then requested + [m.block] else requested
  }

  function Elements(blocks: seq<Pointer>): set<Pointer> {
    if blocks == [] then {} else Elements(blocks[..|blocks| - 1]) + {blocks[|blocks| - 1]}
  }

  /** None of these is among `requests`, and no two are the same. */
  ghost predicate AllNew(added: seq<Pointer>, requests: set<Pointer>) {
    forall i :: 0 <= i < |added| ==> added[i] !in requests + Elements(added[..i])
  }

  lemma {:induction false} InElements(blocks: seq<Pointer>, i: nat)
    requires i < |blocks|
    ensures blocks[i] in Elements(blocks)
  {
    if i < |blocks| - 1 {
      InElements(blocks[..|blocks| - 1], i);
    }
  }

  /** What the messages before `i` have done. */
  ghost predicate SoFar(queue: seq<Message>, i: nat, kept: seq<Message>, heap0: Heap, heap: Heap,
                        requests0: set<Pointer>, requests: set<Pointer>, added: seq<Pointer>) {
    && i <= |queue|
    && kept == Kept(queue[..i])
    && heap == heap0 - Freed(Due(queue[..i]))
    && added == Requested(Due(queue[..i]))
    && requests == requests0 + Elements(added)
    && AllNew(added, requests0)
  }

  lemma AllNewPush(added: seq<Pointer>, requests: set<Pointer>, b: Pointer)
    requires AllNew(added, requests)
    ensures b !in requests + Elements(added) ==> AllNew(added + [b], requests)
  {
    var after := added + [b];
    forall i | 0 <= i < |added|
      ensures after[..i] == added[..i]
    {
    }
    assert after[..|added|] == added;
  }

  lemma MoreIsDue(queue: seq<Message>, i: nat)
    requires i < |queue|
    ensures
      var m := queue[i];
      if m.cycles > 0 then
        && Kept(queue[..i + 1]) == Kept(queue[..i]) + [m.(cycles := m.cycles - 1)]
        && Due(queue[..i + 1]) == Due(queue[..i])
      else
        Kept(queue[..i + 1]) == Kept(queue[..i]) && Due(queue[..i + 1]) == Due(queue[..i]) + [m]
  {
    assert queue[..i + 1][..i] == queue[..i] && queue[..i + 1][i] == queue[i];
  }

  lemma MoreIsFreed(due: seq<Message>, m: Message)
    ensures Freed(due + [m]) == if m.dir == L2ToMem then Freed(due) else Freed(due) + {m.block}
    ensures Requested(due + [m]) == if m.dir == L2ToMem then Requested(due) + [m.block] else Requested(due)
  {
    assert (due + [m])[..|due|] == due;
  }

  lemma ElementsPush(blocks: seq<Pointer>, b: Pointer)
    ensures Elements(blocks + [b]) == Elements(blocks) + {b}
  {
    assert (blocks + [b])[..|blocks|] == blocks;
  }

  lemma SoFarStep(queue: seq<Message>, i: nat, kept: seq<Message>, heap0: Heap, heap: Heap,
                  requests0: set<Pointer>, requests: set<Pointer>, added: seq<Pointer>,
                  keptNow: seq<Message>, heapNow: Heap, requestsNow: set<Pointer>, addedNow: seq<Pointer>)
    requires SoFar(queue, i, kept, heap0, heap, requests0, requests, added) && i < |queue|
    requires keptNow == if queue[i].cycles > 0 then kept + [queue[i].(cycles := queue[i].cycles - 1)] else kept
    requires heapNow == if queue[i].cycles > 0 || queue[i].dir == L2ToMem then heap else heap - {queue[i].block}
    requires requestsNow ==
               if queue[i].cycles == 0 && queue[i].dir == L2ToMem then requests + {queue[i].block} else requests
    requires addedNow == if queue[i].cycles == 0 && queue[i].dir == L2ToMem then added + [queue[i].block] else added
    requires queue[i].cycles == 0 && queue[i].dir == L2ToMem ==> queue[i].block !in requests
    ensures SoFar(queue, i + 1, keptNow, heap0, heapNow, requests0, requestsNow, addedNow)
  {
    var m, due := queue[i], Due(queue[..i]);
    AllNewPush(added, requests0, m.block);
    MoreIsDue(queue, i);
    MoreIsFreed(due, m);
    ElementsPush(added, m.block);
    hide Kept, Due, Freed, Requested, Elements, AllNew;
    assert heap0 - Freed(due) - {m.block} == heap0 - (Freed(due) + {m.block});
    assert requests0 + Elements(added) + {m.block} == requests0 + (Elements(added) + {m.block});
  }

  lemma SoFarEnds(queue: seq<Message>, kept: seq<Message>, heap0: Heap, heap: Heap,
                  requests0: set<Pointer>, requests: set<Pointer>, added: seq<Pointer>)
    requires SoFar(queue, |queue|, kept, heap0, heap, requests0, requests, added)
    ensures requests == requests0 + Elements(added) && AllNew(added, requests0)
    ensures kept == Kept(queue) && heap == heap0 - Freed(Due(queue)) && added == Requested(Due(queue))
  {
    assert queue[..|queue|] == queue;
  }

  // ---- the hierarchy ----

  datatype Answer = NoMshr | Hit | Merged | Missed

  /** The answer to a probe goes to the L1 cache, or a request to the memory controller; counting the cycle in which
      they are sent, they arrive in the 15th and in the 5th one. */
  function AfterProbe(messages: seq<Message>, answer: Answer, b: Pointer): (after: seq<Message>)
    ensures answer.Hit? ==> Message(b, 14, L2ToL1) in after
    ensures answer.Missed? ==> Message(b, 4, L2ToMem) in after
    ensures answer.NoMshr? || answer.Merged? ==> after == messages
  {
    match answer
    case NoMshr => messages
    case Hit => messages + [Sent(b, L2_TO_L1_LATENCY, L2ToL1)]
    case Merged => messages
    case Missed => messages + [Sent(b, MEMORY_LATENCY, L2ToMem)]
  }

  class Hierarchy {
    var heap: Heap
    var nextPointer: Pointer
    var messages: seq<Message>
    const mshrs: array<Mshr>
    var mshrCount: int
    /** The blocks that the memory controller has; all blocks in flight; and those on their way to L1. */
    ghost var requests: set<Pointer>
    ghost var inFlight: set<Pointer>
    ghost var toL1: set<Pointer>

    /** The MSHRs' part of the invariant. */
    ghost predicate Holds()
      reads this, mshrs
    {
      Conserved(heap, nextPointer, toL1, inFlight, mshrs[..], mshrCount)
    }

    ghost predicate Valid()
      reads this, mshrs
    {
      Holds() && Located(messages, requests, toL1, inFlight)
    }

    predicate IsBusyWith(i: nat, content: CacheBlock)
      requires IsBusy(mshrs[..], i) ==> mshrs[i].block in heap
      reads this, mshrs
    {
      IsBusy(mshrs[..], i) && heap[mshrs[i].block] == content
    }

    constructor ()
      ensures Valid() && fresh(mshrs) && requests == {} && messages == [] && mshrCount == 0
      ensures forall i :: 0 <= i < MSHR_SIZE ==> mshrs[i].done
    {
      heap, nextPointer, messages, mshrCount, requests, inFlight, toL1 := map[], 0, [], 0, {}, {}, {};
      mshrs := new Mshr[MSHR_SIZE](_ => Mshr(0, false, true));
      new;
      AllFree(mshrs[..]);
    }

    method FindMshr(content: CacheBlock) returns (found: int)
      requires mshrs.Length == MSHR_SIZE && MshrsDiffer(heap, mshrs[..])
      ensures if found >= 0 then found < MSHR_SIZE && IsBusyWith(found, content)
              else forall i: nat :: i < MSHR_SIZE ==> !IsBusyWith(i, content)
    {
      found := 0;
      while found < MSHR_SIZE
        invariant 0 <= found <= MSHR_SIZE && forall i: nat :: i < found ==> !IsBusyWith(i, content)
      {
        if !mshrs[found].done && heap[mshrs[found].block] == content {
          return;
        }
        found := found + 1;
      }
      found := -1;
    }

    /** A count below the number of MSHRs is enough: the search always ends at a free one. */
    method FindFree() returns (slot: nat)
      requires mshrs.Length == MSHR_SIZE && mshrCount == Busy(mshrs[..]) < MSHR_SIZE
      ensures slot < MSHR_SIZE && mshrs[slot].done && forall j :: 0 <= j < slot ==> !mshrs[j].done
    {
      SomeIsFree(mshrs[..]);
      slot := 0;
      while slot < MSHR_SIZE && !mshrs[slot].done
        invariant slot <= MSHR_SIZE && forall j :: 0 <= j < slot ==> !mshrs[j].done
      {
        slot := slot + 1;
      }
    }

    lemma NoneIsBusy(content: CacheBlock)
      requires mshrs.Length == MSHR_SIZE && MshrsDiffer(heap, mshrs[..])
      requires forall i: nat :: i < MSHR_SIZE ==> !IsBusyWith(i, content)
      ensures forall j :: IsBusy(mshrs[..], j) ==> heap[mshrs[..][j].block] != content
    {
      forall j | IsBusy(mshrs[..], j)
        ensures heap[mshrs[..][j].block] != content
      {
        assert !IsBusyWith(j, content);
      }
    }

    /** Give the block a free MSHR. */
    method Allocate(slot: nat, b: Pointer)
      requires Holds() && slot < MSHR_SIZE && mshrs[slot].done && b in heap && b !in toL1
      requires forall i: nat :: i < MSHR_SIZE ==> !IsBusyWith(i, heap[b])
      modifies this`mshrCount, this`inFlight, mshrs
      ensures Holds() && inFlight == old(inFlight) + {b}
      ensures mshrs[..] == old(mshrs[..])[slot := Mshr(b, true, false)] && mshrCount == old(mshrCount) + 1
    {
      NoneIsBusy(heap[b]);
      AllocateKeeps(heap, nextPointer, toL1, inFlight, mshrs[..], mshrCount, slot, b);
      mshrs[slot] := Mshr(b, true, false);
      mshrCount, inFlight := mshrCount + 1, inFlight + {b};
      assert mshrs[..] == old(mshrs[..])[slot := Mshr(b, true, false)];
    }

    /** Give the block a free MSHR and send it to the memory controller. */
    method RequestFromMemory(slot: nat, b: Pointer)
      requires Valid() && slot < MSHR_SIZE && mshrs[slot].done && b in heap && b !in toL1 && b !in inFlight
      requires forall i: nat :: i < MSHR_SIZE ==> !IsBusyWith(i, heap[b])
      modifies this`messages, this`mshrCount, this`inFlight, mshrs
      ensures Valid() && messages == AfterProbe(old(messages), Missed, b)
      ensures mshrs[..] == old(mshrs[..])[slot := Mshr(b, true, false)] && mshrCount == old(mshrCount) + 1
    {
      var m := Sent(b, MEMORY_LATENCY, L2ToMem);
      PushLocated(messages, m, messages + [m], requests, toL1, inFlight);
      Allocate(slot, b);
      messages := messages + [m];
      assert Located(messages, requests, toL1, inFlight);
      assert Holds();
    }

    /** Probe the L2 cache for a newly allocated block. */
    method Probe(b: Pointer, hit: bool) returns (answer: Answer, slot: nat)
      requires Valid() && b in heap && b !in toL1 && b !in inFlight
      modifies this`messages, this`mshrCount, this`inFlight, this`toL1, mshrs
      ensures Valid()
      ensures messages == AfterProbe(old(messages), answer, b)
      ensures answer.NoMshr? <==> old(mshrCount) >= MSHR_SIZE
      ensures answer.Hit? ==> hit
      ensures answer.Merged? ==> !hit && exists i: nat :: i < MSHR_SIZE && old(IsBusyWith(i, heap[b]))
      ensures !answer.Missed? ==> mshrs[..] == old(mshrs[..]) && mshrCount == old(mshrCount)
      ensures answer.Missed? ==>
                && !hit && (forall i: nat :: i < MSHR_SIZE ==> !old(IsBusyWith(i, heap[b])))
                && slot < MSHR_SIZE && old(mshrs[slot].done) && (forall j :: 0 <= j < slot ==> !old(mshrs[j].done))
                && mshrs[..] == old(mshrs[..])[slot := Mshr(b, true, false)] && mshrCount == old(mshrCount) + 1
    {
      slot := 0;
      if mshrCount >= MSHR_SIZE {
        return NoMshr, slot;
      }
      if hit {
        var m := Sent(b, L2_TO_L1_LATENCY, L2ToL1);
        PushLocated(messages, m, messages + [m], requests, toL1, inFlight);
        messages, toL1 := messages + [m], toL1 + {b};
        return Hit, slot;
      }
      var same := FindMshr(heap[b]);
      if same >= 0 {
        return Merged, slot;
      }
      forall i: nat | i < MSHR_SIZE
        ensures !old(IsBusyWith(i, heap[b]))
      {
        assert !IsBusyWith(i, heap[b]);
      }
      slot := FindFree();
      RequestFromMemory(slot, b);
      answer := Missed;
    }

    /** An L1 miss: allocate a block and probe for it.  When no MSHR takes it, nothing refers to it. */
    method L1Miss(tag: nat, l1: nat, hit: bool) returns (answer: Answer, slot: nat)
      requires Valid()
      modifies this, mshrs
      ensures Valid()
      ensures nextPointer == old(nextPointer) + 1 && requests == old(requests)
      ensures old(nextPointer) !in old(heap) && heap == old(heap)[old(nextPointer) := CacheBlock(tag, l1)]
      ensures messages == AfterProbe(old(messages), answer, old(nextPointer))
    {
      NewBlockKeeps(heap, nextPointer, toL1, inFlight, mshrs[..], mshrCount, CacheBlock(tag, l1));
      var b := nextPointer;
      heap, nextPointer := heap[b := CacheBlock(tag, l1)], b + 1;
      answer, slot := Probe(b, hit);
    }

    /** Cancel the request of an L1 cache for a block: the MSHR stays in use, but the fill will not be
        passed on. */
    method Cancel(content: CacheBlock)
      requires Holds()
      modifies mshrs
      ensures Holds()
      ensures forall i: nat :: i < MSHR_SIZE ==>
                mshrs[i] == if old(IsBusyWith(i, content)) then old(mshrs[i]).(valid := false) else old(mshrs[i])
    {
      var i := 0;
      while i < MSHR_SIZE
        invariant 0 <= i <= MSHR_SIZE && Holds()
        invariant forall j: nat :: j < i ==>
                    mshrs[j] == if old(IsBusyWith(j, content)) then old(mshrs[j]).(valid := false) else old(mshrs[j])
        invariant forall j: nat :: i <= j < MSHR_SIZE ==> mshrs[j] == old(mshrs[j])
      {
        if !mshrs[i].done && heap[mshrs[i].block] == content {
          CancelMshr(i);
        }
        i := i + 1;
      }
    }

    method CancelMshr(i: nat)
      requires Holds() && i < MSHR_SIZE
      modifies mshrs
      ensures Holds() && mshrs[..] == old(mshrs[..])[i := old(mshrs[i]).(valid := false)]
    {
      CancelKeeps(heap, nextPointer, toL1, inFlight, mshrs[..], mshrCount, i);
      mshrs[i] := mshrs[i].(valid := false);
      assert mshrs[..] == old(mshrs[..])[i := old(mshrs[i]).(valid := false)];
    }

    /** A fill from memory: its MSHR is found and released, and the block goes to the L1 cache, if the
        request was not cancelled; either way it is freed. */
    method InsertBlock(b: Pointer) returns (toCache: bool, slot: nat)
      requires Holds() && b in inFlight
      modifies this`heap, this`mshrCount, this`inFlight, mshrs
      ensures Holds() && inFlight == old(inFlight) - {b}
      ensures slot < MSHR_SIZE && old(!mshrs[slot].done && mshrs[slot].block == b)
      ensures toCache == old(mshrs[slot]).valid
      ensures mshrs[..] == old(mshrs[..])[slot := Mshr(b, false, true)] && mshrCount == old(mshrCount) - 1
      ensures b in old(heap) && heap == old(heap) - {b}
    {
      ghost var k := FindsItsMshr(heap, nextPointer, toL1, inFlight, mshrs[..], mshrCount, b);
      slot := 0;
      while mshrs[slot].done || heap[mshrs[slot].block] != heap[b]
        invariant slot <= k
        decreases k - slot
      {
        slot := slot + 1;
      }
      ReleaseKeeps(heap, nextPointer, toL1, inFlight, mshrs[..], mshrCount, slot);
      toCache := mshrs[slot].valid;
      heap, inFlight := heap - {b}, inFlight - {b};
      mshrs[slot] := mshrs[slot].(valid := false, done := true);
      mshrCount := mshrCount - 1;
      assert mshrs[..] == old(mshrs[..])[slot := Mshr(b, false, true)];
    }

    /** A due message delivers its block; a message for the memory controller makes it a request. */
    method Deliver(m: Message)
      requires Holds() && m.block in if m.dir == L2ToL1 then toL1 else inFlight
      modifies this`heap, this`mshrCount, this`requests, this`toL1, this`inFlight, mshrs
      ensures Holds()
      ensures toL1 == if m.dir == L2ToL1 then old(toL1) - {m.block} else old(toL1)
      ensures inFlight == if m.dir == MemToL2 then old(inFlight) - {m.block} else old(inFlight)
      ensures requests == if m.dir == L2ToMem then old(requests) + {m.block} else old(requests)
      ensures m.block in old(heap)
      ensures heap == if m.dir == L2ToMem then old(heap) else old(heap) - {m.block}
    {
      match m.dir {
        case L2ToL1 =>
          DeliverKeeps(heap, nextPointer, toL1, inFlight, mshrs[..], mshrCount, m.block);
          heap, toL1 := heap - {m.block}, toL1 - {m.block};
        case L2ToMem =>
          ghost var k := FindsItsMshr(heap, nextPointer, toL1, inFlight, mshrs[..], mshrCount, m.block);
          requests := requests + {m.block};
        case MemToL2 =>
          var toCache, slot := InsertBlock(m.block);
      }
    }

    /** One step through the queue. */
    method Step(m: Message, kept: seq<Message>, ghost rest: seq<Message>) returns (keptNow: seq<Message>)
      requires Holds() && Located(kept + ([m] + rest), requests, toL1, inFlight)
      modifies this`heap, this`mshrCount, this`requests, this`toL1, this`inFlight, mshrs
      ensures Holds() && Located(keptNow + rest, requests, toL1, inFlight)
      ensures keptNow == if m.cycles > 0 then kept + [m.(cycles := m.cycles - 1)] else kept
      ensures heap == if m.cycles > 0 || m.dir == L2ToMem then old(heap) else old(heap) - {m.block}
      ensures requests == if m.cycles == 0 && m.dir == L2ToMem then old(requests) + {m.block} else old(requests)
      ensures m.block !in old(requests)
    {
      ghost var left := kept + ([m] + rest);
      assert left[|kept|] == m;
      if m.cycles > 0 {
        keptNow := kept + [m.(cycles := m.cycles - 1)];
        KeptLocated(left, kept, m, rest, keptNow + rest, requests, toL1, inFlight);
      } else {
        keptNow := kept;
        DeliveredLocated(left, kept, m, rest, kept + rest, requests, toL1, inFlight);
        Deliver(m);
      }
    }

    /** The state while the queue is traversed: `kept` will replace what is before `i`. */
    ghost predicate Halfway(i: nat, kept: seq<Message>, added: seq<Pointer>, heap0: Heap, requests0: set<Pointer>)
      reads this, mshrs
    {
      && SoFar(messages, i, kept, heap0, heap, requests0, requests, added)
      && Holds() && Located(kept + messages[i..], requests, toL1, inFlight)
    }

    lemma Start()
      requires Valid()
      ensures Halfway(0, [], [], heap, requests)
    {
      assert [] + messages[0..] == messages;
    }

    method Advance(i: nat, kept: seq<Message>, added: seq<Pointer>, ghost heap0: Heap, ghost requests0: set<Pointer>)
      returns (keptNow: seq<Message>, addedNow: seq<Pointer>)
      requires Halfway(i, kept, added, heap0, requests0) && i < |messages|
      modifies this`heap, this`mshrCount, this`requests, this`toL1, this`inFlight, mshrs
      ensures Halfway(i + 1, keptNow, addedNow, heap0, requests0)
    {
      var m := messages[i];
      ghost var rest, heap1, requests1 := messages[i + 1..], heap, requests;
      assert messages[i..] == [m] + rest;
      keptNow := Step(m, kept, rest);
      addedNow := if m.cycles == 0 && m.dir == L2ToMem then added + [m.block] else added;
      SoFarStep(messages, i, kept, heap0, heap1, requests0, requests1, added, keptNow, heap, requests, addedNow);
    }

    method Finish(kept: seq<Message>, added: seq<Pointer>, ghost heap0: Heap, ghost requests0: set<Pointer>)
      requires Halfway(|messages|, kept, added, heap0, requests0)
      modifies this`messages
      ensures Valid()
      ensures messages == Kept(old(messages)) && heap == heap0 - Freed(Due(old(messages)))
      ensures added == Requested(Due(old(messages)))
      ensures requests == requests0 + Elements(added) && AllNew(added, requests0)
    {
      SoFarEnds(messages, kept, heap0, heap, requests0, requests, added);
      assert kept + messages[|messages|..] == kept;
      messages := kept;
      assert Located(messages, requests, toL1, inFlight);
    }

    /** A cycle of the interconnect.  Every due message is delivered, in order; every other one comes one
        cycle nearer.  No freed block is read or freed: each is in the heap until it is freed here.
        The blocks for the memory controller are handed over in the order of the queue. */
    method InterconnectCycle() returns (added: seq<Pointer>)
      requires Valid()
      modifies this, mshrs
      ensures Valid()
      ensures messages == Kept(old(messages)) && nextPointer == old(nextPointer)
      ensures heap == old(heap) - Freed(Due(old(messages)))
      ensures added == Requested(Due(old(messages)))
      ensures requests == old(requests) + Elements(added) && AllNew(added, old(requests))
      ensures Released(Due(old(messages)), mshrs[..])
    {
      var kept: seq<Message> := [];
      added := [];
      var i := 0;
      Start();
      while i < |messages|
        invariant messages == old(messages) && nextPointer == old(nextPointer)
        invariant Halfway(i, kept, added, old(heap), old(requests))
      {
        kept, added := Advance(i, kept, added, old(heap), old(requests));
        i := i + 1;
      }
      Finish(kept, added, old(heap), old(requests));
      FreedReleased(Due(old(messages)), heap, mshrs[..]);
    }

    lemma AddedInHeap(added: seq<Pointer>, requests0: set<Pointer>)
      requires Valid() && requests == requests0 + Elements(added)
      ensures forall i :: 0 <= i < |added| ==> added[i] in heap
    {
      forall i | 0 <= i < |added|
        ensures added[i] in heap
      {
        InElements(added, i);
        var k := FindsItsMshr(heap, nextPointer, toL1, inFlight, mshrs[..], mshrCount, added[i]);
      }
    }

    /** The memory controller has served the request for a block: it is sent back. */
    method Reply(b: Pointer)
      requires Valid() && b in requests
      modifies this`messages, this`requests
      ensures Valid()
      ensures requests == old(requests) - {b}
      ensures messages == old(messages) + [Sent(b, MEMORY_LATENCY, MemToL2)]
    {
      var m := Sent(b, MEMORY_LATENCY, MemToL2);
      ReplyLocated(messages, m, messages + [m], requests, toL1, inFlight);
      messages, requests := messages + [m], requests - {b};
    }
  }
}
