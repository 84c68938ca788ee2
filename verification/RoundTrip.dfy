/**
 The way of a block to the memory and back (lab 2): through the latency queue, the memory controller, and
 the queue again.  An L1 miss that goes to memory has its MSHR back after a fixed number of cycles.
 */
module RoundTrip {
  import opened Interconnect
  import opened DramScheduler
  import B = BoundedWait
  import M = MissProtocol
  import S = MemorySystem

  /** From the start of a row miss to the end of its data. */
  const SERVICE: nat := 249

  /** A run of the hierarchy: in every cycle the queue before it, the memory controller, what arrives there and what
      it picks, and the queue and the MSHRs after it.  Between two cycles the caches may send more. */
  datatype Run = Run(queue: nat -> seq<Message>, memory: nat -> State, arrivals: nat -> seq<Request>, picks: nat -> int,
                     left: nat -> seq<Message>, mshrs: nat -> seq<M.Mshr>)

  function QueueAt(h: Run, n: nat): seq<Message> {
    h.queue(n)
  }

  function LeftAt(h: Run, n: nat): seq<Message> {
    h.left(n)
  }

  /** Each of its cycles is one of the memory system, from the start and with closed row buffers. */
  ghost predicate IsRun(h: Run, banks: seq<Bank>) {
    && B.AllClosed(banks) && h.memory(0) == State(0, [], [])
    && (forall n: nat, m: nat :: m == n + 1 ==>
          && S.IsStep(QueueAt(h, n), h.memory(n), h.arrivals(n), h.picks(n), banks, h.memory(m), LeftAt(h, n),
                      h.mshrs(n))
          && LeftAt(h, n) <= QueueAt(h, m))
  }

  lemma RunOfMemory(h: Run, banks: seq<Bank>)
    requires IsRun(h, banks)
    ensures B.IsRun(h.memory, h.arrivals, h.picks, banks)
  {
    forall n: nat
      ensures StateOk(h.memory(n)) && AllOk(h.arrivals(n))
    {
      var m: nat := n + 1;
      assert S.IsStep(QueueAt(h, n), h.memory(n), h.arrivals(n), h.picks(n), banks, h.memory(m), LeftAt(h, n),
                      h.mshrs(n));
    }
  }

  /** One cycle of a run: what is left after it is in the queue before the next one. */
  lemma OneCycle(h: Run, banks: seq<Bank>, n: nat)
    requires IsRun(h, banks)
    ensures S.IsStep(QueueAt(h, n), h.memory(n), h.arrivals(n), h.picks(n), banks, h.memory(n + 1), LeftAt(h, n),
                     h.mshrs(n))
    ensures forall m :: m in LeftAt(h, n) ==> m in QueueAt(h, n + 1)
  {
    var next: nat := n + 1;
    assert LeftAt(h, n) <= QueueAt(h, next);
  }

  // ---- in the queue ----

  lemma {:induction false} KeptHas(messages: seq<Message>, m: Message)
    requires m in messages && m.cycles > 0
    ensures m.(cycles := m.cycles - 1) in Kept(messages)
  {
    var last := |messages| - 1;
    if m != messages[last] {
      KeptHas(messages[..last], m);
    }
  }

  lemma {:induction false} DueHas(messages: seq<Message>, m: Message)
    requires m in messages && m.cycles == 0
    ensures m in Due(messages)
  {
    var last := |messages| - 1;
    if m != messages[last] {
      DueHas(messages[..last], m);
    }
  }

  lemma {:induction false} RequestedHas(due: seq<Message>, m: Message)
    requires m in due && m.dir == L2ToMem
    ensures m.block in M.Requested(due)
  {
    var last := |due| - 1;
    if m != due[last] {
      RequestedHas(due[..last], m);
    }
  }

  lemma {:induction false} AnswersHas(replies: seq<nat>, b: nat)
    requires b in replies
    ensures Sent(b, MEMORY_LATENCY, MemToL2) in S.Answers(replies)
  {
    var last := |replies| - 1;
    if b != replies[last] {
      AnswersHas(replies[..last], b);
    }
  }

  /** A message is due when its cycles have passed. */
  lemma {:induction false} IsDueInTime(h: Run, banks: seq<Bank>, n: nat, m: Message) returns (t: nat)
    requires IsRun(h, banks) && m in QueueAt(h, n)
    ensures t == n + m.cycles && m.(cycles := 0) in Due(QueueAt(h, t))
    decreases m.cycles
  {
    if m.cycles == 0 {
      t := n;
      DueHas(QueueAt(h, n), m);
    } else {
      OneCycle(h, banks, n);
      KeptHas(QueueAt(h, n), m);
      assert m.(cycles := m.cycles - 1) in LeftAt(h, n);
      t := IsDueInTime(h, banks, n + 1, m.(cycles := m.cycles - 1));
    }
  }

  // ---- in the memory controller ----

  lemma {:induction false} ServedHas(ongoing: seq<Request>, now: int, r: Request)
    requires AllOk(ongoing) && r in ongoing && r.data.end <= now
    ensures r in Served(ongoing, now)
  {
    var last := |ongoing| - 1;
    if r != ongoing[last] {
      ServedHas(ongoing[..last], now, r);
    }
  }

  /** A request stays ongoing until its data have passed. */
  lemma {:induction false} StaysOngoing(run: nat -> State, arrivals: nat -> seq<Request>, picks: nat -> int,
                                        banks: seq<Bank>, t: nat, r: Request, u: nat)
    requires B.IsRun(run, arrivals, picks, banks) && r in run(t).ongoing && t <= u <= r.data.end
    ensures r in run(u).ongoing && run(u).now == u
    decreases u - t
  {
    B.RunIsStarted(run, arrivals, picks, banks, t);
    if t < u {
      UnservedContents(run(t).ongoing, run(t).now);
      StaysOngoing(run, arrivals, picks, banks, t + 1, r, u);
    }
  }

  /** What is picked in cycle t is ongoing afterwards, for as long as a row miss takes. */
  lemma PickedIsOngoing(run: nat -> State, arrivals: nat -> seq<Request>, picks: nat -> int, banks: seq<Bank>, t: nat)
      returns (r: Request)
    requires B.IsRun(run, arrivals, picks, banks) && picks(t) >= 0
    ensures picks(t) < |Arrived(run(t), arrivals(t)).pending|
    ensures r in run(t + 1).ongoing && r.block == Arrived(run(t), arrivals(t)).pending[picks(t)].block
    ensures r.data.end == t + SERVICE
  {
    var s, pick := Arrived(run(t), arrivals(t)), picks(t);
    B.RunIsStarted(run, arrivals, picks, banks, t);
    B.PickIsOldestFree(s, banks, run(t + 1), pick);
    r := Assessed(s.pending[pick], banks, s.now);
    B.AssessedIsMiss(s.pending[pick], banks, s.now);
    assert run(t + 1).ongoing == Unserved(s.ongoing, s.now) + [r];
  }

  lemma InBlocks(rs: seq<Request>, r: Request)
    requires r in rs
    ensures r.block in BlocksOf(rs)
  {
    var i :| 0 <= i < |rs| && rs[i] == r;
    assert BlocksOf(rs)[i] == r.block;
  }

  /** A picked request is answered when its data have passed. */
  lemma IsAnswered(h: Run, banks: seq<Bank>, t: nat) returns (u: nat)
    requires IsRun(h, banks) && h.picks(t) >= 0
    ensures h.picks(t) < |Arrived(h.memory(t), h.arrivals(t)).pending|
    ensures u == t + SERVICE + 1
    ensures
      var block := Arrived(h.memory(t), h.arrivals(t)).pending[h.picks(t)].block;
      Sent(block, MEMORY_LATENCY, MemToL2) in QueueAt(h, u)
  {
    RunOfMemory(h, banks);
    var r := PickedIsOngoing(h.memory, h.arrivals, h.picks, banks, t);
    var end: nat := t + SERVICE;
    StaysOngoing(h.memory, h.arrivals, h.picks, banks, t + 1, r, end);
    ServedHas(h.memory(end).ongoing, end, r);
    InBlocks(Served(h.memory(end).ongoing, end), r);
    AnswersHas(BlocksOf(Served(h.memory(end).ongoing, end)), r.block);
    OneCycle(h, banks, end);
    assert Sent(r.block, MEMORY_LATENCY, MemToL2) in LeftAt(h, end);
    u := end + 1;
  }

  // ---- all the way ----

  /** Behind how many others the block of a message is when it arrives at the memory controller. */
  lemma IsPending(h: Run, banks: seq<Bank>, t: nat, m: Message) returns (k: nat)
    requires IsRun(h, banks) && m in Due(QueueAt(h, t)) && m.dir == L2ToMem
    ensures k < |Arrived(h.memory(t), h.arrivals(t)).pending| <= M.MSHR_SIZE
    ensures Arrived(h.memory(t), h.arrivals(t)).pending[k].block == m.block
  {
    OneCycle(h, banks, t);
    RequestedHas(Due(QueueAt(h, t)), m);
    var i :| 0 <= i < |BlocksOf(h.arrivals(t))| && BlocksOf(h.arrivals(t))[i] == m.block;
    k := |h.memory(t).pending| + i;
  }

  /** No MSHR is kept for a block. */
  ghost predicate IsReleased(mshrs: seq<M.Mshr>, block: nat) {
    forall i :: M.IsBusy(mshrs, i) ==> mshrs[i].block != block
  }

  /** The block of a request that is picked in cycle t is back at the L2 cache in cycle t + 254. */
  lemma IsBackAt(h: Run, banks: seq<Bank>, t: nat, back: nat)
    requires IsRun(h, banks) && h.picks(t) >= 0 && back == t + 254
    ensures h.picks(t) < |Arrived(h.memory(t), h.arrivals(t)).pending|
    ensures
      var block := Arrived(h.memory(t), h.arrivals(t)).pending[h.picks(t)].block;
      Message(block, 0, MemToL2) in Due(QueueAt(h, back))
  {
    var answered := IsAnswered(h, banks, t);
    var block := Arrived(h.memory(t), h.arrivals(t)).pending[h.picks(t)].block;
    var u := IsDueInTime(h, banks, answered, Sent(block, MEMORY_LATENCY, MemToL2));
  }

  /** A block that is sent to memory comes back to the L2 cache in time, and then its MSHR is free again: every other
      request goes first, 303 cycles for each of 16, then come its own 249, and 5 for the way back. */
  lemma ComesBack(h: Run, banks: seq<Bank>, n: nat, m: Message) returns (t: nat)
    requires IsRun(h, banks) && m in QueueAt(h, n) && m.dir == L2ToMem
    ensures n <= t < n + m.cycles + 5102
    ensures Message(m.block, 0, MemToL2) in Due(QueueAt(h, t)) && IsReleased(h.mshrs(t), m.block)
  {
    RunOfMemory(h, banks);
    var arrived := IsDueInTime(h, banks, n, m);
    var k := IsPending(h, banks, arrived, m.(cycles := 0));
    var start, i := B.EveryRequestIsScheduled(h.memory, h.arrivals, h.picks, banks, arrived, k);
    t := start + 254;
    IsBackAt(h, banks, start, t);
    OneCycle(h, banks, t);
  }
}
