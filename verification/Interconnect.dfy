/**
 The latency queue between the caches and the memory controller (lab 2): messages are appended with a
 number of cycles to wait, and every cycle delivers those that have waited.
 */
module Interconnect {

  datatype Direction = L2ToL1 | L2ToMem | MemToL2

  /** A message holds a pointer to a cache block. */
  datatype Message = Message(block: nat, cycles: nat, dir: Direction)

  const L2_TO_L1_LATENCY: nat := 15
  const MEMORY_LATENCY: nat := 5

  /** A message as it enters the queue: the current cycle counts as the first of its latency. */
  function Sent(block: nat, latency: nat, dir: Direction): Message
    requires latency > 0
  {
    Message(block, latency - 1, dir)
  }

  // ---- one cycle ----

  /** The messages that are still on their way after a cycle, each one cycle nearer. */
  function Kept(messages: seq<Message>): seq<Message> {
    if messages == [] then [] else
      var m := messages[|messages| - 1];
      var kept := Kept(messages[..|messages| - 1]);
      if m.cycles > 0 then kept + [m.(cycles := m.cycles - 1)] else kept
  }

  /** The messages delivered in a cycle, in the order of the queue. */
  function Due(messages: seq<Message>): seq<Message> {
    if messages == [] then [] else
      var m := messages[|messages| - 1];
      var due := Due(messages[..|messages| - 1]);
      if m.cycles > 0 then due else due + [m]
  }

  // ---- what the queue carries ----

  /** The blocks that messages carry in one direction. */
  function Carried(messages: seq<Message>, dir: Direction): set<nat> {
    if messages == [] then {} else
      var m := messages[|messages| - 1];
      var blocks := Carried(messages[..|messages| - 1], dir);
      if m.dir == dir then blocks + {m.block} else blocks
  }

  /** No two messages carry the same block. */
  ghost predicate Apart(messages: seq<Message>) {
    forall i, j :: 0 <= i < j < |messages| ==> messages[i].block != messages[j].block
  }

  lemma CarriedPush(messages: seq<Message>, m: Message, dir: Direction)
    ensures Carried(messages + [m], dir) ==
              if m.dir == dir then Carried(messages, dir) + {m.block} else Carried(messages, dir)
  {
    assert (messages + [m])[..|messages|] == messages;
  }

  lemma {:induction false} CarriedConcat(a: seq<Message>, b: seq<Message>, dir: Direction)
    ensures Carried(a + b, dir) == Carried(a, dir) + Carried(b, dir)
    decreases |b|
  {
    if b == [] {
      assert a + b == a;
    } else {
      var last := |b| - 1;
      CarriedConcat(a, b[..last], dir);
      assert (a + b)[..|a| + last] == a + b[..last];
    }
  }

  lemma {:induction false} CarriedBy(messages: seq<Message>, dir: Direction, b: nat) returns (i: nat)
    requires b in Carried(messages, dir)
    ensures i < |messages| && messages[i].dir == dir && messages[i].block == b
  {
    i := |messages| - 1;
    if messages[i].dir != dir || messages[i].block != b {
      i := CarriedBy(messages[..i], dir, b);
    }
  }

  // ---- timing and order ----

  /** What the messages that wait for `cycles` more cycles will deliver, in the order of the queue. */
  function Waiting(messages: seq<Message>, cycles: nat): seq<(nat, Direction)> {
    if messages == [] then [] else
      var m := messages[|messages| - 1];
      var waiting := Waiting(messages[..|messages| - 1], cycles);
      if m.cycles == cycles then waiting + [(m.block, m.dir)] else waiting
  }

  lemma {:induction false} WaitingConcat(a: seq<Message>, b: seq<Message>, cycles: nat)
    ensures Waiting(a + b, cycles) == Waiting(a, cycles) + Waiting(b, cycles)
    decreases |b|
  {
    if b == [] {
      assert a + b == a;
    } else {
      var last := |b| - 1;
      WaitingConcat(a, b[..last], cycles);
      assert (a + b)[..|a| + last] == a + b[..last];
      assert (a + b)[|a| + last] == b[last];
    }
  }

  lemma {:induction false} WaitingAfterCycle(messages: seq<Message>, cycles: nat)
    ensures Waiting(Kept(messages), cycles) == Waiting(messages, cycles + 1)
  {
    if messages != [] {
      var last := |messages| - 1;
      var m := messages[last];
      WaitingAfterCycle(messages[..last], cycles);
      if m.cycles > 0 {
        var kept := Kept(messages[..last]);
        assert (kept + [m.(cycles := m.cycles - 1)])[..|kept|] == kept;
      }
    }
  }

  lemma {:induction false} DueIsWaiting(messages: seq<Message>)
    ensures |Due(messages)| == |Waiting(messages, 0)|
    ensures forall i :: 0 <= i < |Due(messages)| ==>
              Waiting(messages, 0)[i] == (Due(messages)[i].block, Due(messages)[i].dir)
  {
    if messages != [] {
      DueIsWaiting(messages[..|messages| - 1]);
    }
  }

  /** A run of the queue: before cycle n it holds what cycle n - 1 kept, and then what was sent. */
  ghost predicate IsRun(queue: nat -> seq<Message>, sent: nat -> seq<Message>) {
    && queue(0) == sent(0)
    && forall n: nat, m: nat :: m == n + 1 ==> queue(m) == Kept(queue(n)) + sent(m)
  }

  /** What was sent before cycle 0, 1, ..., n and then had to wait until `cycles` cycles after n. */
  ghost function Arrivals(sent: nat -> seq<Message>, n: nat, cycles: nat): seq<(nat, Direction)> {
    if n == 0 then Waiting(sent(0), cycles)
    else Arrivals(sent, n - 1, cycles + 1) + Waiting(sent(n), cycles)
  }

  lemma {:induction false} WaitingIsArrivals(queue: nat -> seq<Message>, sent: nat -> seq<Message>, n: nat, cycles: nat)
    requires IsRun(queue, sent)
    ensures Waiting(queue(n), cycles) == Arrivals(sent, n, cycles)
  {
    if n > 0 {
      var before := queue(n - 1);
      WaitingIsArrivals(queue, sent, n - 1, cycles + 1);
      WaitingAfterCycle(before, cycles);
      WaitingConcat(Kept(before), sent(n), cycles);
    }
  }

  /** Cycle n delivers exactly the messages sent with latency L just before cycle n - L + 1, for every
      L; those sent earlier come first, and those sent together keep their order. */
  lemma DeliversOnTime(queue: nat -> seq<Message>, sent: nat -> seq<Message>, n: nat)
    requires IsRun(queue, sent)
    ensures |Due(queue(n))| == |Arrivals(sent, n, 0)|
    ensures forall i :: 0 <= i < |Due(queue(n))| ==>
              Arrivals(sent, n, 0)[i] == (Due(queue(n))[i].block, Due(queue(n))[i].dir)
  {
    WaitingIsArrivals(queue, sent, n, 0);
    DueIsWaiting(queue(n));
  }
}
