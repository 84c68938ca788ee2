/**
 Whose turn it is in the controller, by how many reads and writes wait, and that no request is left waiting: when
 nothing more arrives, everything is served.
 */
module DramTurns {
  import opened RowTable
  import opened Controller
  import opened ChannelRuns
  import opened Policies
  import opened DramControl
  import opened OvertakingRuns
  import D = DramTiming

  // ---- turns ----

  /** A tick in which no refresh arrives, of a channel whose requests have not started: reads and writes take
      turns by how many of them wait, and only the queue whose turn it is changes. */
  lemma WhoseTurn(s: State, inputs: Inputs, latency: nat)
    requires StateOk(s) && latency > 1 && inputs.refreshes == [] && s.c.qs.actq == [] && s.c.qs.otherq == []
    ensures
      var t, waitingReads, waitingWrites := Passed(s, inputs, latency), |s.c.qs.readq|, |s.c.qs.writeq|;
      && (waitingReads > 0 && waitingWrites == 0 ==> !t.writeMode)
      && (waitingReads == 0 && waitingWrites > 0 ==> t.writeMode)
      && (waitingReads > 0 && waitingWrites > 25 ==> t.writeMode)
      && (waitingReads > 0 && waitingWrites < 6 ==> !t.writeMode)
      && (waitingReads > 0 && 6 <= waitingWrites <= 25 ==> t.writeMode == s.writeMode)
      && (if t.writeMode then t.c.qs.readq == s.c.qs.readq else t.c.qs.writeq == s.c.qs.writeq)
  {
    hide ChannelOk, Passed, TickEnd;
    var begun, clk, mode, depart, t := TickParts(s, inputs, latency);
    TickEndServes(begun, clk, mode, inputs.timing, inputs.pick, depart, t);
    assert begun.qs == Complete(s.c.qs, s.now + 1);
  }

  // ---- nothing is left waiting ----

  /** What is left to do: a request that has to be promoted first counts twice. */
  function Left(qs: Queues): nat {
    2 * (|qs.readq| + |qs.writeq|) + |qs.actq| + |qs.otherq|
  }

  lemma ServedIsLess(qs: Queues, banks: Banks, clk: int, source: Source, i: nat, depart: int, qsNow: Queues,
                     banksNow: Banks)
    requires Typed(qs, clk, banks.Keys) && IsServedBy(qs, banks, source, i, depart, qsNow, banksNow)
    ensures Left(qsNow) < Left(qs) || (Left(qsNow) == Left(qs) && OpenBanks(banksNow) < OpenBanks(banks))
  {
    var r := Queue(qs, source)[i];
    var cmd := FirstCommand(r, banks);
    if cmd.Precharge? || cmd.PrechargeAll? {
      FewerOpen(banks, cmd, r.path, r.row);
    }
  }

  /** As long as a request waits, the queue whose turn it is has one. */
  lemma TurnHasRequest(s: State, clk: int)
    requires Left(s.c.qs) > 0
    ensures Queue(Complete(s.c.qs, clk), TurnOf(s)) != []
  {
  }

  lemma PickInRange(policy: Policy, clk: int, q: seq<Item>, pick: int)
    requires q != [] && IsPick(policy, clk, q, pick)
    ensures 0 <= pick < |q|
  {
  }

  /** A quiet tick serves a request, or only passes the time until it can. */
  lemma QuietTick(k: System, s: State, nodes: D.Nodes, inputs: Inputs, depart: int, t: State, after: D.Nodes)
    requires SystemOk(k, s, nodes) && Left(s.c.qs) > 0
    requires inputs.timing == TimingOf(k, s, nodes) && IsPickOf(k, s, inputs.timing, inputs.pick)
    requires IsTickOf(k, s, nodes, inputs.timing, inputs.pick, depart, t, after)
    ensures
      || Left(t.c.qs) < Left(s.c.qs)
      || (Left(t.c.qs) == Left(s.c.qs) && OpenBanks(t.c.dram.banks) < OpenBanks(s.c.dram.banks))
      || Waited(s, nodes, t, after)
  {
    hide ChannelOk, D.NodesOk, Mapped, TimingNow, IsPick, IsServedBy, ReadyBy, OpenBanks, Left, Complete;
    TurnHasRequest(s, Next(s));
    PickInRange(k.policy, Next(s),
                ItemsOf(QueueOf(s), inputs.timing, s.c.dram.banks, s.c.dram.table, CoresAt(k, Next(s))),
                inputs.pick);
    if RequestReady(inputs.timing, s.c.dram.banks, QueueOf(s)[inputs.pick]) {
      SameLeft(s, Next(s));
      ServedIsLess(Complete(s.c.qs, Next(s)), s.c.dram.banks, s.now, TurnOf(s), inputs.pick, depart, t.c.qs,
                   t.c.dram.banks);
    } else if ReadyBy(nodes, Next(s)) {
      PickIsReady(k, s, nodes, inputs.pick);
    }
  }

  lemma SameLeft(s: State, clk: int)
    requires StateOk(s)
    ensures Typed(Complete(s.c.qs, clk), s.now, s.c.dram.banks.Keys) && Left(Complete(s.c.qs, clk)) == Left(s.c.qs)
  {
  }

  /** Ticks in which nothing arrives. */
  ghost predicate IsQuiet(events: seq<Event>) {
    forall i :: 0 <= i < |events| ==> events[i].Pass? && events[i].inputs.refreshes == []
  }

  ghost predicate IsIdle(qs: Queues) {
    Left(qs) == 0 && qs.pending == []
  }

  /** Quiet events of the system after which all queues are empty. */
  ghost predicate Finishes(k: System, s: State, nodes: D.Nodes, events: seq<Event>)
    requires SystemOk(k, s, nodes)
  {
    IsQuiet(events) && IsReal(k, s, nodes, events) && IsIdle(Go(s, events, k.latency).c.qs)
  }

  lemma FinishesBefore(k: System, s: State, nodes: D.Nodes, inputs: Inputs, t: State, after: D.Nodes, more: seq<Event>)
    requires SystemOk(k, s, nodes) && SystemOk(k, t, after)
    requires Obeys(k, s, nodes, Pass(inputs)) && inputs.refreshes == []
    requires t == Step(s, Pass(inputs), k.latency) && after == NodesNext(k, s, nodes, Pass(inputs))
    requires Finishes(k, t, after, more)
    ensures Finishes(k, s, nodes, [Pass(inputs)] + more)
  {
    hide ChannelOk, Mapped, D.NodesOk, Obeys, NodesNext, Step, IsIdle;
    var e := Pass(inputs);
    GoFirst(s, e, more, k.latency);
    assert ([e] + more)[0] == e && ([e] + more)[1..] == more;
  }

  lemma FinishesNow(k: System, s: State, nodes: D.Nodes)
    requires SystemOk(k, s, nodes) && IsIdle(s.c.qs)
    ensures Finishes(k, s, nodes, [])
  {
  }

  /** How long the oldest read still waits for its data. */
  function DataLeft(qs: Queues, now: int): nat {
    if qs.pending == [] || qs.pending[0].depart <= now then 0 else qs.pending[0].depart - now
  }

  /** Without requests to serve a tick calls back the oldest read or brings its data nearer. */
  lemma IdleTick(k: System, s: State, nodes: D.Nodes, inputs: Inputs, depart: int, t: State, after: D.Nodes)
    requires IsTickOf(k, s, nodes, inputs.timing, inputs.pick, depart, t, after) && Left(s.c.qs) == 0
    requires s.c.qs.pending != [] && t.now == Next(s)
    ensures Left(t.c.qs) == 0
    ensures
      || |t.c.qs.pending| < |s.c.qs.pending|
      || (|t.c.qs.pending| == |s.c.qs.pending| && DataLeft(t.c.qs, t.now) < DataLeft(s.c.qs, s.now))
  {
  }

  lemma CallBackAll(k: System, s: State, nodes: D.Nodes) returns (events: seq<Event>)
    requires SystemOk(k, s, nodes) && Left(s.c.qs) == 0
    ensures Finishes(k, s, nodes, events)
    decreases |s.c.qs.pending|, DataLeft(s.c.qs, s.now)
  {
    hide ChannelOk, Mapped, D.NodesOk, Obeys, NodesNext, Step, Finishes, IsPickOf, IsTickOf, Left, DataLeft;
    if s.c.qs.pending == [] {
      FinishesNow(k, s, nodes);
      events := [];
    } else {
      var inputs, depart, t, after := RealTick(k, s, nodes);
      IdleTick(k, s, nodes, inputs, depart, t, after);
      var more := CallBackAll(k, t, after);
      FinishesBefore(k, s, nodes, inputs, t, after, more);
      events := [Pass(inputs)] + more;
    }
  }

  lemma WaitedSo(s: State, nodes: D.Nodes, t: State, after: D.Nodes, bound: int)
    requires Waited(s, nodes, t, after) && ReadyBy(nodes, bound) && t.now == Next(s)
    ensures Left(t.c.qs) == Left(s.c.qs) && t.c.dram.banks == s.c.dram.banks && after == nodes
    ensures OvertakingRuns.Left(bound, t.now) < OvertakingRuns.Left(bound, s.now)
  {
  }

  lemma ServeAll(k: System, s: State, nodes: D.Nodes, bound: int) returns (events: seq<Event>)
    requires SystemOk(k, s, nodes) && ReadyBy(nodes, bound)
    ensures Finishes(k, s, nodes, events)
    decreases Left(s.c.qs), OpenBanks(s.c.dram.banks), OvertakingRuns.Left(bound, s.now)
  {
    hide ChannelOk, Mapped, D.NodesOk, Obeys, NodesNext, Step, Finishes, IsPickOf, IsTickOf, Left, OpenBanks;
    if Left(s.c.qs) == 0 {
      events := CallBackAll(k, s, nodes);
    } else {
      var inputs, depart, t, after := RealTick(k, s, nodes);
      QuietTick(k, s, nodes, inputs, depart, t, after);
      var boundNow := bound;
      if Waited(s, nodes, t, after) {
        WaitedSo(s, nodes, t, after, bound);
      } else {
        boundNow := GetsReady(after);
      }
      var more := ServeAll(k, t, after, boundNow);
      FinishesBefore(k, s, nodes, inputs, t, after, more);
      events := [Pass(inputs)] + more;
    }
  }

  lemma OneInput(k: System, s: State, nodes: D.Nodes, a: Inputs, b: Inputs)
    requires SystemOk(k, s, nodes) && Obeys(k, s, nodes, Pass(a)) && Obeys(k, s, nodes, Pass(b))
    requires a.refreshes == [] && b.refreshes == []
    ensures a == b
  {
    hide ChannelOk, D.NodesOk, Mapped, TimingNow, IsPick, TickBegin, TickMode;
    var begun, mode := TickBegin(s.c, s.now, []), TickMode(s.c, s.now, s.writeMode, []);
    var q := Queue(begun.qs, Turn(begun.qs, mode));
    PickIsUnique(k.policy, Next(s),
                 ItemsOf(q, a.timing, begun.dram.banks, begun.dram.table, CoresAt(k, Next(s))), a.pick,
                 b.pick);
  }

  /** The system goes on in one way when nothing arrives. */
  lemma {:induction false} OneQuietRun(k: System, s: State, nodes: D.Nodes, events: seq<Event>, other: seq<Event>)
    requires SystemOk(k, s, nodes) && IsQuiet(events) && IsReal(k, s, nodes, events)
    requires IsQuiet(other) && IsReal(k, s, nodes, other) && |other| == |events|
    ensures other == events
    decreases |events|
  {
    hide ChannelOk, D.NodesOk, Mapped, Obeys, Step, NodesNext;
    if events != [] {
      assert events[0].Pass? && other[0].Pass?;
      assert events[0].inputs.refreshes == [] && other[0].inputs.refreshes == [];
      OneInput(k, s, nodes, events[0].inputs, other[0].inputs);
      StepOk(k, s, nodes, events[0]);
      OneQuietRun(k, Step(s, events[0], k.latency), NodesNext(k, s, nodes, events[0]), events[1..], other[1..]);
      assert events == [events[0]] + events[1..] && other == [other[0]] + other[1..];
    }
  }

  /** When nothing more arrives, every request that has been accepted is called back in the end, under every
      policy and from every well-formed state. */
  lemma AllAreServed(k: System, s: State, nodes: D.Nodes) returns (events: seq<Event>)
    requires SystemOk(k, s, nodes)
    ensures IsQuiet(events) && IsReal(k, s, nodes, events)
    ensures
      var qs := Go(s, events, k.latency).c.qs;
      && qs.readq == [] && qs.writeq == [] && qs.actq == [] && qs.otherq == [] && qs.pending == []
      && forall id :: 0 <= id < s.c.qs.accepted ==> id in qs.called
    ensures forall other :: IsQuiet(other) && IsReal(k, s, nodes, other) && |other| == |events| ==> other == events
  {
    var bound := GetsReady(nodes);
    events := ServeAll(k, s, nodes, bound);
    hide ChannelOk, D.NodesOk, Mapped, Obeys, Step, NodesNext, Left, Finishes, Go, IsReal, IsIdle, Conserved;
    FinishedSo(k, s, nodes, events);
    OnlyQuietRun(k, s, nodes, events);
    QuietKeepsCount(s, events, k.latency);
    CalledWhenIdle(Go(s, events, k.latency).c.qs);
  }

  lemma OnlyQuietRun(k: System, s: State, nodes: D.Nodes, events: seq<Event>)
    requires SystemOk(k, s, nodes) && IsQuiet(events) && IsReal(k, s, nodes, events)
    ensures forall other :: IsQuiet(other) && IsReal(k, s, nodes, other) && |other| == |events| ==> other == events
  {
    hide ChannelOk, D.NodesOk, Mapped, Obeys, Step, NodesNext, IsReal, IsQuiet;
    forall other | IsQuiet(other) && IsReal(k, s, nodes, other) && |other| == |events|
      ensures other == events
    {
      OneQuietRun(k, s, nodes, events, other);
    }
  }

  lemma FinishedSo(k: System, s: State, nodes: D.Nodes, events: seq<Event>)
    requires SystemOk(k, s, nodes) && Finishes(k, s, nodes, events)
    ensures IsQuiet(events) && IsReal(k, s, nodes, events)
    ensures
      var qs := Go(s, events, k.latency).c.qs;
      && IsIdle(qs) && Conserved(qs)
      && qs.readq == [] && qs.writeq == [] && qs.actq == [] && qs.otherq == [] && qs.pending == []
  {
  }

  lemma CalledWhenIdle(qs: Queues)
    requires Conserved(qs) && IsIdle(qs)
    ensures forall id :: 0 <= id < qs.accepted ==> id in qs.called
  {
    forall id | 0 <= id < qs.accepted
      ensures id in qs.called
    {
      assert Present(qs, id);
    }
  }

  /** No request is accepted meanwhile. */
  lemma {:induction false} QuietKeepsCount(s: State, events: seq<Event>, latency: nat)
    requires StateOk(s) && latency > 1 && IsQuiet(events)
    ensures Go(s, events, latency).c.qs.accepted == s.c.qs.accepted
    decreases |events|
  {
    hide ChannelOk, Passed;
    if events != [] {
      var t := Step(s, events[0], latency);
      assert events[0].Pass? && events[0].inputs.refreshes == [];
      TickKeepsCount(s, events[0].inputs, latency);
      QuietKeepsCount(t, events[1..], latency);
    }
  }

  lemma TickKeepsCount(s: State, inputs: Inputs, latency: nat)
    requires StateOk(s) && latency > 1 && inputs.refreshes == []
    ensures Passed(s, inputs, latency).c.qs.accepted == s.c.qs.accepted
  {
    hide ChannelOk, Passed, TickEnd;
    var begun, clk, mode, depart, t := TickParts(s, inputs, latency);
    TickEndServes(begun, clk, mode, inputs.timing, inputs.pick, depart, t);
  }
}
