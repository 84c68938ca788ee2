/**
 Reads never pass older writes to their address, but a write can be served while an older read of its
 address still waits.  This file shows when it cannot come to that, for any answers of the policy and of the
 timing: if no such read waits in the read queue when the write is accepted.
 */
module Overtaking {
  import opened Common
  import opened RowTable
  import opened Controller
  import opened ChannelRuns

  // ---- overtaking ----

  /** A read of an address, older than number `id`, is still to be served. */
  ghost predicate OlderReadWaits(qs: Queues, addr: nat, id: nat) {
    || (exists i :: 0 <= i < |qs.readq| && qs.readq[i].addr == addr && qs.readq[i].id < id)
    || (exists i :: 0 <= i < |qs.actq| && qs.actq[i].kind.ReadRequest? && qs.actq[i].addr == addr && qs.actq[i].id < id)
  }

  /** Write number `id` has been served although an older read of its address has not. */
  ghost predicate HasOvertaken(qs: Queues, addr: nat, id: nat) {
    id in qs.called && OlderReadWaits(qs, addr, id)
  }

  /** Number `id` is no read; no older read of the address is in the read queue; and none has been promoted
      once the write has been served. */
  ghost predicate InTurn(qs: Queues, addr: nat, id: nat) {
    && id < qs.accepted
    && (forall i :: 0 <= i < |qs.readq| ==> qs.readq[i].id != id && (qs.readq[i].addr == addr ==> qs.readq[i].id > id))
    && (forall i :: 0 <= i < |qs.pending| ==> qs.pending[i].id != id)
    && (forall i :: 0 <= i < |qs.actq| && qs.actq[i].kind.ReadRequest? ==>
          qs.actq[i].id != id && (id in qs.called && qs.actq[i].addr == addr ==> qs.actq[i].id > id))
  }

  lemma InTurnIsEnough(qs: Queues, addr: nat, id: nat)
    requires InTurn(qs, addr, id)
    ensures !HasOvertaken(qs, addr, id)
  {
  }

  lemma InTurnAccept(qs: Queues, kind: Kind, a: nat, path: Path, row: nat, clk: int, addr: nat, id: nat)
    requires InTurn(qs, addr, id) && !kind.RefreshRequest?
    ensures InTurn(Accept(qs, kind, a, path, row, clk), addr, id)
  {
  }

  lemma InTurnComplete(qs: Queues, clk: int, addr: nat, id: nat)
    requires InTurn(qs, addr, id)
    ensures InTurn(Complete(qs, clk), addr, id)
  {
  }

  lemma InTurnAdvance(qs: Queues, clk: int, nodes: set<Path>, source: Source, i: nat, cmd: Command, depart: int,
                      addr: nat, id: nat)
    requires InTurn(qs, addr, id) && Typed(qs, clk, nodes) && CanServe(qs, source, i) && Possible(source, cmd)
    requires cmd == Access(Queue(qs, source)[i].kind) || !(cmd.Read? || cmd.Write?)
    ensures InTurn(Advance(qs, source, i, cmd, depart), addr, id)
  {
    var q := Queue(qs, source);
    assert forall j :: 0 <= j < |q| - 1 ==> Without(q, i)[j] == q[if j < i then j else j + 1];
  }

  // ---- no overtaking ----

  lemma InTurnServed(qs: Queues, banks: Banks, clk: int, source: Source, i: nat, depart: int,
                     qsNow: Queues, banksNow: Banks, addr: nat, id: nat)
    requires Typed(qs, clk, banks.Keys) && IsServedBy(qs, banks, source, i, depart, qsNow, banksNow)
    requires InTurn(qs, addr, id)
    ensures InTurn(qsNow, addr, id)
  {
    var r := Queue(qs, source)[i];
    InTurnAdvance(qs, clk, banks.Keys, source, i, FirstCommand(r, banks), depart, addr, id);
  }

  lemma InTurnBegin(c: Channel, now: int, refreshes: seq<Path>, addr: nat, id: nat)
    requires InTurn(c.qs, addr, id)
    ensures InTurn(Begun(c, now, refreshes).qs, addr, id)
  {
    InTurnComplete(c.qs, now + 1, addr, id);
    RefreshesJoin(Complete(c.qs, now + 1), refreshes, now + 1);
  }

  lemma InTurnEnd(c: Channel, clk: int, writeMode: bool, timing: Timing, pick: int, depart: int, t: Channel,
                  addr: nat, id: nat)
    requires ChannelOk(c, clk) && depart > clk + 1 && t == TickEnd(c, clk, writeMode, timing, pick, depart)
    requires InTurn(c.qs, addr, id)
    ensures InTurn(t.qs, addr, id)
  {
    TickEndServes(c, clk, writeMode, timing, pick, depart, t);
    var choice := Choose(c.qs, c.dram.banks, writeMode, timing, pick);
    if choice.Chosen? {
      InTurnServed(c.qs, c.dram.banks, clk, choice.source, choice.index, depart, t.qs, t.dram.banks, addr, id);
    }
  }

  lemma InTurnPassed(s: State, inputs: Inputs, latency: nat, addr: nat, id: nat)
    requires StateOk(s) && latency > 1 && InTurn(s.c.qs, addr, id)
    ensures InTurn(Passed(s, inputs, latency).c.qs, addr, id)
  {
    var begun, clk, mode, depart, t := TickParts(s, inputs, latency);
    InTurnBegin(s.c, s.now, inputs.refreshes, addr, id);
    InTurnEnd(begun, clk, mode, inputs.timing, inputs.pick, depart, t, addr, id);
  }

  lemma InTurnStep(s: State, e: Event, latency: nat, addr: nat, id: nat)
    requires StateOk(s) && latency > 1 && InTurn(s.c.qs, addr, id)
    ensures InTurn(Step(s, e, latency).c.qs, addr, id)
  {
    if IsPossible(s, e) {
      match e
      case Arrive(kind, a, path, row) => InTurnAccept(s.c.qs, kind, a, path, row, s.now, addr, id);
      case Pass(inputs) => InTurnPassed(s, inputs, latency, addr, id);
    }
  }

  lemma {:induction false} InTurnGo(s: State, events: seq<Event>, latency: nat, addr: nat, id: nat)
    requires StateOk(s) && latency > 1 && InTurn(s.c.qs, addr, id)
    ensures InTurn(Go(s, events, latency).c.qs, addr, id)
    decreases |events|
  {
    if events != [] {
      InTurnStep(s, events[0], latency, addr, id);
      InTurnGo(Step(s, events[0], latency), events[1..], latency, addr, id);
    }
  }

  lemma CalledAreAccepted(qs: Queues)
    requires Conserved(qs)
    ensures forall id :: id in qs.called ==> id < qs.accepted
  {
    ExactlyOnce(qs);
    Pigeonhole(Places(qs), qs.accepted);
    forall id | id in qs.called
      ensures id < qs.accepted
    {
      var k :| 0 <= k < |qs.called| && qs.called[k] == id;
      assert Places(qs)[|Places(qs)| - |qs.called| + k] == id;
    }
  }

  /** The state in which a write has just been accepted. */
  ghost function WithWrite(s: State, addr: nat, path: Path, row: nat): (t: State)
    requires StateOk(s) && path in s.c.dram.banks
    ensures StateOk(t)
  {
    Arrived(s, WriteRequest, addr, path, row)
  }

  lemma InTurnAtFirst(s: State, addr: nat, path: Path, row: nat)
    requires StateOk(s) && path in s.c.dram.banks && |s.c.qs.writeq| < QUEUE_MAX && !HasAddr(s.c.qs.readq, addr)
    ensures InTurn(WithWrite(s, addr, path, row).c.qs, addr, s.c.qs.accepted)
  {
    CalledAreAccepted(s.c.qs);
    assert Typed(s.c.qs, s.now, s.c.dram.banks.Keys);
  }

  /** After these events the write has been served although an older read of its address has not. */
  ghost predicate Overtakes(s: State, events: seq<Event>, latency: nat, addr: nat, id: nat)
    requires StateOk(s) && latency > 1
  {
    HasOvertaken(Go(s, events, latency).c.qs, addr, id)
  }

  lemma NeverOvertakes(s: State, addr: nat, path: Path, row: nat, events: seq<Event>, latency: nat)
    requires StateOk(s) && latency > 1 && path in s.c.dram.banks && |s.c.qs.writeq| < QUEUE_MAX
    requires !HasAddr(s.c.qs.readq, addr)
    ensures !Overtakes(WithWrite(s, addr, path, row), events, latency, addr, s.c.qs.accepted)
  {
    var t, id := WithWrite(s, addr, path, row), s.c.qs.accepted;
    InTurnAtFirst(s, addr, path, row);
    InTurnGo(t, events, latency, addr, id);
    InTurnIsEnough(Go(t, events, latency).c.qs, addr, id);
  }
}
