/**
 When requests of the controller are taken, answered and called back: the arrival of a request and a tick in terms of
 the lists of those that wait, whatever policy and timing answer.
 */
module ChannelCalls {
  import opened RowTable
  import opened Controller
  import opened ChannelRuns

  // ---- arrival ----

  /** A request is refused exactly when 32 of its kind wait. */
  lemma RefusedIff(qs: Queues, kind: Kind, addr: nat, path: Path, row: nat, clk: int)
    requires !kind.RefreshRequest?
    ensures Accept(qs, kind, addr, path, row, clk) == qs <==>
            (if kind.ReadRequest? then |qs.readq| == 32 else |qs.writeq| == 32)
  {
  }

  /** Otherwise it waits as the newest of its kind; but a read of an address that a waiting write is going to write has
      its data in the next cycle. */
  lemma ArrivesAsNewest(qs: Queues, kind: Kind, addr: nat, path: Path, row: nat, clk: int)
    requires !kind.RefreshRequest? && Accept(qs, kind, addr, path, row, clk) != qs
    ensures
      var now, count := Accept(qs, kind, addr, path, row, clk), qs.accepted + 1;
      var r := Request(qs.accepted, kind, addr, path, row, true, clk, 0);
      now ==
        if kind.WriteRequest? then qs.(writeq := qs.writeq + [r], accepted := count)
        else if exists w :: w in qs.writeq && w.addr == addr then
          qs.(pending := qs.pending + [r.(depart := clk + 1)], accepted := count)
        else qs.(readq := qs.readq + [r], accepted := count)
  {
    var q := qs.writeq;
    if w :| w in q && w.addr == addr {
      var i :| 0 <= i < |q| && q[i] == w;
      assert q[i].addr == addr;
    }
  }

  // ---- a tick ----

  /** What comes first among the reads that wait for their data has them at this time. */
  predicate HasData(pending: seq<Request>, clk: int) {
    pending != [] && pending[0].depart <= clk
  }

  /** A tick at time `clk` issues at most one command.  It calls back the first read that waits for its data when they
      are there, and the request of a write command; the request of a read command waits for its data from now on,
      which are there after the latency. */
  ghost predicate IsCalled(qs: Queues, issued: seq<Issued>, clk: int, latency: nat, now: Queues,
                           issuedNow: seq<Issued>) {
    var called := if HasData(qs.pending, clk) then qs.called + [qs.pending[0].id] else qs.called;
    var pending := if HasData(qs.pending, clk) then qs.pending[1..] else qs.pending;
    && |issued| <= |issuedNow| <= |issued| + 1 && issuedNow[..|issued|] == issued
    && if |issuedNow| == |issued| then now.called == called && now.pending == pending
       else
         var i := issuedNow[|issued|];
         && now.called == (if i.cmd.Write? then called + [i.id] else called)
         && (if i.cmd.Read? then
               && |now.pending| == |pending| + 1 && now.pending[..|pending|] == pending
               && now.pending[|pending|].id == i.id && now.pending[|pending|].depart == clk + latency
             else now.pending == pending)
  }

  lemma ServedIsCalled(qs: Queues, source: Source, i: nat, cmd: Command, depart: int)
    requires CanServe(qs, source, i)
    ensures
      var now := Advance(qs, source, i, cmd, depart);
      && now.called == (if cmd.Write? then qs.called + [Queue(qs, source)[i].id] else qs.called)
      && (if cmd.Read? then
            && |now.pending| == |qs.pending| + 1 && now.pending[..|qs.pending|] == qs.pending
            && now.pending[|qs.pending|].id == Queue(qs, source)[i].id && now.pending[|qs.pending|].depart == depart
          else now.pending == qs.pending)
  {
  }

  lemma TickCalls(s: State, inputs: Inputs, latency: nat)
    requires StateOk(s) && latency > 1
    ensures
      var t := Passed(s, inputs, latency);
      t.now == s.now + 1 && IsCalled(s.c.qs, s.c.dram.issued, t.now, latency, t.c.qs, t.c.dram.issued)
  {
    hide ChannelOk, Passed, TickEnd, Advance;
    var begun, clk, mode, depart, t := TickParts(s, inputs, latency);
    RefreshesJoin(Complete(s.c.qs, clk), inputs.refreshes, clk);
    TickEndIssues(begun, clk, mode, inputs.timing, inputs.pick, depart, t);
  }

  lemma TickEndIssues(c: Channel, clk: int, writeMode: bool, timing: Timing, pick: int, depart: int, t: Channel)
    requires ChannelOk(c, clk) && depart > clk + 1 && t == TickEnd(c, clk, writeMode, timing, pick, depart)
    ensures t == c || IsIssued(c, depart, t)
  {
    var choice := NextChoice(c, clk, writeMode, timing, pick);
    if choice.Chosen? {
      ScheduledIsIssued(c, clk, choice.source, choice.index, depart, t);
    }
  }

  /** One command has been issued, and its request has gone on. */
  ghost predicate IsIssued(c: Channel, depart: int, t: Channel) {
    |t.dram.issued| == |c.dram.issued| + 1 && t.dram.issued[..|c.dram.issued|] == c.dram.issued
    && var i := t.dram.issued[|c.dram.issued|];
    && t.qs.called == (if i.cmd.Write? then c.qs.called + [i.id] else c.qs.called)
    && (if i.cmd.Read? then
          && |t.qs.pending| == |c.qs.pending| + 1 && t.qs.pending[..|c.qs.pending|] == c.qs.pending
          && t.qs.pending[|c.qs.pending|].id == i.id && t.qs.pending[|c.qs.pending|].depart == depart
        else t.qs.pending == c.qs.pending)
  }

  lemma ScheduledIsIssued(c: Channel, clk: int, source: Source, i: nat, depart: int, t: Channel)
    requires ChannelOk(c, clk) && CanServe(c.qs, source, i) && Schedulable(c, Chosen(source, i))
    requires t == Scheduled(c, Chosen(source, i), depart)
    ensures IsIssued(c, depart, t)
  {
    var r := Queue(c.qs, source)[i];
    ServedIsCalled(c.qs, source, i, FirstCommand(r, c.dram.banks), depart);
    assert t.dram.issued == c.dram.issued + [IssuedFor(FirstCommand(r, c.dram.banks), r)];
  }

  lemma FirstIsCalled(qs: Queues, issued: seq<Issued>, clk: int, latency: nat, now: Queues, issuedNow: seq<Issued>)
    requires IsCalled(qs, issued, clk, latency, now, issuedNow) && HasData(qs.pending, clk)
    ensures qs.pending[0].id in now.called
  {
    assert (qs.called + [qs.pending[0].id])[|qs.called|] == qs.pending[0].id;
  }

  lemma ArrivesSo(s: State, addr: nat, path: Path, row: nat, t: State)
    requires StateOk(s) && path in s.c.dram.banks && t == Arrived(s, ReadRequest, addr, path, row)
    ensures t.now == s.now && t.c.qs == Accept(s.c.qs, ReadRequest, addr, path, row, s.now)
  {
    hide ChannelOk, Accept;
  }

  /** A read that is forwarded, when no other one waits for its data, is called back in the next tick. */
  lemma ForwardedIsCalled(s: State, addr: nat, path: Path, row: nat, inputs: Inputs, latency: nat)
    requires StateOk(s) && path in s.c.dram.banks && latency > 1 && s.c.qs.pending == [] && |s.c.qs.readq| < 32
    requires exists w :: w in s.c.qs.writeq && w.addr == addr
    ensures s.c.qs.accepted in Passed(Arrived(s, ReadRequest, addr, path, row), inputs, latency).c.qs.called
  {
    var t := Arrived(s, ReadRequest, addr, path, row);
    ArrivesSo(s, addr, path, row, t);
    hide ChannelOk, Passed, Arrived, Accept, IsCalled;
    RefusedIff(s.c.qs, ReadRequest, addr, path, row, s.now);
    ArrivesAsNewest(s.c.qs, ReadRequest, addr, path, row, s.now);
    TickCalls(t, inputs, latency);
    var u := Passed(t, inputs, latency);
    FirstIsCalled(t.c.qs, t.c.dram.issued, u.now, latency, u.c.qs, u.c.dram.issued);
  }
}
