/**
 Runs of the channel of lab 3: requests arrive and ticks pass, for any answers of the policy and of the
 timing; and what one tick does.
 */
module ChannelRuns {
  import opened RowTable
  import opened Controller

  // ---- runs of the channel ----

  datatype State = State(c: Channel, now: int, writeMode: bool)

  /** A read or write arrives, or a tick passes. */
  datatype Event = Arrive(kind: Kind, addr: nat, path: Path, row: nat) | Pass(inputs: Inputs)

  ghost predicate StateOk(s: State) {
    ChannelOk(s.c, s.now)
  }

  ghost predicate IsPossible(s: State, e: Event) {
    e.Arrive? ==> !e.kind.RefreshRequest? && e.path in s.c.dram.banks
  }

  lemma ArrivedOk(c: Channel, clk: int, kind: Kind, addr: nat, path: Path, row: nat, t: Channel)
    requires ChannelOk(c, clk) && !kind.RefreshRequest? && path in c.dram.banks
    requires t == c.(qs := Accept(c.qs, kind, addr, path, row, clk))
    ensures ChannelOk(t, clk)
  {
    QueuesAccept(c.qs, c.serving, clk, c.dram.banks.Keys, kind, addr, path, row);
  }

  ghost function Arrived(s: State, kind: Kind, addr: nat, path: Path, row: nat): (t: State)
    requires StateOk(s) && !kind.RefreshRequest? && path in s.c.dram.banks
    ensures StateOk(t)
  {
    var c := s.c.(qs := Accept(s.c.qs, kind, addr, path, row, s.now));
    ArrivedOk(s.c, s.now, kind, addr, path, row, c);
    s.(c := c)
  }

  lemma PassedOk(c: Channel, now: int, writeMode: bool, inputs: Inputs, next: int, depart: int, t: Channel)
    requires ChannelOk(c, now) && next == now + 1 && depart > now + 2
    requires t == Ticked(c, now, writeMode, inputs, depart)
    ensures ChannelOk(t, next)
  {
  }

  function Next(s: State): int {
    s.now + 1
  }

  /** When a read that accesses its column in the next tick has its data. */
  function Due(s: State, latency: nat): int {
    s.now + 1 + latency
  }

  ghost function Passed(s: State, inputs: Inputs, latency: nat): (t: State)
    requires StateOk(s) && latency > 1
    ensures StateOk(t)
  {
    var next, depart := Next(s), Due(s, latency);
    var c := Ticked(s.c, s.now, s.writeMode, inputs, depart);
    PassedOk(s.c, s.now, s.writeMode, inputs, next, depart, c);
    State(c, next, TickMode(s.c, s.now, s.writeMode, inputs.refreshes))
  }

  /** An arrival that is for no bank of the channel changes nothing. */
  ghost function Step(s: State, e: Event, latency: nat): (t: State)
    requires StateOk(s) && latency > 1
    ensures StateOk(t)
  {
    if !IsPossible(s, e) then s else
      match e
      case Arrive(kind, addr, path, row) => Arrived(s, kind, addr, path, row)
      case Pass(inputs) => Passed(s, inputs, latency)
  }

  ghost function Go(s: State, events: seq<Event>, latency: nat): (t: State)
    requires StateOk(s) && latency > 1
    ensures StateOk(t)
    decreases |events|
  {
    if events == [] then s else Go(Step(s, events[0], latency), events[1..], latency)
  }

  lemma GoFirst(s: State, e: Event, more: seq<Event>, latency: nat)
    requires StateOk(s) && latency > 1
    ensures Go(s, [e] + more, latency) == Go(Step(s, e, latency), more, latency)
  {
    assert ([e] + more)[1..] == more;
  }

  // ---- what a tick does ----

  /** A request is served: its next command is issued, and it goes where that command sends it. */
  ghost predicate IsServedBy(qs: Queues, banks: Banks, source: Source, i: nat, depart: int,
                             qsNow: Queues, banksNow: Banks) {
    && CanServe(qs, source, i)
    && var r := Queue(qs, source)[i];
    && IsAddressed(r, banks)
    && var cmd := FirstCommand(r, banks);
    && Possible(source, cmd) && Fits(banks, cmd, r.path, r.row)
    && (cmd == Access(r.kind) || !(cmd.Read? || cmd.Write?))
    && qsNow == Advance(qs, source, i, cmd, depart)
    && banksNow == BanksAfter(banks, cmd, r.path, r.row)
  }

  lemma ScheduledIsServed(c: Channel, clk: int, source: Source, i: nat, depart: int, t: Channel)
    requires ChannelOk(c, clk) && CanServe(c.qs, source, i) && Schedulable(c, Chosen(source, i))
    requires t == Scheduled(c, Chosen(source, i), depart)
    ensures IsServedBy(c.qs, c.dram.banks, source, i, depart, t.qs, t.dram.banks)
  {
    FirstIsPossible(c.qs, c.dram, clk, source, i);
  }

  lemma TickEndServes(c: Channel, clk: int, writeMode: bool, timing: Timing, pick: int, depart: int, t: Channel)
    requires ChannelOk(c, clk) && depart > clk + 1 && t == TickEnd(c, clk, writeMode, timing, pick, depart)
    ensures Addressed(c.qs, c.dram.banks)
    ensures
      match Choose(c.qs, c.dram.banks, writeMode, timing, pick)
      case Idle => t == c
      case Chosen(source, i) => IsServedBy(c.qs, c.dram.banks, source, i, depart, t.qs, t.dram.banks)
  {
    var choice := NextChoice(c, clk, writeMode, timing, pick);
    if choice.Chosen? {
      ScheduledIsServed(c, clk, choice.source, choice.index, depart, t);
    }
  }

  /** A tick in parts: its begin, the mode, and its end. */
  lemma TickParts(s: State, inputs: Inputs, latency: nat)
      returns (begun: Channel, clk: int, mode: bool, depart: int, t: Channel)
    requires StateOk(s) && latency > 1
    ensures begun == Begun(s.c, s.now, inputs.refreshes) && ChannelOk(begun, clk) && depart > clk + 1
    ensures clk == Next(s) && depart == Due(s, latency) && mode == NextWriteMode(s.writeMode, begun.qs)
    ensures t == TickEnd(begun, clk, mode, inputs.timing, inputs.pick, depart)
    ensures Passed(s, inputs, latency) == State(t, clk, mode)
  {
    clk, depart := Next(s), Due(s, latency);
    begun := TickBegin(s.c, s.now, inputs.refreshes);
    TickBeginIs(s.c, s.now, inputs.refreshes, clk, begun);
    mode := NextWriteMode(s.writeMode, begun.qs);
    t := TickEnd(begun, clk, mode, inputs.timing, inputs.pick, depart);
    TickedFrom(s.c, s.now, s.writeMode, inputs, depart, begun, clk, mode, t);
  }

  /** Refreshes join the other requests only. */
  lemma {:induction false} RefreshesJoin(qs: Queues, ranks: seq<Path>, clk: int)
    ensures
      var t := AcceptRefreshes(qs, ranks, clk);
      t == qs.(otherq := t.otherq)
  {
    if ranks != [] {
      RefreshesJoin(qs, ranks[..|ranks| - 1], clk);
    }
  }
}
