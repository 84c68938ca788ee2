/**
 The controller of lab 3 with the DRAM tree of its channel and a scheduling policy: the tree says which
 commands are ready, the policy picks a request among those of a queue, and whatever is issued updates the
 tree.
 */
module DramControl {
  import opened Common
  import opened RowTable
  import opened Controller
  import opened ControllerTick
  import opened ChannelRuns
  import opened Policies
  import D = DramTiming
  import H = DramHistory
  import T = DramTree
  import Ddr4

  /** The channel's number, and how many ranks, bank groups per rank and banks per group there are. */
  datatype Org = Org(channel: nat, ranks: nat, bankGroups: nat, banks: nat)

  function SpecOf(speed: Ddr4.SpeedEntry, org: Org): (spec: D.Spec)
    ensures |spec.count| == 4
  {
    Ddr4.Ddr4Spec(speed, org.ranks, org.bankGroups, org.banks)
  }

  predicate IsBank(org: Org, p: Path) {
    |p| == BANK_LEVEL && p[0] < org.ranks && p[1] < org.bankGroups && p[2] < org.banks
  }

  predicate IsRank(org: Org, p: Path) {
    |p| == RANK_LEVEL && p[0] < org.ranks
  }

  function Signal(cmd: Command): D.Command {
    match cmd
    case Activate => D.ACT
    case Precharge => D.PRE
    case PrechargeAll => D.PREA
    case Read => D.RD
    case Write => D.WR
    case Refresh => D.REF
  }

  /** The address vector of a request, without the column.  A refresh has no bank and no row. */
  function AddressOf(org: Org, p: Path, row: nat): (addr: seq<int>)
    ensures |addr| == 5 && addr[0] == org.channel
  {
    var rank: int := if p == [] then -1 else p[0];
    if |p| == BANK_LEVEL then [org.channel, rank, p[1], p[2], row] else [org.channel, rank, -1, -1, -1]
  }

  lemma AddressesOk(speed: Ddr4.SpeedEntry, org: Org, p: Path, row: nat)
    requires IsBank(org, p) || IsRank(org, p)
    ensures D.AddressOk(SpecOf(speed, org), AddressOf(org, p, row))
  {
  }

  /** The tree's answer to the question whether a command is ready. */
  function TimingNow(spec: D.Spec, org: Org, nodes: D.Nodes, clk: int): Timing
    requires |spec.count| == 4 && D.NodesOk(spec, org.channel, nodes)
  {
    assert forall cmd, addr :: D.AddressOk(spec, addr) && addr[0] == org.channel ==>
           T.WayExists(spec, nodes, cmd, addr, 0) by {
      forall cmd, addr | D.AddressOk(spec, addr) && addr[0] == org.channel
        ensures T.WayExists(spec, nodes, cmd, addr, 0)
      {
        T.InRangeWayExists(spec, org.channel, nodes, cmd, addr);
      }
    }
    Timing((cmd: Command, p: Path, row: nat) =>
      D.AddressOk(spec, AddressOf(org, p, row)) && T.Check(spec, nodes, Signal(cmd), AddressOf(org, p, row), clk, 0))
  }

  lemma ReadyIsCheck(spec: D.Spec, org: Org, nodes: D.Nodes, clk: int, cmd: Command, p: Path, row: nat)
    requires |spec.count| == 4 && D.NodesOk(spec, org.channel, nodes) && D.AddressOk(spec, AddressOf(org, p, row))
    ensures T.WayExists(spec, nodes, Signal(cmd), AddressOf(org, p, row), 0)
    ensures IsReady(TimingNow(spec, org, nodes, clk), cmd, p, row) <==>
            T.Check(spec, nodes, Signal(cmd), AddressOf(org, p, row), clk, 0)
  {
    T.InRangeWayExists(spec, org.channel, nodes, Signal(cmd), AddressOf(org, p, row));
  }

  // ---- what has been issued ----

  predicate ForRank(cmd: Command) {
    cmd.PrechargeAll? || cmd.Refresh?
  }

  /** The tree's record of a command that the controller issued. */
  ghost predicate Records(org: Org, s: H.Issue, i: Issued) {
    && s.cmd == Signal(i.cmd) && s.addr == AddressOf(org, i.path, i.row)
    && (if ForRank(i.cmd) then IsRank(org, i.path) else IsBank(org, i.path))
  }

  /** The tree's trace is what the controller issued. */
  ghost predicate Follows(org: Org, trace: H.Trace, issued: seq<Issued>) {
    |trace| == |issued| && forall k :: 0 <= k < |trace| ==> Records(org, trace[k], issued[k])
  }

  lemma FollowsOn(org: Org, trace: H.Trace, issued: seq<Issued>, s: H.Issue, i: Issued)
    requires Follows(org, trace, issued) && Records(org, s, i)
    ensures Follows(org, trace + [s], issued + [i])
  {
  }

  /** Refreshes are for the ranks of the channel. */
  ghost predicate ForRanks(org: Org, q: seq<Request>) {
    forall k :: 0 <= k < |q| ==> IsRank(org, q[k].path)
  }

  lemma {:induction false} RefreshesForRanks(org: Org, qs: Queues, ranks: seq<Path>, clk: int)
    requires ForRanks(org, qs.otherq) && forall k :: 0 <= k < |ranks| ==> IsRank(org, ranks[k])
    ensures ForRanks(org, AcceptRefreshes(qs, ranks, clk).otherq)
  {
    if ranks != [] {
      RefreshesForRanks(org, qs, ranks[..|ranks| - 1], clk);
    }
  }

  lemma AdvanceForRanks(org: Org, qs: Queues, source: Source, i: nat, cmd: Command, depart: int)
    requires ForRanks(org, qs.otherq) && i < |Queue(qs, source)|
    ensures ForRanks(org, Advance(qs, source, i, cmd, depart).otherq)
  {
    var q := Queue(qs, source);
    assert forall j :: 0 <= j < |q| - 1 ==> Without(q, i)[j] == q[if j < i then j else j + 1];
  }

  // ---- a whole channel ----

  ghost predicate HasBanks(org: Org, banks: Banks) {
    forall p: Path :: p in banks <==> IsBank(org, p)
  }

  /** The channel has the banks of the tree, and refreshes are for its ranks. */
  ghost predicate Mapped(org: Org, c: Channel) {
    HasBanks(org, c.dram.banks) && ForRanks(org, c.qs.otherq)
  }

  /** The tree's trace is what has been issued to these banks. */
  ghost predicate Linked(org: Org, c: Channel, trace: H.Trace) {
    Mapped(org, c) && Follows(org, trace, c.dram.issued)
  }

  lemma LinkedIsMapped(org: Org, c: Channel, trace: H.Trace)
    requires Linked(org, c, trace)
    ensures Mapped(org, c)
  {
  }

  lemma LinkedAccept(org: Org, c: Channel, trace: H.Trace, kind: Kind, addr: nat, path: Path, row: nat, clk: int,
                     t: Channel)
    requires Linked(org, c, trace) && !kind.RefreshRequest?
    requires t == c.(qs := Accept(c.qs, kind, addr, path, row, clk))
    ensures Linked(org, t, trace)
  {
  }

  lemma LinkedBegin(org: Org, c: Channel, trace: H.Trace, now: int, refreshes: seq<Path>, t: Channel)
    requires Linked(org, c, trace) && t == Begun(c, now, refreshes)
    requires forall k :: 0 <= k < |refreshes| ==> IsRank(org, refreshes[k])
    ensures Linked(org, t, trace)
  {
    RefreshesForRanks(org, Complete(c.qs, now + 1), refreshes, now + 1);
  }

  /** The tree's record of a command for a request. */
  function RecordOf(org: Org, cmd: Command, r: Request, clk: int): H.Issue {
    H.Issue(Signal(cmd), AddressOf(org, r.path, r.row), clk)
  }

  /** Every request is for a node of the tree. */
  lemma RequestIsAddressed(org: Org, c: Channel, clk: int, source: Source, i: nat)
    requires ChannelOk(c, clk) && Mapped(org, c) && i < |Queue(c.qs, source)|
    ensures
      var r := Queue(c.qs, source)[i];
      && IsAddressed(r, c.dram.banks)
      && (if r.kind.RefreshRequest? then IsRank(org, r.path) else IsBank(org, r.path))
  {
  }

  lemma LinkedServe(org: Org, c: Channel, trace: H.Trace, source: Source, i: nat, r: Request, cmd: Command,
                    depart: int, clk: int, t: Channel, after: H.Trace)
    requires Linked(org, c, trace) && i < |Queue(c.qs, source)| && r == Queue(c.qs, source)[i]
    requires IsAddressed(r, c.dram.banks) && cmd == FirstCommand(r, c.dram.banks)
    requires if r.kind.RefreshRequest? then IsRank(org, r.path) else IsBank(org, r.path)
    requires t.qs == Advance(c.qs, source, i, cmd, depart) && t.dram.banks.Keys == c.dram.banks.Keys
    requires t.dram.issued == c.dram.issued + [IssuedFor(cmd, r)]
    requires after == trace + [RecordOf(org, cmd, r, clk)]
    ensures Linked(org, t, after)
  {
    AdvanceForRanks(org, c.qs, source, i, cmd, depart);
    FollowsOn(org, trace, c.dram.issued, RecordOf(org, cmd, r, clk), IssuedFor(cmd, r));
  }

  lemma LinkedStart(org: Org, c: Channel, trace: H.Trace)
    requires c.qs.otherq == [] && c.dram.issued == [] && trace == [] && c.dram.banks.Keys == BanksOf(org)
    ensures Linked(org, c, trace)
  {
  }

  // ---- the whole as a state machine ----

  lemma AllAreAddressed(c: Channel, clk: int)
    requires ChannelOk(c, clk)
    ensures Addressed(c.qs, c.dram.banks)
  {
    TypedAddressed(c.qs, clk, c.dram.banks);
  }

  /** A controller with its tree and its policy.  `cores` is what the bookkeeping of the policy says at each time. */
  datatype System = System(org: Org, speed: Ddr4.SpeedEntry, policy: Policy, latency: nat, cores: int -> Cores)

  function CoresAt(k: System, clk: int): Cores {
    k.cores(clk)
  }

  ghost predicate SystemOk(k: System, s: State, nodes: D.Nodes) {
    && StateOk(s) && k.latency > 1 && Mapped(k.org, s.c)
    && D.NodesOk(SpecOf(k.speed, k.org), k.org.channel, nodes)
  }

  /** A tick's inputs are answers of the tree and of the policy. */
  ghost predicate IsAnswered(org: Org, speed: Ddr4.SpeedEntry, policy: Policy, cores: Cores, s: State, nodes: D.Nodes,
                             inputs: Inputs)
    requires StateOk(s) && D.NodesOk(SpecOf(speed, org), org.channel, nodes)
  {
    && (forall i :: 0 <= i < |inputs.refreshes| ==> IsRank(org, inputs.refreshes[i]))
    && inputs.timing == TimingNow(SpecOf(speed, org), org, nodes, Next(s))
    && IsPolicyPick(policy, TickBegin(s.c, s.now, inputs.refreshes), Next(s),
                    TickMode(s.c, s.now, s.writeMode, inputs.refreshes), inputs.timing, cores, inputs.pick)
  }

  /** The tree after a command for a request. */
  function NodesIssued(org: Org, speed: Ddr4.SpeedEntry, nodes: D.Nodes, cmd: Command, r: Request, clk: int)
      : (after: D.Nodes)
    requires D.AllNodesOk(nodes)
    ensures after.Keys == nodes.Keys && D.AllNodesOk(after)
  {
    T.NodesAfter(SpecOf(speed, org), nodes, Signal(cmd), AddressOf(org, r.path, r.row), clk)
  }

  /** The tree after the end of a tick: it has seen the command of the request that was chosen. */
  ghost function NodesEnd(org: Org, speed: Ddr4.SpeedEntry, c: Channel, clk: int, writeMode: bool, timing: Timing,
                          pick: int, nodes: D.Nodes): (after: D.Nodes)
    requires Addressed(c.qs, c.dram.banks) && D.AllNodesOk(nodes)
    ensures after.Keys == nodes.Keys && D.AllNodesOk(after)
  {
    match Choose(c.qs, c.dram.banks, writeMode, timing, pick)
    case Idle => nodes
    case Chosen(source, i) =>
      var r := Queue(c.qs, source)[i];
      NodesIssued(org, speed, nodes, FirstCommand(r, c.dram.banks), r, clk)
  }

  ghost predicate IsNodesEnd(org: Org, speed: Ddr4.SpeedEntry, c: Channel, clk: int, writeMode: bool, timing: Timing,
                             pick: int, nodes: D.Nodes, after: D.Nodes) {
    && Addressed(c.qs, c.dram.banks) && D.AllNodesOk(nodes)
    && after == NodesEnd(org, speed, c, clk, writeMode, timing, pick, nodes)
  }

  lemma TreeHasNodes(spec: D.Spec, channel: int, nodes: D.Nodes)
    requires D.NodesOk(spec, channel, nodes)
    ensures D.AllNodesOk(nodes)
  {
  }

  lemma NodesEndFrom(org: Org, speed: Ddr4.SpeedEntry, c: Channel, clk: int, writeMode: bool, timing: Timing, pick: int,
                     choice: Choice, nodes: D.Nodes, after: D.Nodes)
    requires Addressed(c.qs, c.dram.banks) && D.AllNodesOk(nodes)
    requires choice == Choose(c.qs, c.dram.banks, writeMode, timing, pick)
    requires
      match choice
      case Idle => after == nodes
      case Chosen(source, i) =>
        var r := Queue(c.qs, source)[i];
        after == NodesIssued(org, speed, nodes, FirstCommand(r, c.dram.banks), r, clk)
    ensures IsNodesEnd(org, speed, c, clk, writeMode, timing, pick, nodes, after)
  {
  }

  ghost function NodesPassed(org: Org, speed: Ddr4.SpeedEntry, s: State, nodes: D.Nodes, inputs: Inputs)
      : (after: D.Nodes)
    requires StateOk(s) && D.AllNodesOk(nodes)
    ensures after.Keys == nodes.Keys && D.AllNodesOk(after)
  {
    var begun := TickBegin(s.c, s.now, inputs.refreshes);
    AllAreAddressed(begun, s.now + 1);
    NodesEnd(org, speed, begun, Next(s), TickMode(s.c, s.now, s.writeMode, inputs.refreshes), inputs.timing,
             inputs.pick, nodes)
  }

  /** A tick in parts. */
  lemma WholeTick(org: Org, speed: Ddr4.SpeedEntry, policy: Policy, cores: Cores, s: State, nodes: D.Nodes,
                  inputs: Inputs, latency: nat, begun: Channel, depart: int, t: State, after: D.Nodes)
    requires StateOk(s) && latency > 1 && D.NodesOk(SpecOf(speed, org), org.channel, nodes)
    requires begun == TickBegin(s.c, s.now, inputs.refreshes) && ChannelOk(begun, t.now)
    requires t.now == Next(s) && t.writeMode == NextWriteMode(s.writeMode, begun.qs)
    requires depart == t.now + latency && t.c == TickEnd(begun, t.now, t.writeMode, inputs.timing, inputs.pick, depart)
    requires inputs.timing == TimingNow(SpecOf(speed, org), org, nodes, t.now)
    requires forall i :: 0 <= i < |inputs.refreshes| ==> IsRank(org, inputs.refreshes[i])
    requires IsPolicyPick(policy, begun, t.now, t.writeMode, inputs.timing, cores, inputs.pick)
    requires IsNodesEnd(org, speed, begun, t.now, t.writeMode, inputs.timing, inputs.pick, nodes, after)
    ensures IsAnswered(org, speed, policy, cores, s, nodes, inputs)
    ensures t == Passed(s, inputs, latency) && after == NodesPassed(org, speed, s, nodes, inputs)
  {
    hide ChannelOk, D.NodesOk, D.AllNodesOk, TickBegin, TickEnd, NodesEnd, IsPolicyPick, TimingNow, NextWriteMode;
    TickedFrom(s.c, s.now, s.writeMode, inputs, depart, begun, t.now, t.writeMode, t.c);
  }

  /** Requests are for banks of the channel, and ticks get the answers of the tree and of the policy. */
  ghost predicate Obeys(k: System, s: State, nodes: D.Nodes, e: Event)
    requires SystemOk(k, s, nodes)
  {
    match e
    case Arrive(kind, _, path, _) => !kind.RefreshRequest? && IsBank(k.org, path)
    case Pass(inputs) => IsAnswered(k.org, k.speed, k.policy, CoresAt(k, Next(s)), s, nodes, inputs)
  }

  ghost function NodesNext(k: System, s: State, nodes: D.Nodes, e: Event): (after: D.Nodes)
    requires SystemOk(k, s, nodes)
    ensures after.Keys == nodes.Keys && D.AllNodesOk(after)
  {
    match e
    case Arrive(_, _, _, _) => nodes
    case Pass(inputs) => NodesPassed(k.org, k.speed, s, nodes, inputs)
  }

  lemma NodesStay(k: System, s: State, nodes: D.Nodes, e: Event)
    requires SystemOk(k, s, nodes)
    ensures D.NodesOk(SpecOf(k.speed, k.org), k.org.channel, NodesNext(k, s, nodes, e))
  {
    var after := NodesNext(k, s, nodes, e);
    assert forall p :: p in after <==> p in nodes;
  }

  lemma MappedServed(org: Org, c: Channel, source: Source, i: nat, depart: int, t: Channel)
    requires Mapped(org, c) && IsServedBy(c.qs, c.dram.banks, source, i, depart, t.qs, t.dram.banks)
    ensures Mapped(org, t)
  {
    var r := Queue(c.qs, source)[i];
    AdvanceForRanks(org, c.qs, source, i, FirstCommand(r, c.dram.banks), depart);
  }

  lemma MappedBegin(org: Org, c: Channel, now: int, refreshes: seq<Path>)
    requires Mapped(org, c) && forall i :: 0 <= i < |refreshes| ==> IsRank(org, refreshes[i])
    ensures Mapped(org, Begun(c, now, refreshes))
  {
    RefreshesForRanks(org, Complete(c.qs, now + 1), refreshes, now + 1);
  }

  lemma MappedEnd(org: Org, c: Channel, clk: int, writeMode: bool, timing: Timing, pick: int, depart: int, t: Channel)
    requires ChannelOk(c, clk) && depart > clk + 1 && t == TickEnd(c, clk, writeMode, timing, pick, depart)
    requires Mapped(org, c)
    ensures Mapped(org, t)
  {
    hide ChannelOk, TickEnd, Mapped, IsServedBy;
    TickEndServes(c, clk, writeMode, timing, pick, depart, t);
    var choice := Choose(c.qs, c.dram.banks, writeMode, timing, pick);
    if choice.Chosen? {
      MappedServed(org, c, choice.source, choice.index, depart, t);
    }
  }

  lemma MappedPassed(org: Org, s: State, inputs: Inputs, latency: nat)
    requires StateOk(s) && latency > 1 && Mapped(org, s.c)
    requires forall i :: 0 <= i < |inputs.refreshes| ==> IsRank(org, inputs.refreshes[i])
    ensures Mapped(org, Passed(s, inputs, latency).c)
  {
    hide ChannelOk, Passed, Mapped, Begun, TickEnd;
    var begun, clk, mode, depart, t := TickParts(s, inputs, latency);
    MappedBegin(org, s.c, s.now, inputs.refreshes);
    MappedEnd(org, begun, clk, mode, inputs.timing, inputs.pick, depart, t);
  }

  lemma BankIsThere(org: Org, c: Channel, path: Path)
    requires Mapped(org, c)
    ensures IsBank(org, path) <==> path in c.dram.banks
  {
  }

  lemma MappedArrived(org: Org, s: State, kind: Kind, addr: nat, path: Path, row: nat)
    requires StateOk(s) && Mapped(org, s.c) && !kind.RefreshRequest? && path in s.c.dram.banks
    ensures Mapped(org, Arrived(s, kind, addr, path, row).c)
  {
    hide ChannelOk;
  }

  /** The system stays well formed. */
  lemma StepOk(k: System, s: State, nodes: D.Nodes, e: Event)
    requires SystemOk(k, s, nodes) && Obeys(k, s, nodes, e)
    ensures SystemOk(k, Step(s, e, k.latency), NodesNext(k, s, nodes, e))
  {
    hide ChannelOk, Mapped, D.NodesOk, NodesNext, Passed, Arrived;
    NodesStay(k, s, nodes, e);
    match e
    case Arrive(kind, addr, path, row) =>
      BankIsThere(k.org, s.c, path);
      MappedArrived(k.org, s, kind, addr, path, row);
    case Pass(inputs) => MappedPassed(k.org, s, inputs, k.latency);
  }

  /** The events are such as the system obeys them, all along. */
  ghost predicate IsReal(k: System, s: State, nodes: D.Nodes, events: seq<Event>)
    requires SystemOk(k, s, nodes)
    decreases |events|
  {
    events != [] ==>
      && Obeys(k, s, nodes, events[0])
      && (StepOk(k, s, nodes, events[0]);
          IsReal(k, Step(s, events[0], k.latency), NodesNext(k, s, nodes, events[0]), events[1..]))
  }

  // ---- what the channel sees ----

  /** The tree's record of a command that goes to a bank passes the bank's node and those above it. */
  lemma BankRecord(speed: Ddr4.SpeedEntry, org: Org, s: H.Issue, i: Issued, level: nat)
    requires Records(org, s, i) && 1 <= level <= 4 && (i.cmd.Activate? || i.cmd.Read? || i.cmd.Write?)
    requires D.AddressOk(SpecOf(speed, org), s.addr)
    ensures |i.path| == BANK_LEVEL && Ddr4.GoesTo(SpecOf(speed, org), s, s.addr[..level])
  {
  }

  /** Any five activates that the controller issues to one rank take at least nFAW cycles. */
  lemma RankWindow(speed: Ddr4.SpeedEntry, org: Org, trace: H.Trace, issued: seq<Issued>, rank: nat,
                   i1: nat, i2: nat, i3: nat, i4: nat, i5: nat)
    requires H.TraceOk(SpecOf(speed, org), trace) && T.Legal(SpecOf(speed, org), trace) && Follows(org, trace, issued)
    requires i1 < i2 < i3 < i4 < i5 < |issued|
    requires forall i :: i in {i1, i2, i3, i4, i5} ==>
             issued[i].cmd.Activate? && Prefix(issued[i].path, RANK_LEVEL) == [rank]
    ensures trace[i1].clk + speed.nFAW <= trace[i5].clk
  {
    var spec, node := SpecOf(speed, org), [org.channel as int, rank];
    forall i | i in {i1, i2, i3, i4, i5}
      ensures trace[i].cmd == D.ACT && Ddr4.GoesTo(spec, trace[i], node)
    {
      assert Records(org, trace[i], issued[i]);
      BankRecord(speed, org, trace[i], issued[i], 2);
      assert Prefix(issued[i].path, RANK_LEVEL)[0] == issued[i].path[0];
      assert trace[i].addr[..2] == node;
    }
    Ddr4.FiveActivates(speed, org.ranks, org.bankGroups, org.banks, spec, trace, node, i1, i2, i3, i4, i5);
  }

  /** The command after an activate is the access of the same request, and comes nRCD cycles later or more. */
  lemma AccessAfterActivate(speed: Ddr4.SpeedEntry, org: Org, trace: H.Trace, issued: seq<Issued>, actq: seq<Request>,
                            k: nat)
    requires H.TraceOk(SpecOf(speed, org), trace) && T.Legal(SpecOf(speed, org), trace) && Follows(org, trace, issued)
    requires Alternates(issued, actq) && k + 1 < |issued| && issued[k].cmd.Activate?
    ensures IsAccessFor(issued[k + 1], issued[k])
    ensures trace[k].clk + speed.nRCD <= trace[k + 1].clk
  {
    var spec, l := SpecOf(speed, org), k + 1;
    assert IsAccessFor(issued[l], issued[k]);
    assert Records(org, trace[k], issued[k]) && Records(org, trace[l], issued[l]);
    BankRecord(speed, org, trace[k], issued[k], 4);
    BankRecord(speed, org, trace[l], issued[l], 4);
    assert trace[l].addr == trace[k].addr;
    Ddr4.AccessAfterActivate(speed, org.ranks, org.bankGroups, org.banks, spec, trace, trace[k].addr[..4], k, l);
  }

  /** The banks of a channel, and all the nodes that contain them. */
  function BanksOf(org: Org): (banks: set<Path>)
    ensures forall p: Path :: p in banks <==> IsBank(org, p)
  {
    var banks := set r: nat, g: nat, b: nat | r < org.ranks && g < org.bankGroups && b < org.banks :: [r, g, b];
    assert forall p: Path :: IsBank(org, p) ==> p == [p[0], p[1], p[2]];
    banks
  }

  function NodesOf(org: Org): (nodes: set<Path>)
  {
    set p, k | p in BanksOf(org) && 0 <= k <= |p| :: p[..k]
  }

  lemma NodesAboveBanks(org: Org)
    ensures forall p: Path :: p in BanksOf(org) ==> |p| == BANK_LEVEL
    ensures forall p: Path, k :: p in BanksOf(org) && 0 <= k <= |p| ==> p[..k] in NodesOf(org)
  {
  }

  /** A controller that has just been built, and its tree. */
  function Start(org: Org): State {
    State(EmptyChannel(NodesOf(org), BanksOf(org)), 0, false)
  }

  function StartNodes(org: Org, speed: Ddr4.SpeedEntry): (nodes: D.Nodes)
    ensures D.AllNodesOk(nodes)
  {
    T.InitialNodes(SpecOf(speed, org), org.channel)
  }

  class DramController {
    const org: Org
    const speed: Ddr4.SpeedEntry
    const policy: Policy
    const ctrl: ChannelController
    const tree: T.DramTree

    /** The controller keeps its invariants, the tree has seen exactly what the controller issued, and
        all of that was legal. */
    ghost predicate Valid()
      reads ctrl`clk, ctrl`qs, ctrl`serving, ctrl`banks, ctrl`uselessActivates, ctrl`issued, ctrl.rowtable, tree
    {
      && ctrl.Valid() && ctrl.clk >= 0 && tree.Valid()
      && tree.spec == SpecOf(speed, org) && tree.channel == org.channel
      && Linked(org, ctrl.C(), tree.trace)
    }

    ghost function S(): State
      reads ctrl`clk, ctrl`qs, ctrl`writeMode, ctrl`serving, ctrl`banks, ctrl`uselessActivates, ctrl`issued,
            ctrl.rowtable
    {
      State(ctrl.C(), ctrl.clk, ctrl.writeMode)
    }

    constructor (org: Org, speed: Ddr4.SpeedEntry, policy: Policy, readLatency: nat)
      requires readLatency > 1
      ensures Valid() && fresh(ctrl) && fresh(ctrl.rowtable) && fresh(tree)
      ensures this.org == org && this.speed == speed && this.policy == policy && ctrl.readLatency == readLatency
      ensures S() == Start(org) && tree.nodes == StartNodes(org, speed) && tree.trace == []
    {
      hide ChannelOk, T.Legal, T.AllSummarise, Linked;
      NodesAboveBanks(org);
      var channel := new ChannelController(NodesOf(org), BanksOf(org), readLatency);
      Ddr4.Ddr4SpecOk(speed, org.ranks, org.bankGroups, org.banks);
      var ready := new T.DramTree(SpecOf(speed, org), org.channel);
      this.org, this.speed, this.policy := org, speed, policy;
      ctrl, tree := channel, ready;
      LinkedStart(org, channel.C(), ready.trace);
    }

    /** A controller is a state of the system, ... */
    lemma IsSystem(cores: int -> Cores)
      requires Valid()
      ensures SystemOk(System(org, speed, policy, ctrl.readLatency, cores), S(), tree.nodes)
    {
      LinkedIsMapped(org, ctrl.C(), tree.trace);
    }

    /** Whatever has been issued so far, five activates of a rank span a window ... */
    lemma ReachableWindow(rank: nat, i1: nat, i2: nat, i3: nat, i4: nat, i5: nat)
      requires Valid() && i1 < i2 < i3 < i4 < i5 < |ctrl.issued|
      requires forall i :: i in {i1, i2, i3, i4, i5} ==>
                 ctrl.issued[i].cmd.Activate? && Prefix(ctrl.issued[i].path, RANK_LEVEL) == [rank]
      ensures |tree.trace| == |ctrl.issued| && tree.trace[i1].clk + speed.nFAW <= tree.trace[i5].clk
    {
      RankWindow(speed, org, tree.trace, ctrl.issued, rank, i1, i2, i3, i4, i5);
    }

    /** ... and an activate is followed by the access it was made for, in due time. */
    lemma ReachableAccess(k: nat)
      requires Valid() && k + 1 < |ctrl.issued| && ctrl.issued[k].cmd.Activate?
      ensures IsAccessFor(ctrl.issued[k + 1], ctrl.issued[k])
      ensures |tree.trace| == |ctrl.issued| && tree.trace[k].clk + speed.nRCD <= tree.trace[k + 1].clk
    {
      AccessAfterActivate(speed, org, tree.trace, ctrl.issued, ctrl.qs.actq, k);
    }

    /** Accept a read or write. */
    method Enqueue(kind: Kind, addr: nat, path: Path, row: nat) returns (ok: bool)
      requires Valid() && !kind.RefreshRequest? && IsBank(org, path)
      modifies ctrl`qs
      ensures Valid() && ctrl.qs == Accept(old(ctrl.qs), kind, addr, path, row, ctrl.clk)
      ensures S() == Arrived(old(S()), kind, addr, path, row)
      ensures ok <==> |if kind.WriteRequest? then old(ctrl.qs.writeq) else old(ctrl.qs.readq)| != QUEUE_MAX
    {
      hide ChannelOk, T.Legal, T.AllSummarise, D.NodesOk, Linked, Mapped, Accept;
      ghost var c := ctrl.C();
      LinkedIsMapped(org, c, tree.trace);
      BankIsThere(org, c, path);
      ok := ctrl.Enqueue(kind, addr, path, row);
      LinkedAccept(org, c, tree.trace, kind, addr, path, row, ctrl.clk, ctrl.C());
    }

    /** The begin of a tick: the oldest read with data is called back, and refreshes arrive. */
    method BeginTick(refreshes: seq<Path>) returns (callbacks: seq<nat>)
      requires Valid() && forall k :: 0 <= k < |refreshes| ==> IsRank(org, refreshes[k])
      modifies ctrl`clk, ctrl`qs, ctrl`serving
      ensures Valid() && ctrl.clk == old(ctrl.clk) + 1
      ensures ctrl.C() == TickBegin(old(ctrl.C()), old(ctrl.clk), refreshes)
      ensures |callbacks| <= 1 && old(ctrl.qs.called) + callbacks == Complete(old(ctrl.qs), ctrl.clk).called
    {
      ghost var c, now := ctrl.C(), ctrl.clk;
      callbacks := ctrl.BeginTick(refreshes);
      LinkedBegin(org, c, tree.trace, now, refreshes, ctrl.C());
    }

    /** The policy's pick in the queue whose turn it is. */
    method Pick(timing: Timing, cores: Cores) returns (pick: int)
      requires ctrl.Valid()
      ensures IsPolicyPick(policy, ctrl.C(), ctrl.clk, ctrl.writeMode, timing, cores, pick)
    {
      var source := Turn(ctrl.qs, ctrl.writeMode);
      QueueAddressed(ctrl.C(), ctrl.clk, source);
      var items := ItemsOf(Queue(ctrl.qs, source), timing, ctrl.banks, ctrl.rowtable.table, cores);
      pick := GetHead(policy, ctrl.clk, items);
    }

    /** A command that the tree says is ready updates the tree. */
    method UpdateTree(cmd: Command, r: Request, ghost timing: Timing)
      requires tree.Valid() && tree.spec == SpecOf(speed, org) && tree.channel == org.channel && ctrl.clk >= 0
      requires IsBank(org, r.path) || IsRank(org, r.path)
      requires timing == TimingNow(tree.spec, org, tree.nodes, ctrl.clk) && IsReady(timing, cmd, r.path, r.row)
      modifies tree
      ensures tree.Valid() && tree.trace == old(tree.trace) + [RecordOf(org, cmd, r, ctrl.clk)]
      ensures tree.nodes == NodesIssued(org, speed, old(tree.nodes), cmd, r, ctrl.clk)
    {
      AddressesOk(speed, org, r.path, r.row);
      ReadyIsCheck(tree.spec, org, tree.nodes, ctrl.clk, cmd, r.path, r.row);
      tree.Update(Signal(cmd), AddressOf(org, r.path, r.row), ctrl.clk);
    }

    /** Issue the next command of a request: the tree and the controller follow. */
    method IssueNext(source: Source, i: nat, r: Request, cmd: Command, ghost timing: Timing)
      requires ctrl.Valid() && ctrl.clk >= 0 && tree.Valid()
      requires tree.spec == SpecOf(speed, org) && tree.channel == org.channel
      requires CanServe(ctrl.qs, source, i) && r == Queue(ctrl.qs, source)[i]
      requires IsAddressed(r, ctrl.banks) && cmd == FirstCommand(r, ctrl.banks)
      requires IsBank(org, r.path) || IsRank(org, r.path)
      requires timing == TimingNow(tree.spec, org, tree.nodes, ctrl.clk) && IsReady(timing, cmd, r.path, r.row)
      modifies ctrl`qs, ctrl`serving, ctrl`banks, ctrl`uselessActivates, ctrl`issued, ctrl.rowtable, tree
      ensures ctrl.Valid() && IsScheduled(old(ctrl.C()), source, i, ctrl.Due(), ctrl.C())
      ensures ctrl.qs == Advance(old(ctrl.qs), source, i, cmd, ctrl.Due())
      ensures ctrl.banks.Keys == old(ctrl.banks.Keys) && ctrl.issued == old(ctrl.issued) + [IssuedFor(cmd, r)]
      ensures tree.Valid() && tree.trace == old(tree.trace) + [RecordOf(org, cmd, r, ctrl.clk)]
      ensures tree.nodes == NodesIssued(org, speed, old(tree.nodes), cmd, r, ctrl.clk)
    {
      hide ChannelOk, T.Legal, T.AllSummarise;
      UpdateTree(cmd, r, timing);
      ctrl.ServeChosen(source, i, r, cmd, timing);
    }

    /** Serve a request whose next command the tree admits. */
    method Perform(source: Source, i: nat, ghost timing: Timing)
      requires Valid() && CanServe(ctrl.qs, source, i) && IsAddressed(Queue(ctrl.qs, source)[i], ctrl.banks)
      requires timing == TimingNow(tree.spec, org, tree.nodes, ctrl.clk)
      requires RequestReady(timing, ctrl.banks, Queue(ctrl.qs, source)[i])
      modifies ctrl`qs, ctrl`serving, ctrl`banks, ctrl`uselessActivates, ctrl`issued, ctrl.rowtable, tree
      ensures Valid() && IsScheduled(old(ctrl.C()), source, i, ctrl.Due(), ctrl.C())
      ensures
        var r := old(Queue(ctrl.qs, source)[i]);
        tree.nodes == NodesIssued(org, speed, old(tree.nodes), old(FirstCommand(r, ctrl.banks)), r, ctrl.clk)
    {
      hide ChannelOk, T.Legal, T.AllSummarise, D.NodesOk, Linked;
      ghost var c, trace := ctrl.C(), tree.trace;
      var r := Queue(ctrl.qs, source)[i];
      var cmd := FirstCommand(r, ctrl.banks);
      LinkedIsMapped(org, c, trace);
      RequestIsAddressed(org, c, ctrl.clk, source, i);
      IssueNext(source, i, r, cmd, timing);
      LinkedServe(org, c, trace, source, i, r, cmd, ctrl.Due(), ctrl.clk, ctrl.C(), tree.trace);
    }

    /** The end of a tick: the request that is chosen is served, if its next command is ready. */
    method EndTick(timing: Timing, pick: int)
      requires Valid() && timing == TimingNow(tree.spec, org, tree.nodes, ctrl.clk)
      modifies ctrl`qs, ctrl`serving, ctrl`banks, ctrl`uselessActivates, ctrl`issued, ctrl.rowtable, tree
      ensures Valid() && old(ChannelOk(ctrl.C(), ctrl.clk)) && ctrl.Due() > ctrl.clk + 1
      ensures ctrl.C() == TickEnd(old(ctrl.C()), ctrl.clk, ctrl.writeMode, timing, pick, ctrl.Due())
      ensures IsNodesEnd(org, speed, old(ctrl.C()), ctrl.clk, ctrl.writeMode, timing, pick, old(tree.nodes), tree.nodes)
    {
      hide ChannelOk, T.Legal, T.AllSummarise, D.NodesOk, Linked, NodesIssued, IsNodesEnd;
      ghost var c, nodes := ctrl.C(), tree.nodes;
      AllAreAddressed(c, ctrl.clk);
      TreeHasNodes(tree.spec, tree.channel, nodes);
      var choice := Choose(ctrl.qs, ctrl.banks, ctrl.writeMode, timing, pick);
      if choice.Chosen? {
        Perform(choice.source, choice.index, timing);
      }
      TickEndFrom(c, ctrl.clk, ctrl.writeMode, timing, pick, ctrl.Due(), choice, ctrl.C());
      NodesEndFrom(org, speed, c, ctrl.clk, ctrl.writeMode, timing, pick, choice, nodes, tree.nodes);
    }

    /** One tick: the oldest read with data is called back, refreshes arrive, reads and writes may change
        turns, and at most one command is issued: for the request that the policy picks, if the tree admits
        its next command. */
    method Tick(refreshes: seq<Path>, cores: Cores) returns (callbacks: seq<nat>, ghost inputs: Inputs)
      requires Valid() && forall k :: 0 <= k < |refreshes| ==> IsRank(org, refreshes[k])
      modifies ctrl, ctrl.rowtable, tree
      ensures Valid() && inputs.refreshes == refreshes
      ensures IsAnswered(org, speed, policy, cores, old(S()), old(tree.nodes), inputs)
      ensures S() == Passed(old(S()), inputs, ctrl.readLatency)
      ensures tree.nodes == NodesPassed(org, speed, old(S()), old(tree.nodes), inputs)
      ensures |callbacks| <= 1 && old(ctrl.qs.called) + callbacks == Complete(old(ctrl.qs), ctrl.clk).called
    {
      hide ChannelOk, T.Legal, T.AllSummarise, D.NodesOk, Linked, IsAnswered, IsNodesEnd, Passed, NodesPassed;
      ghost var c, now, mode, nodes := ctrl.C(), ctrl.clk, ctrl.writeMode, tree.nodes;
      callbacks := BeginTick(refreshes);
      ctrl.UpdateWriteMode();
      ghost var begun := ctrl.C();
      var timing := TimingNow(tree.spec, org, tree.nodes, ctrl.clk);
      var pick := Pick(timing, cores);
      inputs := Inputs(refreshes, timing, pick);
      EndTick(timing, pick);
      WholeTick(org, speed, policy, cores, State(c, now, mode), nodes, inputs, ctrl.readLatency,
                begun, ctrl.Due(), S(), tree.nodes);
    }
  }
}
