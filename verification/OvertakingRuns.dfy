/**
 The runs in which a write is served before an older read of its address: runs of the controller with its
 DRAM tree and any of its policies.  Writes keep arriving, so that they have their turn; the policy prefers
 none of them to the write in question; and every command is ready some time.
 */
module OvertakingRuns {
  import opened Common
  import opened RowTable
  import opened Controller
  import opened ChannelRuns
  import opened Policies
  import opened DramControl
  import opened Overtaking
  import D = DramTiming
  import H = DramHistory
  import T = DramTree
  import S = Ddr4

  // ---- the tree gets ready ----

  lemma HasBound(xs: set<int>) returns (bound: int)
    ensures forall x :: x in xs ==> x <= bound
  {
    bound := 0;
    if x :| x in xs {
      var others := HasBound(xs - {x});
      bound := Max(x, others);
      assert forall y :: y in xs ==> y == x || y in xs - {x};
    }
  }

  /** By that time all commands are ready everywhere, if nothing more is issued. */
  ghost predicate ReadyBy(nodes: D.Nodes, clk: int) {
    D.AllNodesOk(nodes) && forall p, c: D.Command :: p in nodes ==> nodes[p].next[c] <= clk
  }

  lemma GetsReady(nodes: D.Nodes) returns (bound: int)
    requires D.AllNodesOk(nodes)
    ensures ReadyBy(nodes, bound)
  {
    var xs := set p, c: D.Command | p in nodes && c in nodes[p].next :: nodes[p].next[c];
    bound := HasBound(xs);
    assert forall p, c: D.Command :: p in nodes ==> nodes[p].next[c] in xs;
  }

  lemma AllAreReady(speed: S.SpeedEntry, org: Org, nodes: D.Nodes, bound: int, clk: int, cmd: Command, p: Path,
                    row: nat)
    requires D.NodesOk(SpecOf(speed, org), org.channel, nodes) && ReadyBy(nodes, bound) && bound <= clk
    requires IsBank(org, p) || IsRank(org, p)
    ensures IsReady(TimingNow(SpecOf(speed, org), org, nodes, clk), cmd, p, row)
  {
    AddressesOk(speed, org, p, row);
    ReadyIsCheck(SpecOf(speed, org), org, nodes, clk, cmd, p, row);
  }

  // ---- a tick of the system ----

  /** The mode and the turn of a tick in which no refresh arrives. */
  function ModeOf(s: State): bool {
    NextWriteMode(s.writeMode, s.c.qs)
  }

  function TurnOf(s: State): Source {
    Turn(s.c.qs, ModeOf(s))
  }

  /** The queue whose turn it is, at the end of such a tick. */
  function QueueOf(s: State): seq<Request> {
    Queue(Complete(s.c.qs, Next(s)), TurnOf(s))
  }

  function TimingOf(k: System, s: State, nodes: D.Nodes): Timing
    requires D.NodesOk(SpecOf(k.speed, k.org), k.org.channel, nodes)
  {
    TimingNow(SpecOf(k.speed, k.org), k.org, nodes, Next(s))
  }

  /** What the policy sees of it. */
  ghost predicate IsPickOf(k: System, s: State, timing: Timing, pick: int) {
    && AllAddressed(QueueOf(s), s.c.dram.banks)
    && IsPick(k.policy, Next(s), ItemsOf(QueueOf(s), timing, s.c.dram.banks, s.c.dram.table, CoresAt(k, Next(s))), pick)
  }

  /** The tick serves the pick, or it is not ready. */
  ghost predicate IsTickOf(k: System, s: State, nodes: D.Nodes, timing: Timing, pick: int, depart: int,
                           t: State, after: D.Nodes) {
    var qs, banks, q := Complete(s.c.qs, Next(s)), s.c.dram.banks, QueueOf(s);
    && AllAddressed(q, banks) && D.AllNodesOk(nodes)
    && if 0 <= pick < |q| && RequestReady(timing, banks, q[pick]) then
         && IsServedBy(qs, banks, TurnOf(s), pick, depart, t.c.qs, t.c.dram.banks)
         && after == NodesIssued(k.org, k.speed, nodes, FirstCommand(q[pick], banks), q[pick], Next(s))
       else t.c.qs == qs && t.c.dram.banks == banks && after == nodes
  }

  /** The tick of the system, on the channel's side. */
  lemma TickParted(s: State, timing: Timing, pick: int, latency: nat) returns (begun: Channel, depart: int)
    requires StateOk(s) && latency > 1
    ensures begun == TickBegin(s.c, s.now, []) && begun.qs == Complete(s.c.qs, Next(s)) && begun.dram == s.c.dram
    ensures ChannelOk(begun, Next(s)) && ModeOf(s) == TickMode(s.c, s.now, s.writeMode, [])
    ensures Turn(begun.qs, ModeOf(s)) == TurnOf(s) && Addressed(begun.qs, begun.dram.banks)
    ensures
      var t := Passed(s, Inputs([], timing, pick), latency);
      && t.now == Next(s) && t.writeMode == ModeOf(s)
      && match Choose(begun.qs, begun.dram.banks, ModeOf(s), timing, pick)
         case Idle => t.c == begun
         case Chosen(source, i) => IsServedBy(begun.qs, begun.dram.banks, source, i, depart, t.c.qs, t.c.dram.banks)
  {
    var inputs := Inputs([], timing, pick);
    var clk, mode, t;
    begun, clk, mode, depart, t := TickParts(s, inputs, latency);
    TickBeginIs(s.c, s.now, [], clk, begun);
    TickEndServes(begun, clk, mode, timing, pick, depart, t);
  }

  /** The inputs of such a tick: the tree answers and the policy picks. */
  lemma InputsOf(k: System, s: State, nodes: D.Nodes) returns (inputs: Inputs)
    requires SystemOk(k, s, nodes)
    ensures inputs.refreshes == [] && inputs.timing == TimingOf(k, s, nodes)
    ensures IsPickOf(k, s, inputs.timing, inputs.pick) && Obeys(k, s, nodes, Pass(inputs))
  {
    hide ChannelOk, D.NodesOk, Mapped, TimingNow, Complete, Passed;
    var timing := TimingOf(k, s, nodes);
    var begun, _ := TickParted(s, timing, 0, k.latency);
    QueueAddressed(begun, Next(s), TurnOf(s));
    var pick := PickOf(k.policy, Next(s),
                       ItemsOf(QueueOf(s), timing, s.c.dram.banks, s.c.dram.table, CoresAt(k, Next(s))));
    inputs := Inputs([], timing, pick);
  }

  /** A tick of the system without refreshes. */
  lemma RealTick(k: System, s: State, nodes: D.Nodes) returns (inputs: Inputs, depart: int, t: State, after: D.Nodes)
    requires SystemOk(k, s, nodes)
    ensures Obeys(k, s, nodes, Pass(inputs)) && SystemOk(k, t, after) && t.now == Next(s) && t.writeMode == ModeOf(s)
    ensures t == Step(s, Pass(inputs), k.latency) && after == NodesNext(k, s, nodes, Pass(inputs))
    ensures inputs.refreshes == [] && inputs.timing == TimingOf(k, s, nodes)
    ensures IsPickOf(k, s, inputs.timing, inputs.pick)
    ensures IsTickOf(k, s, nodes, inputs.timing, inputs.pick, depart, t, after)
  {
    hide ChannelOk, D.NodesOk, Mapped, TimingNow, Complete, Passed, IsServedBy, IsPick, IsPolicyPick, NodesIssued;
    TreeHasNodes(SpecOf(k.speed, k.org), k.org.channel, nodes);
    inputs := InputsOf(k, s, nodes);
    var begun;
    begun, depart := TickParted(s, inputs.timing, inputs.pick, k.latency);
    StepOk(k, s, nodes, Pass(inputs));
    t, after := Step(s, Pass(inputs), k.latency), NodesNext(k, s, nodes, Pass(inputs));
  }

  // ---- where a write is ----

  /** A write that waits in the write queue, has been promoted, or has been served. */
  datatype Stage = Queued(j: nat) | Promoted | Finished

  datatype Target = Target(id: nat, addr: nat, path: Path, row: nat)

  /** A write like the target, and no older. */
  predicate IsAlike(r: Request, w: Target) {
    r.kind.WriteRequest? && r.addr == w.addr && r.path == w.path && r.row == w.row && r.id >= w.id
  }

  /** Behind the target there are only writes like it. */
  ghost predicate At(qs: Queues, w: Target, stage: Stage) {
    match stage
    case Queued(j) =>
      && j < |qs.writeq| && qs.writeq[j].id == w.id
      && forall l :: j <= l < |qs.writeq| ==> IsAlike(qs.writeq[l], w)
    case Promoted => |qs.actq| == 1 && qs.actq[0].id == w.id && qs.actq[0].kind.WriteRequest?
    case Finished => w.id in qs.called
  }

  /** How many requests go before, a request that is to be promoted counting twice. */
  function Work(qs: Queues, stage: Stage): nat {
    |qs.actq| + |qs.otherq| + if stage.Queued? then 2 * (stage.j + 1) else 0
  }

  function OpenBanks(banks: Banks): set<Path> {
    set p | p in banks && banks[p].isOpen
  }

  /** The target comes nearer: less work is left, or fewer banks are open. */
  ghost predicate Nearer(qs: Queues, banks: Banks, stage: Stage, qsNow: Queues, banksNow: Banks, now: Stage) {
    || Work(qsNow, now) < Work(qs, stage)
    || (Work(qsNow, now) == Work(qs, stage) && OpenBanks(banksNow) < OpenBanks(banks))
  }

  /** The stage after a request has been served. */
  function StageAfter(stage: Stage, source: Source, i: nat, cmd: Command): Stage {
    if stage.Promoted? && IsAccessing(cmd) then Finished
    else if !stage.Queued? || !source.FromWrite? || !(cmd.Activate? || cmd.Write?) then stage
    else if i < stage.j then Queued(stage.j - 1)
    else if i > stage.j then stage
    else if cmd.Activate? then Promoted
    else Finished
  }

  lemma FewerOpen(banks: Banks, cmd: Command, path: Path, row: nat)
    requires Fits(banks, cmd, path, row) && (cmd.Precharge? || cmd.PrechargeAll?)
    ensures OpenBanks(BanksAfter(banks, cmd, path, row)) < OpenBanks(banks)
  {
    var before, after := OpenBanks(banks), OpenBanks(BanksAfter(banks, cmd, path, row));
    if cmd.Precharge? {
      assert path in before && path !in after;
    } else {
      var p :| p in banks && Prefix(p, RANK_LEVEL) == path && banks[p].isOpen;
      assert p in before && p !in after;
    }
  }

  lemma AtServed(qs: Queues, banks: Banks, clk: int, source: Source, i: nat, depart: int,
                 qsNow: Queues, banksNow: Banks, w: Target, stage: Stage, now: Stage)
    requires Typed(qs, clk, banks.Keys) && IsServedBy(qs, banks, source, i, depart, qsNow, banksNow)
    requires !source.FromRead? && !stage.Finished? && At(qs, w, stage)
    requires source.FromWrite? ==> stage.Queued? && i <= stage.j
    requires now == StageAfter(stage, source, i, FirstCommand(Queue(qs, source)[i], banks))
    ensures At(qsNow, w, now) && qsNow.readq == qs.readq
  {
    var q := Queue(qs, source);
    assert forall j :: 0 <= j < |q| - 1 ==> Without(q, i)[j] == q[if j < i then j else j + 1];
  }

  lemma NearerServed(qs: Queues, banks: Banks, clk: int, source: Source, i: nat, depart: int,
                     qsNow: Queues, banksNow: Banks, w: Target, stage: Stage, now: Stage)
    requires Typed(qs, clk, banks.Keys) && IsServedBy(qs, banks, source, i, depart, qsNow, banksNow)
    requires !source.FromRead? && !stage.Finished? && At(qs, w, stage)
    requires source.FromWrite? ==> stage.Queued? && i <= stage.j
    requires now == StageAfter(stage, source, i, FirstCommand(Queue(qs, source)[i], banks))
    ensures Nearer(qs, banks, stage, qsNow, banksNow, now)
  {
    var r := Queue(qs, source)[i];
    var cmd := FirstCommand(r, banks);
    if cmd.Precharge? || cmd.PrechargeAll? {
      FewerOpen(banks, cmd, r.path, r.row);
    }
  }

  // ---- what the policy prefers ----

  /** For the policies whose bookkeeping matters, the writes like the target come from one core. */
  ghost predicate OneCore(k: System, w: Target) {
    k.policy.Atlas? || k.policy.Bliss? ==>
      forall clk: int, a: Request, b: Request :: IsAlike(a, w) && IsAlike(b, w) ==> SameCore(CoresAt(k, clk), a, b)
  }

  predicate SameCore(cores: Cores, a: Request, b: Request) {
    cores.attained(a) == cores.attained(b) && cores.blacklisted(a) == cores.blacklisted(b)
  }

  /** The second of two items is no better for the policy. */
  predicate NoBetter(policy: Policy, x: Item, y: Item) {
    var a, b := KeyOf(policy, x), KeyOf(policy, y);
    a.major == b.major && a.minor == b.minor && x.arrive <= y.arrive
  }

  lemma NotPicked(policy: Policy, clk: int, q: seq<Item>, j: nat, l: nat)
    requires j < l < |q| && NoBetter(policy, q[j], q[l])
    ensures !IsPick(policy, clk, q, l)
  {
    assert !Below(KeyOf(policy, q[l]), KeyOf(policy, q[j]));
    assert IsOverdue(q[l], clk) ==> IsOverdue(q[j], clk);
  }

  /** If nothing behind number j is better, nothing behind it is picked. */
  lemma PickIsBefore(policy: Policy, clk: int, q: seq<Item>, pick: int, j: nat)
    requires IsPick(policy, clk, q, pick) && j < |q|
    requires forall l :: j < l < |q| ==> NoBetter(policy, q[j], q[l])
    ensures 0 <= pick <= j
  {
    if pick > j {
      NotPicked(policy, clk, q, j, pick);
    }
  }

  /** Of two writes like the target the one that arrived later is no better. */
  lemma LaterIsNoBetter(k: System, clk: int, timing: Timing, banks: Banks, table: Table, w: Target, a: Request,
                        b: Request)
    requires IsAlike(a, w) && IsAlike(b, w) && a.arrive <= b.arrive && OneCore(k, w) && w.path in banks
    ensures NoBetter(k.policy, ItemOf(a, timing, banks, table, CoresAt(k, clk)),
                     ItemOf(b, timing, banks, table, CoresAt(k, clk)))
  {
    if k.policy.Atlas? || k.policy.Bliss? {
      assert SameCore(CoresAt(k, clk), a, b);
    }
  }

  /** When writes have their turn, the pick is the target or goes before it. */
  lemma PickIsNotBehind(k: System, s: State, timing: Timing, pick: int, w: Target, j: nat)
    requires StateOk(s) && IsPickOf(k, s, timing, pick) && OneCore(k, w) && TurnOf(s).FromWrite?
    requires At(s.c.qs, w, Queued(j)) && w.path in s.c.dram.banks
    ensures 0 <= pick <= j
  {
    var q := QueueOf(s);
    var items := ItemsOf(q, timing, s.c.dram.banks, s.c.dram.table, CoresAt(k, Next(s)));
    forall l | j < l < |items|
      ensures NoBetter(k.policy, items[j], items[l])
    {
      assert InArrivalOrder(q);
      LaterIsNoBetter(k, Next(s), timing, s.c.dram.banks, s.c.dram.table, w, q[j], q[l]);
    }
    PickIsBefore(k.policy, Next(s), items, pick, j);
  }

  // ---- one tick nearer ----

  /** A request of the queue whose turn it is has its command admitted once everything is ready. */
  lemma PickIsReady(k: System, s: State, nodes: D.Nodes, pick: nat)
    requires SystemOk(k, s, nodes) && ReadyBy(nodes, Next(s)) && pick < |QueueOf(s)|
    ensures IsAddressed(QueueOf(s)[pick], s.c.dram.banks)
    ensures RequestReady(TimingOf(k, s, nodes), s.c.dram.banks, QueueOf(s)[pick])
  {
    RequestIsAddressed(k.org, s.c, s.now, TurnOf(s), pick);
    var r := QueueOf(s)[pick];
    AllAreReady(k.speed, k.org, nodes, Next(s), Next(s), FirstCommand(r, s.c.dram.banks), r.path, r.row);
  }

  /** It is not the turn of the reads, and if it is the turn of the writes, the pick is not behind the target. */
  ghost predicate GoesOn(k: System, s: State, w: Target, stage: Stage) {
    && OneCore(k, w) && w.path in s.c.dram.banks
    && !stage.Finished? && At(s.c.qs, w, stage)
    && (stage.Queued? ==> |s.c.qs.writeq| > HIGH_WATERMARK || s.c.qs.readq == [])
  }

  lemma PickGoesBefore(k: System, s: State, timing: Timing, pick: int, w: Target, stage: Stage)
    requires StateOk(s) && IsPickOf(k, s, timing, pick) && GoesOn(k, s, w, stage)
    ensures !TurnOf(s).FromRead? && 0 <= pick < |QueueOf(s)|
    ensures TurnOf(s).FromWrite? ==> stage.Queued? && pick <= stage.j
  {
    if TurnOf(s).FromWrite? {
      PickIsNotBehind(k, s, timing, pick, w, stage.j);
    }
  }

  /** Nothing has happened but that time has passed. */
  ghost predicate Waited(s: State, nodes: D.Nodes, t: State, after: D.Nodes) {
    && t.c.qs == Complete(s.c.qs, Next(s)) && t.c.dram.banks == s.c.dram.banks && after == nodes
    && !ReadyBy(nodes, Next(s))
  }

  /** The callback of a read changes nothing of this. */
  lemma SameWithout(s: State, clk: int, w: Target, stage: Stage)
    requires StateOk(s) && At(s.c.qs, w, stage)
    ensures
      var qs := Complete(s.c.qs, clk);
      && Typed(qs, s.now, s.c.dram.banks.Keys) && At(qs, w, stage)
      && qs.readq == s.c.qs.readq && Work(qs, stage) == Work(s.c.qs, stage)
  {
  }

  lemma TickServed(s: State, clk: int, source: Source, pick: nat, depart: int, t: State, w: Target, stage: Stage)
      returns (now: Stage)
    requires StateOk(s) && At(s.c.qs, w, stage) && !source.FromRead? && !stage.Finished?
    requires source.FromWrite? ==> stage.Queued? && pick <= stage.j
    requires IsServedBy(Complete(s.c.qs, clk), s.c.dram.banks, source, pick, depart, t.c.qs, t.c.dram.banks)
    ensures At(t.c.qs, w, now) && t.c.qs.readq == s.c.qs.readq && t.c.dram.banks.Keys == s.c.dram.banks.Keys
    ensures Nearer(s.c.qs, s.c.dram.banks, stage, t.c.qs, t.c.dram.banks, now)
  {
    hide ChannelOk, Typed, At, Work, Complete;
    var qs, banks := Complete(s.c.qs, clk), s.c.dram.banks;
    SameWithout(s, clk, w, stage);
    var r := Queue(qs, source)[pick];
    SameBanks(banks, FirstCommand(r, banks), r.path, r.row);
    now := StageAfter(stage, source, pick, FirstCommand(r, banks));
    AtServed(qs, banks, s.now, source, pick, depart, t.c.qs, t.c.dram.banks, w, stage, now);
    NearerServed(qs, banks, s.now, source, pick, depart, t.c.qs, t.c.dram.banks, w, stage, now);
  }

  lemma TickServes(k: System, s: State, nodes: D.Nodes, timing: Timing, pick: int, depart: int, t: State,
                   after: D.Nodes, w: Target, stage: Stage) returns (now: Stage)
    requires SystemOk(k, s, nodes) && timing == TimingOf(k, s, nodes) && IsPickOf(k, s, timing, pick)
    requires IsTickOf(k, s, nodes, timing, pick, depart, t, after) && GoesOn(k, s, w, stage)
    ensures At(t.c.qs, w, now) && t.c.qs.readq == s.c.qs.readq && t.c.dram.banks.Keys == s.c.dram.banks.Keys
    ensures Nearer(s.c.qs, s.c.dram.banks, stage, t.c.qs, t.c.dram.banks, now)
         || (now == stage && Waited(s, nodes, t, after))
  {
    hide ChannelOk, D.NodesOk, Mapped, TimingNow, IsPick, IsServedBy, At, Nearer, ReadyBy, Complete;
    PickGoesBefore(k, s, timing, pick, w, stage);
    if RequestReady(timing, s.c.dram.banks, QueueOf(s)[pick]) {
      now := TickServed(s, Next(s), TurnOf(s), pick, depart, t, w, stage);
    } else {
      now := stage;
      SameWithout(s, Next(s), w, stage);
      if ReadyBy(nodes, Next(s)) {
        PickIsReady(k, s, nodes, pick);
      }
    }
  }

  // ---- the run ----

  /** The events are real ones, and after them the target has been served and the reads still wait. */
  ghost predicate Reaches(k: System, s: State, nodes: D.Nodes, events: seq<Event>, w: Target, waiting: seq<Request>)
    requires SystemOk(k, s, nodes)
  {
    && IsReal(k, s, nodes, events)
    && var qs := Go(s, events, k.latency).c.qs;
    w.id in qs.called && qs.readq == waiting
  }

  lemma ReachesNow(k: System, s: State, nodes: D.Nodes, w: Target, waiting: seq<Request>)
    requires SystemOk(k, s, nodes) && w.id in s.c.qs.called && s.c.qs.readq == waiting
    ensures Reaches(k, s, nodes, [], w, waiting)
  {
  }

  lemma ReachesBefore(k: System, s: State, nodes: D.Nodes, e: Event, t: State, after: D.Nodes, more: seq<Event>,
                      w: Target, waiting: seq<Request>)
    requires SystemOk(k, s, nodes) && SystemOk(k, t, after) && Obeys(k, s, nodes, e)
    requires t == Step(s, e, k.latency) && after == NodesNext(k, s, nodes, e) && Reaches(k, t, after, more, w, waiting)
    ensures Reaches(k, s, nodes, [e] + more, w, waiting)
    ensures Go(s, [e] + more, k.latency) == Go(t, more, k.latency)
  {
    hide ChannelOk, Mapped, D.NodesOk, Obeys, NodesNext, Step;
    GoFirst(s, e, more, k.latency);
    assert ([e] + more)[0] == e && ([e] + more)[1..] == more;
  }

  /** One more write like the target arrives. */
  lemma OneArrives(s: State, w: Target, j: nat, t: State)
    requires StateOk(s) && At(s.c.qs, w, Queued(j)) && w.path in s.c.dram.banks && |s.c.qs.writeq| <= HIGH_WATERMARK
    requires t == Arrived(s, WriteRequest, w.addr, w.path, w.row)
    ensures At(t.c.qs, w, Queued(j)) && Work(t.c.qs, Queued(j)) == Work(s.c.qs, Queued(j))
    ensures t.now == s.now && t.c.dram.banks == s.c.dram.banks && t.c.qs.readq == s.c.qs.readq
    ensures |t.c.qs.writeq| == |s.c.qs.writeq| + 1
  {
    assert IsFor(s.c.qs.writeq[j], WriteRequest, s.c.qs.accepted, s.now, s.c.dram.banks.Keys);
  }

  lemma OneMore(k: System, s: State, nodes: D.Nodes, w: Target, j: nat) returns (e: Event, t: State)
    requires SystemOk(k, s, nodes) && At(s.c.qs, w, Queued(j)) && w.path in s.c.dram.banks
    requires |s.c.qs.writeq| <= HIGH_WATERMARK
    ensures Obeys(k, s, nodes, e) && t == Step(s, e, k.latency) && nodes == NodesNext(k, s, nodes, e)
    ensures SystemOk(k, t, nodes) && At(t.c.qs, w, Queued(j)) && Work(t.c.qs, Queued(j)) == Work(s.c.qs, Queued(j))
    ensures t.now == s.now && t.c.dram.banks == s.c.dram.banks && t.c.qs.readq == s.c.qs.readq
    ensures |t.c.qs.writeq| == |s.c.qs.writeq| + 1
  {
    hide ChannelOk, Mapped, D.NodesOk, Arrived, At, Work;
    e := Arrive(WriteRequest, w.addr, w.path, w.row);
    BankIsThere(k.org, s.c, w.path);
    StepOk(k, s, nodes, e);
    t := Step(s, e, k.latency);
    OneArrives(s, w, j, t);
  }

  function Missing(qs: Queues): nat {
    if |qs.writeq| <= HIGH_WATERMARK then HIGH_WATERMARK + 1 - |qs.writeq| else 0
  }

  function Left(bound: int, now: int): nat {
    if now < bound then bound - now else 0
  }

  lemma WaitsLess(s: State, nodes: D.Nodes, t: State, after: D.Nodes, stage: Stage, bound: int)
    requires Waited(s, nodes, t, after) && ReadyBy(nodes, bound) && t.now == Next(s)
    ensures Work(t.c.qs, stage) == Work(s.c.qs, stage) && t.c.dram.banks == s.c.dram.banks && after == nodes
    ensures Left(bound, t.now) < Left(bound, s.now)
  {
  }

  /** Wherever the target is, a run leads to its being served while the reads wait. */
  lemma ServeTarget(k: System, s: State, nodes: D.Nodes, w: Target, stage: Stage, bound: int)
      returns (events: seq<Event>)
    requires SystemOk(k, s, nodes) && OneCore(k, w) && w.path in s.c.dram.banks
    requires At(s.c.qs, w, stage) && ReadyBy(nodes, bound)
    ensures Reaches(k, s, nodes, events, w, s.c.qs.readq)
    decreases Work(s.c.qs, stage), OpenBanks(s.c.dram.banks), Left(bound, s.now), Missing(s.c.qs)
  {
    hide ChannelOk, Mapped, D.NodesOk, OneCore, Obeys, NodesNext, Step, IsPickOf, IsTickOf, OpenBanks, Work, Reaches;
    var waiting := s.c.qs.readq;
    if stage.Finished? {
      ReachesNow(k, s, nodes, w, waiting);
      events := [];
    } else if stage.Queued? && |s.c.qs.writeq| <= HIGH_WATERMARK {
      var e, t := OneMore(k, s, nodes, w, stage.j);
      var more := ServeTarget(k, t, nodes, w, stage, bound);
      ReachesBefore(k, s, nodes, e, t, nodes, more, w, waiting);
      events := [e] + more;
    } else {
      var inputs, depart, t, after := RealTick(k, s, nodes);
      var now := TickServes(k, s, nodes, inputs.timing, inputs.pick, depart, t, after, w, stage);
      var boundNow := bound;
      if Nearer(s.c.qs, s.c.dram.banks, stage, t.c.qs, t.c.dram.banks, now) {
        boundNow := GetsReady(after);
      } else {
        WaitsLess(s, nodes, t, after, stage, bound);
      }
      var more := ServeTarget(k, t, after, w, now, boundNow);
      ReachesBefore(k, s, nodes, Pass(inputs), t, after, more, w, waiting);
      events := [Pass(inputs)] + more;
    }
  }

  // ---- exactly when ----

  lemma ReadStillWaits(s: State, addr: nat, qs: Queues)
    requires StateOk(s) && HasAddr(s.c.qs.readq, addr) && qs.readq == s.c.qs.readq
    ensures OlderReadWaits(qs, addr, s.c.qs.accepted)
  {
    var i :| 0 <= i < |s.c.qs.readq| && s.c.qs.readq[i].addr == addr;
    assert IsFor(s.c.qs.readq[i], ReadRequest, s.c.qs.accepted, s.now, s.c.dram.banks.Keys);
    assert qs.readq[i].id < s.c.qs.accepted;
  }

  /** The write that is accepted next. */
  function NextWrite(s: State, addr: nat, path: Path, row: nat): Target {
    Target(s.c.qs.accepted, addr, path, row)
  }

  /** It is the last in the write queue. */
  lemma WriteIsQueued(k: System, s: State, nodes: D.Nodes, addr: nat, path: Path, row: nat)
    requires SystemOk(k, s, nodes) && path in s.c.dram.banks && |s.c.qs.writeq| < QUEUE_MAX
    ensures
      var t := WithWrite(s, addr, path, row);
      && SystemOk(k, t, nodes) && t.c.qs.readq == s.c.qs.readq && t.c.dram.banks == s.c.dram.banks
      && At(t.c.qs, NextWrite(s, addr, path, row), Queued(|s.c.qs.writeq|))
  {
    hide ChannelOk, D.NodesOk;
    MappedArrived(k.org, s, WriteRequest, addr, path, row);
  }

  /** A run of the system overtakes. */
  ghost predicate SystemOvertakes(k: System, s: State, nodes: D.Nodes, events: seq<Event>, addr: nat, id: nat)
    requires SystemOk(k, s, nodes)
  {
    IsReal(k, s, nodes, events) && Overtakes(s, events, k.latency, addr, id)
  }

  lemma OvertakingRun(k: System, s: State, nodes: D.Nodes, addr: nat, path: Path, row: nat) returns (events: seq<Event>)
    requires SystemOk(k, s, nodes) && path in s.c.dram.banks && |s.c.qs.writeq| < QUEUE_MAX
    requires OneCore(k, NextWrite(s, addr, path, row)) && HasAddr(s.c.qs.readq, addr)
    ensures SystemOk(k, WithWrite(s, addr, path, row), nodes)
    ensures SystemOvertakes(k, WithWrite(s, addr, path, row), nodes, events, addr, s.c.qs.accepted)
  {
    var t, w := WithWrite(s, addr, path, row), NextWrite(s, addr, path, row);
    WriteIsQueued(k, s, nodes, addr, path, row);
    var bound := GetsReady(nodes);
    events := ServeTarget(k, t, nodes, w, Queued(|s.c.qs.writeq|), bound);
    ReadStillWaits(s, addr, Go(t, events, k.latency).c.qs);
  }

  /** In the system, whatever its policy, a write that is accepted can come to be served before an older read
      of its address iff such a read waits in the read queue: from every well-formed state, over all runs. */
  lemma OvertakesIffReadWaits(k: System, s: State, nodes: D.Nodes, addr: nat, path: Path, row: nat)
    requires SystemOk(k, s, nodes) && IsBank(k.org, path) && |s.c.qs.writeq| < QUEUE_MAX
    requires OneCore(k, NextWrite(s, addr, path, row))
    ensures path in s.c.dram.banks && SystemOk(k, WithWrite(s, addr, path, row), nodes)
    ensures
      var t := WithWrite(s, addr, path, row);
      (exists events :: SystemOvertakes(k, t, nodes, events, addr, s.c.qs.accepted)) <==> HasAddr(s.c.qs.readq, addr)
  {
    hide ChannelOk, D.NodesOk, Overtakes, IsReal;
    BankIsThere(k.org, s.c, path);
    WriteIsQueued(k, s, nodes, addr, path, row);
    if HasAddr(s.c.qs.readq, addr) {
      var events := OvertakingRun(k, s, nodes, addr, path, row);
    } else {
      forall events
        ensures !SystemOvertakes(k, WithWrite(s, addr, path, row), nodes, events, addr, s.c.qs.accepted)
      {
        NeverOvertakes(s, addr, path, row, events, k.latency);
      }
    }
  }

  // ---- the first writes ----

  /** When nothing has been issued, everything is ready. */
  lemma StartIsReady(k: System)
    requires k.latency > 1
    ensures ReadyBy(StartNodes(k.org, k.speed), 0)
  {
  }

  /** In a controller that has just been built some reads of the target's address have arrived, none or one, and
      then some writes like the target, the first of which is the target. */
  ghost predicate HasArrived(k: System, s: State, w: Target, n: nat) {
    && s.now == 0 && s.c.dram == Start(k.org).c.dram && w.id == |s.c.qs.readq| && s.c.qs.accepted == n + w.id
    && (w.id == 0 || (w.id == 1 && s.c.qs.readq[0].addr == w.addr && s.c.qs.readq[0].id == 0))
    && |s.c.qs.writeq| == n && (n > 0 ==> At(s.c.qs, w, Queued(0)))
    && s.c.qs.actq == [] && s.c.qs.otherq == [] && s.c.qs.pending == [] && s.c.qs.called == []
  }

  lemma StartIsOk(k: System)
    requires k.latency > 1
    ensures SystemOk(k, Start(k.org), StartNodes(k.org, k.speed))
  {
    hide ChannelOk, D.NodesOk, Mapped;
    NodesAboveBanks(k.org);
    EmptyOk(NodesOf(k.org), BanksOf(k.org));
    MappedStart(k.org);
    S.Ddr4SpecOk(k.speed, k.org.ranks, k.org.bankGroups, k.org.banks);
    T.InitialTree(SpecOf(k.speed, k.org), k.org.channel, StartNodes(k.org, k.speed));
  }

  lemma MappedStart(org: Org)
    ensures Mapped(org, Start(org).c)
  {
  }

  /** The target and its trace entry for the command that opens its row. */
  function RowOpened(k: System, w: Target): H.Issue {
    H.Issue(D.ACT, AddressOf(k.org, w.path, w.row), 1)
  }

  /** After the activate a write waits at the bank only. */
  lemma WaitsAtBank(speed: S.SpeedEntry, level: nat, e: D.TimingEntry)
    requires e.cmd == D.WR
    ensures e in S.TimingTable(speed, level, D.ACT) <==>
            level == S.BANK && e == D.TimingEntry(D.WR, 1, speed.nRCD, false)
  {
    S.AfterHas([D.ACT], speed.nRRDS, e);
    S.AfterHas([D.PREA], speed.nRAS, e);
    S.AfterHas([D.REF], speed.nRC, e);
    S.AfterHas([D.PDE], 1, e);
    S.AfterHas([D.ACT], speed.nRRDL, e);
    S.AfterHas(S.READS + S.WRITES, speed.nRCD, e);
    S.AfterHas([D.ACT], speed.nRC, e);
    S.AfterHas([D.PRE], speed.nRAS, e);
  }

  lemma LevelAdmits(k: System, w: Target, l: nat, clk: int)
    requires IsBank(k.org, w.path) && clk >= 0 && l <= S.BANK
    ensures
      var p := T.WayNode(AddressOf(k.org, w.path, w.row), l);
      H.NodeAdmits(SpecOf(k.speed, k.org), [RowOpened(k, w)], p, D.WR, clk) <==>
      (l == S.BANK ==> clk >= 1 + k.speed.nRCD)
  {
    var spec, trace, p := SpecOf(k.speed, k.org), [RowOpened(k, w)], T.WayNode(AddressOf(k.org, w.path, w.row), l);
    assert [] + [RowOpened(k, w)] == trace && D.IsTarget(p, RowOpened(k, w).addr);
    forall c: D.Command, e | e in D.Timing(spec, l, c) && e.cmd == D.WR
      ensures H.EntryMetAt(trace, p, c, e, clk) <==> (c == D.ACT ==> clk >= 1 + k.speed.nRCD)
      ensures c == D.ACT ==> l == S.BANK
    {
      WaitsAtBank(k.speed, l, e);
      H.TimesOfEmpty(p, c);
      H.TimesOfExtended([], RowOpened(k, w), p, c);
      var times := H.TargetTimes(trace, p, c);
      assert if c == D.ACT then times == [1] && times[0] == 1 else times == [];
    }
    var wait := D.TimingEntry(D.WR, 1, k.speed.nRCD, false);
    WaitsAtBank(k.speed, l, wait);
    assert l == S.BANK ==> wait in D.Timing(spec, D.LevelOf(p), D.ACT);
  }

  /** The write to the row that has been opened at time 1 is ready nRCD cycles later, and not before. */
  lemma WriteIsAdmitted(k: System, w: Target, clk: int)
    requires IsBank(k.org, w.path) && clk >= 0
    ensures
      var spec, s := SpecOf(k.speed, k.org), H.Issue(D.WR, AddressOf(k.org, w.path, w.row), clk);
      D.AddressOk(spec, s.addr) && (T.TraceAdmits(spec, [RowOpened(k, w)], s) <==> clk >= 1 + k.speed.nRCD)
  {
    var spec, trace := SpecOf(k.speed, k.org), [RowOpened(k, w)];
    var s := H.Issue(D.WR, AddressOf(k.org, w.path, w.row), clk);
    AddressesOk(k.speed, k.org, w.path, w.row);
    assert T.LastLevel(spec, D.WR, s.addr, 3) == 3;
    assert T.LastLevel(spec, D.WR, s.addr, 2) == 3;
    assert T.LastLevel(spec, D.WR, s.addr, 1) == 3;
    forall l: nat | T.OnWay(spec, D.WR, s.addr, 0, l)
      ensures H.NodeAdmits(spec, trace, T.WayNode(s.addr, l), D.WR, clk) <==> (l == S.BANK ==> clk >= 1 + k.speed.nRCD)
    {
      LevelAdmits(k, w, l, clk);
    }
    assert T.OnWay(spec, D.WR, s.addr, 0, S.BANK);
  }

  /** The tree when the row has been opened. */
  ghost function TreeOpened(k: System, w: Target): (after: D.Nodes)
  {
    T.NodesAfter(SpecOf(k.speed, k.org), StartNodes(k.org, k.speed), D.ACT, AddressOf(k.org, w.path, w.row), 1)
  }

  lemma TreeFollows(k: System, w: Target)
    ensures D.NodesOk(SpecOf(k.speed, k.org), k.org.channel, TreeOpened(k, w)) && D.AllNodesOk(TreeOpened(k, w))
    ensures T.AllSummarise(SpecOf(k.speed, k.org), [RowOpened(k, w)], TreeOpened(k, w))
  {
    hide D.AllNodesOk, T.AllSummarise, SpecOf, AddressOf;
    var spec, s := SpecOf(k.speed, k.org), RowOpened(k, w);
    StartSummarises(k);
    T.NodesAfterSummarise(spec, k.org.channel, StartNodes(k.org, k.speed), [], s, TreeOpened(k, w));
    assert [] + [s] == [s];
    TreeHasNodes(spec, k.org.channel, TreeOpened(k, w));
  }

  lemma StartSummarises(k: System)
    ensures D.SpecOk(SpecOf(k.speed, k.org))
    ensures D.NodesOk(SpecOf(k.speed, k.org), k.org.channel, StartNodes(k.org, k.speed))
    ensures T.AllSummarise(SpecOf(k.speed, k.org), [], StartNodes(k.org, k.speed))
  {
    hide D.AllNodesOk, T.AllSummarise;
    S.Ddr4SpecOk(k.speed, k.org.ranks, k.org.bankGroups, k.org.banks);
    T.InitialTree(SpecOf(k.speed, k.org), k.org.channel, StartNodes(k.org, k.speed));
    TreeHasNodes(SpecOf(k.speed, k.org), k.org.channel, StartNodes(k.org, k.speed));
  }

  /** The tree's test of the write is the one on the trace. */
  lemma WriteIsChecked(k: System, w: Target, nodes: D.Nodes, trace: H.Trace, clk: int)
    requires IsBank(k.org, w.path) && clk >= 0 && D.NodesOk(SpecOf(k.speed, k.org), k.org.channel, nodes)
    requires D.AllNodesOk(nodes) && T.AllSummarise(SpecOf(k.speed, k.org), trace, nodes)
    ensures
      var spec, s := SpecOf(k.speed, k.org), H.Issue(D.WR, AddressOf(k.org, w.path, w.row), clk);
      && D.AddressOk(spec, s.addr)
      && (IsReady(TimingNow(spec, k.org, nodes, clk), Write, w.path, w.row) <==> T.TraceAdmits(spec, trace, s))
  {
    hide D.NodesOk, D.AllNodesOk, T.AllSummarise, T.TraceAdmits, SpecOf, AddressOf;
    var spec, s := SpecOf(k.speed, k.org), H.Issue(D.WR, AddressOf(k.org, w.path, w.row), clk);
    AddressesOk(k.speed, k.org, w.path, w.row);
    T.CheckIsTraceCheck(spec, k.org.channel, nodes, trace, s);
    ReadyIsCheck(spec, k.org, nodes, clk, Write, w.path, w.row);
  }

  lemma WriteIsReady(k: System, w: Target, clk: int)
    requires k.latency > 1 && IsBank(k.org, w.path) && clk >= 0
    ensures D.NodesOk(SpecOf(k.speed, k.org), k.org.channel, TreeOpened(k, w))
    ensures IsReady(TimingNow(SpecOf(k.speed, k.org), k.org, TreeOpened(k, w), clk), Write, w.path, w.row) <==>
            clk >= 1 + k.speed.nRCD
  {
    hide D.NodesOk, D.AllNodesOk, T.AllSummarise, TreeOpened, T.TraceAdmits, TimingNow, SpecOf, AddressOf;
    TreeFollows(k, w);
    WriteIsChecked(k, w, TreeOpened(k, w), [RowOpened(k, w)], clk);
    WriteIsAdmitted(k, w, clk);
  }

  /** The target has been promoted: its row is open. */
  ghost predicate HasRow(s: State, w: Target) {
    var actq, banks := s.c.qs.actq, s.c.dram.banks;
    && |actq| == 1 && actq[0].kind.WriteRequest? && actq[0].id == w.id && actq[0].path == w.path && actq[0].row == w.row
    && w.path in banks && banks[w.path].isOpen && w.row in banks[w.path].rows
  }

  lemma RowIsOpened(qs: Queues, banks: Banks, depart: int, qsNow: Queues, banksNow: Banks, w: Target, t: State)
    requires |qs.writeq| > 0 && At(qs, w, Queued(0)) && qs.actq == [] && w.path in banks && !banks[w.path].isOpen
    requires IsServedBy(qs, banks, FromWrite, 0, depart, qsNow, banksNow) && t.c.qs == qsNow
    requires t.c.dram.banks == banksNow
    ensures FirstCommand(qs.writeq[0], banks) == Activate && HasRow(t, w) && qsNow.readq == qs.readq
  {
  }

  /** Then it is the target's turn in the first tick. */
  lemma IsFirst(k: System, s: State, w: Target, n: nat)
    requires HasArrived(k, s, w, n) && n > (if w.id == 0 then 0 else HIGH_WATERMARK)
    requires OneCore(k, w) && w.path in s.c.dram.banks
    ensures GoesOn(k, s, w, Queued(0)) && TurnOf(s).FromWrite? && QueueOf(s) == s.c.qs.writeq && Next(s) == 1
    ensures Complete(s.c.qs, Next(s)) == s.c.qs && s.c.qs.actq == [] && !s.c.dram.banks[w.path].isOpen
  {
  }

  /** In the first tick the target's row is opened. */
  lemma FirstTick(k: System, s: State, w: Target, n: nat) returns (inputs: Inputs, t: State)
    requires SystemOk(k, s, StartNodes(k.org, k.speed)) && HasArrived(k, s, w, n)
    requires OneCore(k, w) && IsBank(k.org, w.path) && n > (if w.id == 0 then 0 else HIGH_WATERMARK)
    ensures Obeys(k, s, StartNodes(k.org, k.speed), Pass(inputs)) && t == Step(s, Pass(inputs), k.latency)
    ensures NodesNext(k, s, StartNodes(k.org, k.speed), Pass(inputs)) == TreeOpened(k, w)
    ensures SystemOk(k, t, TreeOpened(k, w)) && t.now == 1 && HasRow(t, w) && t.c.qs.readq == s.c.qs.readq
  {
    hide ChannelOk, D.NodesOk, D.AllNodesOk, Mapped, TimingNow, ReadyBy, IsPick, OneCore, Obeys, NodesNext, Step,
      T.NodesAfter, AddressOf, SpecOf, IsServedBy, HasArrived, GoesOn, Start, TurnOf, QueueOf, Complete, Next;
    var nodes := StartNodes(k.org, k.speed);
    StartSummarises(k);
    StartIsReady(k);
    BankIsThere(k.org, s.c, w.path);
    var depart, after;
    inputs, depart, t, after := RealTick(k, s, nodes);
    IsFirst(k, s, w, n);
    PickGoesBefore(k, s, inputs.timing, inputs.pick, w, Queued(0));
    LaterReady(nodes, 0, Next(s));
    PickIsReady(k, s, nodes, inputs.pick);
    RowIsOpened(s.c.qs, s.c.dram.banks, depart, t.c.qs, t.c.dram.banks, w, t);
  }

  lemma LaterReady(nodes: D.Nodes, bound: int, clk: int)
    requires ReadyBy(nodes, bound) && bound <= clk
    ensures ReadyBy(nodes, clk)
  {
  }

  lemma RowIsAccessed(qs: Queues, banks: Banks, depart: int, qsNow: Queues, banksNow: Banks, w: Target, s: State)
    requires HasRow(s, w) && qs.actq == s.c.qs.actq && banks == s.c.dram.banks
    requires IsServedBy(qs, banks, FromAct, 0, depart, qsNow, banksNow)
    ensures w.id in qsNow.called && qsNow.readq == qs.readq
  {
  }

  /** The promoted target is the pick, and is ready when its row is. */
  lemma TargetIsPicked(k: System, s: State, w: Target, timing: Timing, pick: int)
    requires SystemOk(k, s, TreeOpened(k, w)) && IsBank(k.org, w.path) && HasRow(s, w) && Next(s) >= 0
    requires timing == TimingOf(k, s, TreeOpened(k, w)) && IsPickOf(k, s, timing, pick)
    ensures TurnOf(s).FromAct? && pick == 0 && QueueOf(s) == s.c.qs.actq
    ensures RequestReady(timing, s.c.dram.banks, QueueOf(s)[0]) <==> Next(s) >= 1 + k.speed.nRCD
  {
    hide ChannelOk, D.NodesOk, D.AllNodesOk, Mapped, TimingNow, TreeOpened, SpecOf, StartNodes;
    WriteIsReady(k, w, Next(s));
  }

  /** In every later tick the target waits for its row, until the row can be accessed. */
  lemma RowTick(k: System, s: State, w: Target) returns (inputs: Inputs, t: State, after: D.Nodes)
    requires SystemOk(k, s, TreeOpened(k, w))
    requires IsBank(k.org, w.path) && HasRow(s, w) && s.now >= 0
    ensures Obeys(k, s, TreeOpened(k, w), Pass(inputs)) && t == Step(s, Pass(inputs), k.latency)
    ensures after == NodesNext(k, s, TreeOpened(k, w), Pass(inputs)) && SystemOk(k, t, after)
    ensures t.now == s.now + 1 && t.c.qs.readq == s.c.qs.readq
    ensures if t.now >= 1 + k.speed.nRCD then w.id in t.c.qs.called else HasRow(t, w) && after == TreeOpened(k, w)
  {
    hide ChannelOk, D.NodesOk, D.AllNodesOk, Mapped, TimingNow, IsPick, Obeys, NodesNext, Step, T.NodesAfter, AddressOf,
      SpecOf, IsServedBy, TreeOpened;
    var depart;
    inputs, depart, t, after := RealTick(k, s, TreeOpened(k, w));
    TargetIsPicked(k, s, w, inputs.timing, inputs.pick);
    if t.now >= 1 + k.speed.nRCD {
      RowIsAccessed(Complete(s.c.qs, Next(s)), s.c.dram.banks, depart, t.c.qs, t.c.dram.banks, w, s);
    }
  }

  /** The tick in which the target is served. */
  function ServedAt(k: System): int {
    1 + Max(1, k.speed.nRCD)
  }

  lemma AwaitRow(k: System, s: State, w: Target) returns (events: seq<Event>)
    requires SystemOk(k, s, TreeOpened(k, w))
    requires IsBank(k.org, w.path) && HasRow(s, w) && 1 <= s.now < ServedAt(k)
    ensures Reaches(k, s, TreeOpened(k, w), events, w, s.c.qs.readq)
    ensures Go(s, events, k.latency).now == ServedAt(k) && |events| == ServedAt(k) - s.now
    decreases ServedAt(k) - s.now
  {
    hide ChannelOk, D.NodesOk, D.AllNodesOk, Mapped, Obeys, NodesNext, Step, TreeOpened, HasRow, Reaches;
    var nodes := TreeOpened(k, w);
    var inputs, t, after := RowTick(k, s, w);
    var more := [];
    if t.now >= 1 + k.speed.nRCD {
      ReachesNow(k, t, after, w, s.c.qs.readq);
    } else {
      more := AwaitRow(k, t, w);
    }
    ReachesBefore(k, s, nodes, Pass(inputs), t, after, more, w, s.c.qs.readq);
    events := [Pass(inputs)] + more;
  }

  lemma WriteArrives(k: System, s: State, w: Target, n: nat, t: State)
    requires StateOk(s) && w.path in s.c.dram.banks && HasArrived(k, s, w, n) && n <= HIGH_WATERMARK
    requires t == Arrived(s, WriteRequest, w.addr, w.path, w.row)
    ensures HasArrived(k, t, w, n + 1) && t.c.qs.readq == s.c.qs.readq
  {
    hide ChannelOk;
  }

  /** The event of a read or write like the target. */
  function ArrivalOf(kind: Kind, w: Target): Event {
    Arrive(kind, w.addr, w.path, w.row)
  }

  /** More than 25 writes arrive; the first of them is served as soon as its row can be accessed. */
  lemma AwaitWrites(k: System, s: State, w: Target, n: nat) returns (events: seq<Event>)
    requires SystemOk(k, s, StartNodes(k.org, k.speed)) && OneCore(k, w) && IsBank(k.org, w.path) && w.id == 1
    requires HasArrived(k, s, w, n) && n <= HIGH_WATERMARK + 1
    ensures Reaches(k, s, StartNodes(k.org, k.speed), events, w, s.c.qs.readq)
    ensures Go(s, events, k.latency).now == ServedAt(k) && |events| == HIGH_WATERMARK + 1 - n + ServedAt(k)
    ensures forall i :: 0 <= i < HIGH_WATERMARK + 1 - n ==> events[i] == ArrivalOf(WriteRequest, w)
    decreases HIGH_WATERMARK + 1 - n
  {
    hide ChannelOk, D.NodesOk, D.AllNodesOk, Mapped, Obeys, NodesNext, Step, TreeOpened, StartNodes, HasRow, Reaches,
      OneCore, Arrived;
    var nodes := StartNodes(k.org, k.speed);
    if n <= HIGH_WATERMARK {
      var e, t := OneArrival(k, s, w, n);
      var more := AwaitWrites(k, t, w, n + 1);
      ReachesBefore(k, s, nodes, e, t, nodes, more, w, s.c.qs.readq);
      events := [e] + more;
    } else {
      var inputs, t := FirstTick(k, s, w, n);
      var more := AwaitRow(k, t, w);
      ReachesBefore(k, s, nodes, Pass(inputs), t, TreeOpened(k, w), more, w, s.c.qs.readq);
      events := [Pass(inputs)] + more;
    }
  }

  lemma OneArrival(k: System, s: State, w: Target, n: nat) returns (e: Event, t: State)
    requires SystemOk(k, s, StartNodes(k.org, k.speed)) && IsBank(k.org, w.path)
    requires HasArrived(k, s, w, n) && n <= HIGH_WATERMARK
    ensures e == ArrivalOf(WriteRequest, w) && Obeys(k, s, StartNodes(k.org, k.speed), e) && t == Step(s, e, k.latency)
    ensures NodesNext(k, s, StartNodes(k.org, k.speed), e) == StartNodes(k.org, k.speed)
    ensures SystemOk(k, t, StartNodes(k.org, k.speed)) && HasArrived(k, t, w, n + 1) && t.c.qs.readq == s.c.qs.readq
  {
    hide ChannelOk, Mapped, D.NodesOk, Arrived, StartNodes, HasArrived;
    e := ArrivalOf(WriteRequest, w);
    BankIsThere(k.org, s.c, w.path);
    StepOk(k, s, StartNodes(k.org, k.speed), e);
    t := Step(s, e, k.latency);
    WriteArrives(k, s, w, n, t);
  }

  lemma ReadArrives(k: System, w: Target) returns (e: Event, t: State)
    requires k.latency > 1 && IsBank(k.org, w.path) && w.id == 1
    ensures SystemOk(k, Start(k.org), StartNodes(k.org, k.speed)) && e == ArrivalOf(ReadRequest, w)
    ensures Obeys(k, Start(k.org), StartNodes(k.org, k.speed), e) && t == Step(Start(k.org), e, k.latency)
    ensures NodesNext(k, Start(k.org), StartNodes(k.org, k.speed), e) == StartNodes(k.org, k.speed)
    ensures SystemOk(k, t, StartNodes(k.org, k.speed)) && HasArrived(k, t, w, 0)
  {
    hide ChannelOk, Mapped, D.NodesOk, StartNodes;
    StartIsOk(k);
    e := ArrivalOf(ReadRequest, w);
    BankIsThere(k.org, Start(k.org).c, w.path);
    StepOk(k, Start(k.org), StartNodes(k.org, k.speed), e);
    t := Step(Start(k.org), e, k.latency);
  }

  /** The first write that overtakes: in a controller that has just been built, whatever its policy and its speed,
      a read arrives and then 26 writes to the same address.  The first write is served nRCD cycles after the
      first tick, while the read still waits. */
  lemma FirstOvertaking(k: System, addr: nat, path: Path, row: nat) returns (events: seq<Event>)
    requires k.latency > 1 && IsBank(k.org, path) && OneCore(k, Target(1, addr, path, row))
    ensures SystemOk(k, Start(k.org), StartNodes(k.org, k.speed))
    ensures SystemOvertakes(k, Start(k.org), StartNodes(k.org, k.speed), events, addr, 1)
    ensures Go(Start(k.org), events, k.latency).now == 1 + Max(1, k.speed.nRCD)
    ensures |events| == 27 + 1 + Max(1, k.speed.nRCD)
    ensures forall i :: 0 <= i < 27 ==>
            events[i] == Arrive(if i == 0 then ReadRequest else WriteRequest, addr, path, row)
  {
    hide ChannelOk, D.NodesOk, Mapped, Obeys, NodesNext, Step, StartNodes, Start, OneCore;
    var w := Target(1, addr, path, row);
    var e, t := ReadArrives(k, w);
    var more := AwaitWrites(k, t, w, 0);
    ReachesBefore(k, Start(k.org), StartNodes(k.org, k.speed), e, t, StartNodes(k.org, k.speed), more, w, t.c.qs.readq);
    events := [e] + more;
    assert OlderReadWaits(Go(t, more, k.latency).c.qs, addr, 1);
  }

  /** A lone write: it is served as soon as its row can be accessed. */
  lemma LoneWrite(k: System, addr: nat, path: Path, row: nat) returns (events: seq<Event>)
    requires k.latency > 1 && IsBank(k.org, path)
    requires OneCore(k, Target(0, addr, path, row))
    ensures SystemOk(k, Start(k.org), StartNodes(k.org, k.speed))
    ensures Reaches(k, Start(k.org), StartNodes(k.org, k.speed), events, Target(0, addr, path, row), [])
    ensures Go(Start(k.org), events, k.latency).now == 1 + Max(1, k.speed.nRCD)
    ensures events[..1] == [Arrive(WriteRequest, addr, path, row)] && |events| == 2 + Max(1, k.speed.nRCD)
  {
    hide ChannelOk, D.NodesOk, Mapped, Obeys, NodesNext, Step, StartNodes, Start, OneCore, TreeOpened, HasRow;
    var w, nodes := Target(0, addr, path, row), StartNodes(k.org, k.speed);
    NothingArrived(k, w);
    var e, s := OneArrival(k, Start(k.org), w, 0);
    var inputs, t := FirstTick(k, s, w, 1);
    var more := AwaitRow(k, t, w);
    ReachesBefore(k, s, nodes, Pass(inputs), t, TreeOpened(k, w), more, w, s.c.qs.readq);
    ReachesBefore(k, Start(k.org), nodes, e, s, nodes, [Pass(inputs)] + more, w, s.c.qs.readq);
    events := [e] + ([Pass(inputs)] + more);
  }

  lemma NothingArrived(k: System, w: Target)
    requires k.latency > 1 && w.id == 0
    ensures SystemOk(k, Start(k.org), StartNodes(k.org, k.speed)) && HasArrived(k, Start(k.org), w, 0)
  {
    StartIsOk(k);
  }
}
