/**
 The DRAM tree's timing state.  Every node keeps, for each command, the earliest time it may be issued
 (`next`) and the most recent times it was issued (`prev`).  The tree is updated in place, from the
 channel down; this file gives the state, the update of one node, and the tree class.
 */
module DramTiming {
  import opened Common

  datatype Command = ACT | PRE | PREA | RD | WR | RDA | WRA | REF | PDE | PDX | SRE | SRX

  const COMMANDS: set<Command> := {ACT, PRE, PREA, RD, WR, RDA, WRA, REF, PDE, PDX, SRE, SRX}

  /** After the owning command, `cmd` has to wait `val` cycles, counted from the `dist`-th last time
      the owning command was issued here, or, for siblings, from each time it was issued next door. */
  datatype TimingEntry = TimingEntry(cmd: Command, dist: nat, val: int, sibling: bool)

  /** The tree has `|count|` levels of nodes; level 0 is the channel.  `timing` and `scope` are the
      tables of a DRAM standard. */
  datatype Spec = Spec(count: seq<nat>, timing: (nat, Command) -> seq<TimingEntry>, scope: Command -> nat)

  ghost predicate SpecOk(spec: Spec) {
    && |spec.count| > 0
    && forall level: nat, cmd, e :: e in spec.timing(level, cmd) ==> e.dist >= 1 && (e.sibling ==> e.dist == 1)
  }

  function Timing(spec: Spec, level: nat, cmd: Command): seq<TimingEntry> {
    spec.timing(level, cmd)
  }

  /** A node is named by the ids on the way from the channel to it. */
  type Path = seq<int>

  function LevelOf(p: Path): nat
    requires p != []
  {
    |p| - 1
  }

  predicate IsNode(spec: Spec, p: Path) {
    && 0 < |p| <= |spec.count|
    && forall i :: 1 <= i < |p| ==> 0 <= p[i] < spec.count[i]
  }

  /** An address vector: ids for all levels of the tree and one more; -1 from some level on means that
      the command addresses a whole node above that level. */
  predicate AddressOk(spec: Spec, addr: seq<int>) {
    && |addr| > |spec.count|
    && forall i :: 1 <= i < |spec.count| ==> addr[i] < spec.count[i]
  }

  // ---- one node ----

  datatype Node = Node(next: map<Command, int>, prev: map<Command, seq<int>>)

  ghost predicate Total<T>(m: map<Command, T>) {
    forall c: Command :: c in m
  }

  ghost predicate NodeOk(n: Node) {
    Total(n.next) && Total(n.prev)
  }

  /** A history of this length reaches back as far as the entries look. */
  ghost predicate Covers(entries: seq<TimingEntry>, length: nat) {
    forall e :: e in entries ==> e.dist <= length
  }

  function MaxDist(entries: seq<TimingEntry>): (d: nat)
    ensures Covers(entries, d)
  {
    if entries == [] then 0 else
      var d := MaxDist(entries[..|entries| - 1]);
      if entries[|entries| - 1].dist > d then entries[|entries| - 1].dist else d
  }

  /** Nothing has been issued to the node yet. */
  ghost predicate IsInitial(spec: Spec, level: nat, n: Node) {
    && NodeOk(n)
    && forall c: Command ::
         n.next[c] == -1 && Covers(Timing(spec, level, c), |n.prev[c]|) && forall x :: x in n.prev[c] ==> x == -1
  }

  lemma AllCommands()
    ensures forall c: Command :: c in COMMANDS
  {
    forall c: Command
      ensures c in COMMANDS
    {
      assert c.ACT? || c.PRE? || c.PREA? || c.RD? || c.WR? || c.RDA?
          || c.WRA? || c.REF? || c.PDE? || c.PDX? || c.SRE? || c.SRX?;
    }
  }

  function InitialNode(spec: Spec, level: nat): (n: Node)
    ensures IsInitial(spec, level, n)
  {
    AllCommands();
    Node(map c | c in COMMANDS :: -1,
         map c | c in COMMANDS :: seq(MaxDist(Timing(spec, level, c)), _ => -1))
  }

  /** The time that an entry counts from, or -1 if there is not enough history. */
  function Past(history: seq<int>, e: TimingEntry): int
  {
    if 0 < e.dist <= |history| then history[e.dist - 1] else -1
  }

  /** Raise `next` for one entry at the target of a command. */
  function RaiseTarget(next: map<Command, int>, history: seq<int>, e: TimingEntry): (after: map<Command, int>)
    requires Total(next)
    ensures Total(after)
  {
    if e.sibling || Past(history, e) < 0 then next
    else next[e.cmd := Max(next[e.cmd], Past(history, e) + e.val)]
  }

  /** ... and at a sibling of the target. */
  function RaiseSibling(next: map<Command, int>, clk: int, e: TimingEntry): (after: map<Command, int>)
    requires Total(next)
    ensures Total(after)
  {
    if !e.sibling then next else next[e.cmd := Max(next[e.cmd], clk + e.val)]
  }

  function RaiseAllTarget(next: map<Command, int>, history: seq<int>, entries: seq<TimingEntry>)
      : (after: map<Command, int>)
    requires Total(next)
    ensures Total(after)
  {
    if entries == [] then next
    else RaiseTarget(RaiseAllTarget(next, history, entries[..|entries| - 1]), history, entries[|entries| - 1])
  }

  function RaiseAllSibling(next: map<Command, int>, clk: int, entries: seq<TimingEntry>): (after: map<Command, int>)
    requires Total(next)
    ensures Total(after)
  {
    if entries == [] then next
    else RaiseSibling(RaiseAllSibling(next, clk, entries[..|entries| - 1]), clk, entries[|entries| - 1])
  }

  /** The newest time comes to the front of a history and the oldest one drops out. */
  function Push(history: seq<int>, clk: int): seq<int> {
    if history == [] then [] else [clk] + history[..|history| - 1]
  }

  function TargetNode(n: Node, cmd: Command, clk: int, entries: seq<TimingEntry>): (after: Node)
    requires NodeOk(n)
    ensures NodeOk(after)
  {
    var history := Push(n.prev[cmd], clk);
    Node(RaiseAllTarget(n.next, history, entries), n.prev[cmd := history])
  }

  function SiblingNode(n: Node, clk: int, entries: seq<TimingEntry>): (after: Node)
    requires NodeOk(n)
    ensures NodeOk(after)
  {
    n.(next := RaiseAllSibling(n.next, clk, entries))
  }

  // ---- the nodes that a command concerns ----

  /** The command goes to this node or to something inside it. */
  predicate IsTarget(p: Path, addr: seq<int>) {
    p <= addr
  }

  /** The command goes to another child of this node's parent. */
  predicate IsSibling(p: Path, addr: seq<int>) {
    p != [] && p[..|p| - 1] <= addr && !(p <= addr)
  }

  function UpdatedNode(spec: Spec, n: Node, p: Path, cmd: Command, addr: seq<int>, clk: int): (after: Node)
    requires NodeOk(n) && p != []
    ensures NodeOk(after)
  {
    var entries := Timing(spec, LevelOf(p), cmd);
    if IsTarget(p, addr) then TargetNode(n, cmd, clk, entries)
    else if IsSibling(p, addr) then SiblingNode(n, clk, entries)
    else n
  }

  type Nodes = map<Path, Node>

  ghost predicate NodesOk(spec: Spec, channel: int, nodes: Nodes) {
    && (forall p :: p in nodes <==> IsNode(spec, p) && p[0] == channel)
    && AllNodesOk(nodes)
  }

  ghost predicate AllNodesOk(nodes: Nodes) {
    forall p :: p in nodes ==> NodeOk(nodes[p]) && p != []
  }
}
