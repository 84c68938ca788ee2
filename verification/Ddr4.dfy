/**
 The DDR4 tables for the DRAM tree, and what a legal trace means on them: windows over several
 commands, waits between different commands, and waits between sibling ranks.
 */
module Ddr4 {
  import opened DramTiming
  import opened DramHistory
  import opened DramTree

  const CHANNEL: nat := 0
  const RANK: nat := 1
  const BANK_GROUP: nat := 2
  const BANK: nat := 3
  const ROW: nat := 4
  const COLUMN: nat := 5

  datatype SpeedEntry = SpeedEntry(
    nBL: nat, nCCDS: nat, nCCDL: nat, nRTRS: nat,
    nCL: nat, nRCD: nat, nRP: nat, nCWL: nat,
    nRAS: nat, nRC: nat,
    nRTP: nat, nWTRS: nat, nWTRL: nat, nWR: nat,
    nRRDS: nat, nRRDL: nat, nFAW: nat,
    nRFC: nat, nREFI: nat,
    nPD: nat, nXP: nat,
    nCKESR: nat, nXS: nat)

  function Scope(cmd: Command): nat {
    match cmd
    case ACT => ROW
    case PRE => BANK
    case PREA => RANK
    case RD => COLUMN
    case WR => COLUMN
    case RDA => COLUMN
    case WRA => COLUMN
    case REF => RANK
    case PDE => RANK
    case PDX => RANK
    case SRE => RANK
    case SRX => RANK
  }

  function After(cmds: seq<Command>, val: int): (entries: seq<TimingEntry>)
    ensures forall e :: e in entries ==> e.dist == 1 && !e.sibling
  {
    seq(|cmds|, i requires 0 <= i < |cmds| => TimingEntry(cmds[i], 1, val, false))
  }

  function AfterSibling(cmds: seq<Command>, val: int): (entries: seq<TimingEntry>)
    ensures forall e :: e in entries ==> e.dist == 1 && e.sibling
  {
    seq(|cmds|, i requires 0 <= i < |cmds| => TimingEntry(cmds[i], 1, val, true))
  }

  lemma AfterHas(cmds: seq<Command>, val: int, e: TimingEntry)
    ensures e in After(cmds, val) <==> e.cmd in cmds && e == TimingEntry(e.cmd, 1, val, false)
  {
    var entries := After(cmds, val);
    if i :| 0 <= i < |cmds| && cmds[i] == e.cmd {
      assert entries[i] == TimingEntry(e.cmd, 1, val, false);
    }
  }

  const READS: seq<Command> := [RD, RDA]
  const WRITES: seq<Command> := [WR, WRA]

  function ChannelTiming(s: SpeedEntry, cmd: Command): seq<TimingEntry> {
    if cmd in READS then After(READS, s.nBL)
    else if cmd in WRITES then After(WRITES, s.nBL)
    else []
  }

  function RankTiming(s: SpeedEntry, cmd: Command): seq<TimingEntry> {
    match cmd
    case RD =>
      After(READS, s.nCCDS) + After(WRITES, s.nCL + s.nBL + 2 - s.nCWL)
      + AfterSibling(READS, s.nBL + s.nRTRS) + AfterSibling(WRITES, s.nBL + s.nRTRS)
      + AfterSibling(WRITES, s.nCL + s.nBL + s.nRTRS - s.nCWL)
      + After([PREA], s.nRTP) + After([PDE], s.nCL + s.nBL + 1)
    case RDA =>
      After(READS, s.nCCDS) + After(WRITES, s.nCL + s.nBL + 2 - s.nCWL)
      + AfterSibling(READS, s.nBL + s.nRTRS) + AfterSibling(WRITES, s.nBL + s.nRTRS)
      + AfterSibling(WRITES, s.nCL + s.nBL + s.nRTRS - s.nCWL)
      + After([PDE], s.nCL + s.nBL + 1) + After([REF], s.nRTP + s.nRP)
    case WR =>
      After(WRITES, s.nCCDS) + After(READS, s.nCWL + s.nBL + s.nWTRS)
      + AfterSibling(READS, s.nCWL + s.nBL + s.nRTRS - s.nCL)
      + After([PREA], s.nCWL + s.nBL + s.nWR) + After([PDE], s.nCWL + s.nBL + s.nWR)
    case WRA =>
      After(WRITES, s.nCCDS) + After(READS, s.nCWL + s.nBL + s.nWTRS)
      + AfterSibling(READS, s.nCWL + s.nBL + s.nRTRS - s.nCL)
      + After([PDE], s.nCWL + s.nBL + s.nWR + 1) + After([REF], s.nCWL + s.nBL + s.nWR + s.nRP)
    case ACT =>
      After([ACT], s.nRRDS) + [TimingEntry(ACT, 4, s.nFAW, false)] + After([PREA], s.nRAS)
      + After([REF], s.nRC) + After([PDE], 1)
    case PRE => After([REF], s.nRP) + After([SRE], s.nRP)
    case PREA => After([ACT], s.nRP) + After([REF], s.nRP) + After([SRE], s.nRP)
    case REF => After([ACT], s.nRFC) + After([REF], s.nRFC) + After([PDE], 1)
    case PDE => After([PDX], s.nPD)
    case PDX => After([RD, RDA, WR, WRA, ACT, PRE, PREA, REF, PDE, SRE], s.nXP)
    case SRE => After([SRX], s.nCKESR)
    case SRX => After([ACT, REF, PDE, SRE], s.nXS)
  }

  function BankGroupTiming(s: SpeedEntry, cmd: Command): seq<TimingEntry> {
    if cmd in READS then After(READS, s.nCCDL)
    else if cmd in WRITES then After(WRITES, s.nCCDL) + After(READS, s.nCWL + s.nBL + s.nWTRL)
    else if cmd == ACT then After([ACT], s.nRRDL)
    else []
  }

  function BankTiming(s: SpeedEntry, cmd: Command): seq<TimingEntry> {
    match cmd
    case ACT => After(READS + WRITES, s.nRCD) + After([ACT], s.nRC) + After([PRE], s.nRAS)
    case RD => After([PRE], s.nRTP)
    case WR => After([PRE], s.nCWL + s.nBL + s.nWR)
    case RDA => After([ACT], s.nRTP + s.nRP)
    case WRA => After([ACT], s.nCWL + s.nBL + s.nWR + s.nRP)
    case PRE => After([ACT], s.nRP)
    case _ => []
  }

  function TimingTable(s: SpeedEntry, level: nat, cmd: Command): seq<TimingEntry> {
    if level == CHANNEL then ChannelTiming(s, cmd)
    else if level == RANK then RankTiming(s, cmd)
    else if level == BANK_GROUP then BankGroupTiming(s, cmd)
    else if level == BANK then BankTiming(s, cmd)
    else []
  }

  /** The standard for a channel of so many ranks, bank groups and banks. */
  function Ddr4Spec(s: SpeedEntry, ranks: nat, bankGroups: nat, banks: nat): (spec: Spec)
    ensures |spec.count| == 4
  {
    Spec([1, ranks, bankGroups, banks], (level: nat, cmd: Command) => TimingTable(s, level, cmd), Scope)
  }

  lemma Ddr4SpecOk(s: SpeedEntry, ranks: nat, bankGroups: nat, banks: nat)
    ensures SpecOk(Ddr4Spec(s, ranks, bankGroups, banks))
  {
    var spec := Ddr4Spec(s, ranks, bankGroups, banks);
    forall level: nat, cmd, e | e in spec.timing(level, cmd)
      ensures e.dist >= 1 && (e.sibling ==> e.dist == 1)
    {
      assert e in TimingTable(s, level, cmd);
    }
  }

  // ---- what a legal trace guarantees ----

  /** The issue `s` passes the readiness test of node `p`. */
  ghost predicate PassesNode(spec: Spec, s: Issue, p: Path) {
    && |spec.count| > 0 && AddressOk(spec, s.addr)
    && p != [] && OnWay(spec, s.cmd, s.addr, 0, LevelOf(p)) && p == WayNode(s.addr, LevelOf(p))
  }

  /** How many times the trace issues `c` to the node. */
  function CountTargets(trace: Trace, p: Path, c: Command): nat {
    |TargetTimes(trace, p, c)|
  }

  /** The time of an issue stands in the node's list, at the place its count gives. */
  lemma {:induction false} TimeInList(trace: Trace, m: nat, p: Path, c: Command)
    requires m < |trace| && trace[m].cmd == c && IsTarget(p, trace[m].addr)
    ensures CountTargets(trace[..m], p, c) < CountTargets(trace, p, c)
    ensures TargetTimes(trace, p, c)[CountTargets(trace[..m], p, c)] == trace[m].clk
  {
    var last := |trace| - 1;
    if m < last {
      TimeInList(trace[..last], m, p, c);
      assert trace[..last][..m] == trace[..m];
    }
  }

  /** If at least `dist - 1` more issues of the command reached the node after issue `m`, then issue
      `n` comes no sooner than `val` cycles after `m`. */
  lemma LegalGap(spec: Spec, trace: Trace, m: nat, n: nat, p: Path, e: TimingEntry)
    requires |spec.count| > 0 && TraceOk(spec, trace) && Legal(spec, trace)
    requires m < n < |trace| && PassesNode(spec, trace[n], p) && IsTarget(p, trace[m].addr)
    requires e in Timing(spec, LevelOf(p), trace[m].cmd) && e.cmd == trace[n].cmd && !e.sibling
    requires CountTargets(trace[..n], p, trace[m].cmd) >= CountTargets(trace[..m], p, trace[m].cmd) + e.dist
    ensures trace[m].clk + e.val <= trace[n].clk
  {
    var before, c := trace[..n], trace[m].cmd;
    assert TraceAdmits(spec, before, trace[n]);
    assert NodeAdmits(spec, before, p, e.cmd, trace[n].clk);
    assert EntryMetAt(before, p, c, e, trace[n].clk);
    TimeInList(before, m, p, c);
    assert before[..m] == trace[..m];
  }

  /** A wait between siblings: after issue `m` went next door, issue `n` waits. */
  lemma LegalSiblingGap(spec: Spec, trace: Trace, m: nat, n: nat, p: Path, e: TimingEntry)
    requires |spec.count| > 0 && TraceOk(spec, trace) && Legal(spec, trace)
    requires m < n < |trace| && PassesNode(spec, trace[n], p)
    requires !IsTarget(p, trace[m].addr) && IsSibling(p, trace[m].addr)
    requires e in Timing(spec, LevelOf(p), trace[m].cmd) && e.cmd == trace[n].cmd && e.sibling
    ensures trace[m].clk + e.val <= trace[n].clk
  {
    var before, c := trace[..n], trace[m].cmd;
    assert TraceAdmits(spec, before, trace[n]);
    assert NodeAdmits(spec, before, p, e.cmd, trace[n].clk);
    assert EntryMetAt(before, p, c, e, trace[n].clk);
    SiblingTimeInList(before, m, p, c);
  }

  lemma {:induction false} SiblingTimeInList(trace: Trace, m: nat, p: Path, c: Command)
    requires m < |trace| && trace[m].cmd == c && !IsTarget(p, trace[m].addr) && IsSibling(p, trace[m].addr)
    ensures trace[m].clk in SiblingTimes(trace, p, c)
  {
    var last := |trace| - 1;
    if m < last {
      SiblingTimeInList(trace[..last], m, p, c);
    }
  }

  lemma CountGrows(trace: Trace, m: nat, n: nat, p: Path, c: Command)
    requires m < n <= |trace| && trace[m].cmd == c && IsTarget(p, trace[m].addr)
    ensures CountTargets(trace[..m], p, c) + 1 <= CountTargets(trace[..n], p, c)
  {
    TimeInList(trace[..n], m, p, c);
    assert trace[..n][..m] == trace[..m];
  }

  /** An activate, read or write whose address goes down to a bank of the subtree of `p`. */
  ghost predicate GoesTo(spec: Spec, s: Issue, p: Path) {
    && |spec.count| == 4 && AddressOk(spec, s.addr) && spec.scope(s.cmd) >= ROW
    && s.addr[1] >= 0 && s.addr[2] >= 0 && s.addr[3] >= 0
    && 0 < |p| <= 4 && p <= s.addr
  }

  /** It passes the tests of its channel, rank, bank group and bank. */
  lemma GoesThrough(spec: Spec, s: Issue, p: Path)
    requires GoesTo(spec, s, p)
    ensures PassesNode(spec, s, p)
  {
    assert LastLevel(spec, s.cmd, s.addr, 3) == 3;
    assert LastLevel(spec, s.cmd, s.addr, 2) == 3;
    assert LastLevel(spec, s.cmd, s.addr, 1) == 3;
    assert s.addr[..|p|] == p;
  }

  /** The four-activate window: any five activates to one rank take at least nFAW cycles. */
  lemma FiveActivates(s: SpeedEntry, ranks: nat, bankGroups: nat, banks: nat, spec: Spec, trace: Trace, rank: Path,
                      i1: nat, i2: nat, i3: nat, i4: nat, i5: nat)
    requires spec == Ddr4Spec(s, ranks, bankGroups, banks) && TraceOk(spec, trace) && Legal(spec, trace)
    requires |rank| == 2 && i1 < i2 < i3 < i4 < i5 < |trace|
    requires forall i :: i in {i1, i2, i3, i4, i5} ==> trace[i].cmd == ACT && GoesTo(spec, trace[i], rank)
    ensures trace[i1].clk + s.nFAW <= trace[i5].clk
  {
    CountGrows(trace, i1, i2, rank, ACT);
    CountGrows(trace, i2, i3, rank, ACT);
    CountGrows(trace, i3, i4, rank, ACT);
    CountGrows(trace, i4, i5, rank, ACT);
    GoesThrough(spec, trace[i5], rank);
    var e := TimingEntry(ACT, 4, s.nFAW, false);
    assert e in RankTiming(s, ACT);
    LegalGap(spec, trace, i1, i5, rank, e);
  }

  /** A column access follows the activate of its bank after nRCD cycles, however many commands lie between. */
  lemma AccessAfterActivate(s: SpeedEntry, ranks: nat, bankGroups: nat, banks: nat, spec: Spec, trace: Trace,
                            bank: Path, m: nat, n: nat)
    requires spec == Ddr4Spec(s, ranks, bankGroups, banks) && TraceOk(spec, trace) && Legal(spec, trace)
    requires |bank| == 4 && m < n < |trace| && trace[m].cmd == ACT && trace[n].cmd in READS + WRITES
    requires GoesTo(spec, trace[m], bank) && GoesTo(spec, trace[n], bank)
    ensures trace[m].clk + s.nRCD <= trace[n].clk
  {
    CountGrows(trace, m, n, bank, ACT);
    GoesThrough(spec, trace[n], bank);
    var e := TimingEntry(trace[n].cmd, 1, s.nRCD, false);
    var i :| 0 <= i < |READS + WRITES| && (READS + WRITES)[i] == trace[n].cmd;
    assert After(READS + WRITES, s.nRCD)[i] == e;
    assert e in BankTiming(s, ACT);
    LegalGap(spec, trace, m, n, bank, e);
  }

  /** Reads of two ranks of the channel keep the burst and the rank-to-rank gap apart. */
  lemma ReadsOfTwoRanks(s: SpeedEntry, ranks: nat, bankGroups: nat, banks: nat, spec: Spec, trace: Trace,
                        rank: Path, m: nat, n: nat)
    requires spec == Ddr4Spec(s, ranks, bankGroups, banks) && TraceOk(spec, trace) && Legal(spec, trace)
    requires |rank| == 2 && m < n < |trace| && trace[m].cmd == RD && trace[n].cmd == RD
    requires GoesTo(spec, trace[n], rank) && GoesTo(spec, trace[m], rank[..1]) && trace[m].addr[1] != rank[1]
    ensures trace[m].clk + s.nBL + s.nRTRS <= trace[n].clk
  {
    GoesThrough(spec, trace[n], rank);
    assert !IsTarget(rank, trace[m].addr) && IsSibling(rank, trace[m].addr);
    var e := TimingEntry(RD, 1, s.nBL + s.nRTRS, true);
    assert AfterSibling(READS, s.nBL + s.nRTRS)[0] == e;
    assert e in RankTiming(s, RD);
    LegalSiblingGap(spec, trace, m, n, rank, e);
  }
}
