/**
 What the DDR4 tables ask for, command by command: how long the second of two commands waits after the first
 one, by how near to each other they go.  A trace is legal exactly if every two of its commands keep these
 waits and no five activates of a rank come too fast.
 */
module Ddr4Waits {
  import opened Common
  import opened DramTiming
  import opened DramHistory
  import opened DramTree
  import opened Ddr4

  datatype Wait = Free | AtLeast(cycles: int)

  predicate IsRead(c: Command) {
    c.RD? || c.RDA?
  }

  predicate IsWrite(c: Command) {
    c.WR? || c.WRA?
  }

  predicate BothReadOrWrite(c: Command, d: Command) {
    (IsRead(c) && IsRead(d)) || (IsWrite(c) && IsWrite(d))
  }

  /** The data bus is taken for a burst. */
  function ChannelWait(s: SpeedEntry, c: Command, d: Command): Wait {
    if BothReadOrWrite(c, d) then AtLeast(s.nBL) else Free
  }

  function RankWait(s: SpeedEntry, c: Command, d: Command): Wait {
    match d
    case ACT =>
      (match c
       case ACT => AtLeast(s.nRRDS) case PREA => AtLeast(s.nRP) case REF => AtLeast(s.nRFC)
       case PDX => AtLeast(s.nXP) case SRX => AtLeast(s.nXS) case _ => Free)
    case PRE => if c.PDX? then AtLeast(s.nXP) else Free
    case PREA =>
      (match c
       case ACT => AtLeast(s.nRAS) case RD => AtLeast(s.nRTP) case WR => AtLeast(s.nCWL + s.nBL + s.nWR)
       case PDX => AtLeast(s.nXP) case _ => Free)
    case REF =>
      (match c
       case ACT => AtLeast(s.nRC) case PRE => AtLeast(s.nRP) case PREA => AtLeast(s.nRP)
       case RDA => AtLeast(s.nRTP + s.nRP) case WRA => AtLeast(s.nCWL + s.nBL + s.nWR + s.nRP)
       case REF => AtLeast(s.nRFC) case PDX => AtLeast(s.nXP) case SRX => AtLeast(s.nXS) case _ => Free)
    case PDE =>
      (match c
       case RD => AtLeast(s.nCL + s.nBL + 1) case RDA => AtLeast(s.nCL + s.nBL + 1)
       case WR => AtLeast(s.nCWL + s.nBL + s.nWR) case WRA => AtLeast(s.nCWL + s.nBL + s.nWR + 1)
       case ACT => AtLeast(1) case REF => AtLeast(1)
       case PDX => AtLeast(s.nXP) case SRX => AtLeast(s.nXS) case _ => Free)
    case PDX => if c.PDE? then AtLeast(s.nPD) else Free
    case SRE =>
      (match c
       case PRE => AtLeast(s.nRP) case PREA => AtLeast(s.nRP) case PDX => AtLeast(s.nXP)
       case SRX => AtLeast(s.nXS) case _ => Free)
    case SRX => if c.SRE? then AtLeast(s.nCKESR) else Free
    case _ =>
      if c.PDX? then AtLeast(s.nXP)
      else if BothReadOrWrite(c, d) then AtLeast(s.nCCDS)
      else if IsRead(c) then AtLeast(s.nCL + s.nBL + 2 - s.nCWL)
      else if IsWrite(c) then AtLeast(s.nCWL + s.nBL + s.nWTRS)
      else Free
  }

  function OtherRankWait(s: SpeedEntry, c: Command, d: Command): Wait {
    if IsRead(c) && IsRead(d) then AtLeast(s.nBL + s.nRTRS)
    else if IsRead(c) && IsWrite(d) then AtLeast(s.nBL + s.nRTRS + Max(0, s.nCL - s.nCWL))
    else if IsWrite(c) && IsRead(d) then AtLeast(s.nCWL + s.nBL + s.nRTRS - s.nCL)
    else Free
  }

  function GroupWait(s: SpeedEntry, c: Command, d: Command): Wait {
    if BothReadOrWrite(c, d) then AtLeast(s.nCCDL)
    else if IsWrite(c) && IsRead(d) then AtLeast(s.nCWL + s.nBL + s.nWTRL)
    else if c.ACT? && d.ACT? then AtLeast(s.nRRDL)
    else Free
  }

  function BankWait(s: SpeedEntry, c: Command, d: Command): Wait {
    match c
    case ACT => if d.ACT? then AtLeast(s.nRC) else if d.PRE? then AtLeast(s.nRAS)
                else if IsRead(d) || IsWrite(d) then AtLeast(s.nRCD) else Free
    case PRE => if d.ACT? then AtLeast(s.nRP) else Free
    case RD => if d.PRE? then AtLeast(s.nRTP) else Free
    case WR => if d.PRE? then AtLeast(s.nCWL + s.nBL + s.nWR) else Free
    case RDA => if d.ACT? then AtLeast(s.nRTP + s.nRP) else Free
    case WRA => if d.ACT? then AtLeast(s.nCWL + s.nBL + s.nWR + s.nRP) else Free
    case _ => Free
  }

  // ---- the tables ----

  predicate IsPlain(e: TimingEntry, w: Wait) {
    !e.sibling && e.dist == 1 && w == AtLeast(e.val)
  }

  predicate IsWindow(s: SpeedEntry, c: Command, e: TimingEntry) {
    c.ACT? && e == TimingEntry(ACT, 4, s.nFAW, false)
  }

  /** Between siblings a write waits after a read for two reasons. */
  predicate IsBetween(s: SpeedEntry, c: Command, e: TimingEntry) {
    && e.sibling && e.dist == 1
    && (OtherRankWait(s, c, e.cmd) == AtLeast(e.val)
        || (IsRead(c) && IsWrite(e.cmd) && (e.val == s.nBL + s.nRTRS || e.val == s.nCL + s.nBL + s.nRTRS - s.nCWL)))
  }

  lemma AfterSiblingHas(cmds: seq<Command>, val: int, e: TimingEntry)
    ensures e in AfterSibling(cmds, val) <==> e.cmd in cmds && e == TimingEntry(e.cmd, 1, val, true)
  {
    var entries := AfterSibling(cmds, val);
    if i :| 0 <= i < |cmds| && cmds[i] == e.cmd {
      assert entries[i] == TimingEntry(e.cmd, 1, val, true);
    }
  }

  lemma ChannelEntries(s: SpeedEntry, c: Command, e: TimingEntry)
    ensures e in ChannelTiming(s, c) <==> IsPlain(e, ChannelWait(s, c, e.cmd))
  {
    AfterHas(READS, s.nBL, e);
    AfterHas(WRITES, s.nBL, e);
  }

  lemma GroupEntries(s: SpeedEntry, c: Command, e: TimingEntry)
    ensures e in BankGroupTiming(s, c) <==> IsPlain(e, GroupWait(s, c, e.cmd))
  {
    AfterHas(READS, s.nCCDL, e);
    AfterHas(WRITES, s.nCCDL, e);
    AfterHas(READS, s.nCWL + s.nBL + s.nWTRL, e);
    AfterHas([ACT], s.nRRDL, e);
  }

  lemma BankEntries(s: SpeedEntry, c: Command, e: TimingEntry)
    ensures e in BankTiming(s, c) <==> IsPlain(e, BankWait(s, c, e.cmd))
  {
    AfterHas(READS + WRITES, s.nRCD, e);
    AfterHas([ACT], s.nRC, e);
    AfterHas([PRE], s.nRAS, e);
    AfterHas([PRE], s.nRTP, e);
    AfterHas([PRE], s.nCWL + s.nBL + s.nWR, e);
    AfterHas([ACT], s.nRTP + s.nRP, e);
    AfterHas([ACT], s.nCWL + s.nBL + s.nWR + s.nRP, e);
    AfterHas([ACT], s.nRP, e);
  }

  /** A list of entries for one command after another. */
  ghost predicate IsRankEntry(s: SpeedEntry, c: Command, e: TimingEntry) {
    IsPlain(e, RankWait(s, c, e.cmd)) || IsWindow(s, c, e) || IsBetween(s, c, e)
  }

  lemma ReadEntries(s: SpeedEntry, c: Command, e: TimingEntry)
    requires IsRead(c)
    ensures e in RankTiming(s, c) <==> IsRankEntry(s, c, e)
  {
    hide After, AfterSibling;
    AfterHas(READS, s.nCCDS, e);
    AfterHas(WRITES, s.nCL + s.nBL + 2 - s.nCWL, e);
    AfterSiblingHas(READS, s.nBL + s.nRTRS, e);
    AfterSiblingHas(WRITES, s.nBL + s.nRTRS, e);
    AfterSiblingHas(WRITES, s.nCL + s.nBL + s.nRTRS - s.nCWL, e);
    AfterHas([PREA], s.nRTP, e);
    AfterHas([PDE], s.nCL + s.nBL + 1, e);
    AfterHas([REF], s.nRTP + s.nRP, e);
  }

  lemma WriteEntries(s: SpeedEntry, c: Command, e: TimingEntry)
    requires IsWrite(c)
    ensures e in RankTiming(s, c) <==> IsRankEntry(s, c, e)
  {
    hide After, AfterSibling;
    AfterHas(WRITES, s.nCCDS, e);
    AfterHas(READS, s.nCWL + s.nBL + s.nWTRS, e);
    AfterSiblingHas(READS, s.nCWL + s.nBL + s.nRTRS - s.nCL, e);
    AfterHas([PREA], s.nCWL + s.nBL + s.nWR, e);
    AfterHas([PDE], s.nCWL + s.nBL + s.nWR, e);
    AfterHas([PDE], s.nCWL + s.nBL + s.nWR + 1, e);
    AfterHas([REF], s.nCWL + s.nBL + s.nWR + s.nRP, e);
  }

  lemma RowEntries(s: SpeedEntry, c: Command, e: TimingEntry)
    requires c.ACT? || c.PRE? || c.PREA? || c.REF?
    ensures e in RankTiming(s, c) <==> IsRankEntry(s, c, e)
  {
    AfterHas([ACT], s.nRRDS, e);
    AfterHas([PREA], s.nRAS, e);
    AfterHas([REF], s.nRC, e);
    AfterHas([PDE], 1, e);
    AfterHas([REF], s.nRP, e);
    AfterHas([SRE], s.nRP, e);
    AfterHas([ACT], s.nRP, e);
    AfterHas([ACT], s.nRFC, e);
    AfterHas([REF], s.nRFC, e);
  }

  lemma PowerEntries(s: SpeedEntry, c: Command, e: TimingEntry)
    requires c.PDE? || c.PDX? || c.SRE? || c.SRX?
    ensures e in RankTiming(s, c) <==> IsRankEntry(s, c, e)
  {
    AfterHas([PDX], s.nPD, e);
    AfterHas([RD, RDA, WR, WRA, ACT, PRE, PREA, REF, PDE, SRE], s.nXP, e);
    AfterHas([SRX], s.nCKESR, e);
    AfterHas([ACT, REF, PDE, SRE], s.nXS, e);
  }

  lemma RankEntries(s: SpeedEntry, c: Command, e: TimingEntry)
    ensures e in RankTiming(s, c) <==> IsRankEntry(s, c, e)
  {
    hide RankTiming, IsRankEntry;
    if IsRead(c) {
      ReadEntries(s, c, e);
    } else if IsWrite(c) {
      WriteEntries(s, c, e);
    } else if c.ACT? || c.PRE? || c.PREA? || c.REF? {
      RowEntries(s, c, e);
    } else {
      PowerEntries(s, c, e);
    }
  }

  // ---- entries against the trace ----

  ghost predicate IsHit(trace: Trace, m: nat, p: Path, c: Command)
    requires m < |trace|
  {
    trace[m].cmd == c && IsTarget(p, trace[m].addr)
  }

  ghost predicate IsNextDoor(trace: Trace, m: nat, p: Path, c: Command)
    requires m < |trace|
  {
    trace[m].cmd == c && !IsTarget(p, trace[m].addr) && IsSibling(p, trace[m].addr)
  }

  /** Number `k` of a node's times belongs to an issue. */
  lemma {:induction false} TimeOfIssue(trace: Trace, p: Path, c: Command, k: nat) returns (m: nat)
    requires k < |TargetTimes(trace, p, c)|
    ensures m < |trace| && IsHit(trace, m, p, c) && trace[m].clk == TargetTimes(trace, p, c)[k]
    ensures CountTargets(trace[..m], p, c) == k
  {
    var last := |trace| - 1;
    var before := TargetTimes(trace[..last], p, c);
    if k < |before| {
      m := TimeOfIssue(trace[..last], p, c, k);
      assert trace[..last][..m] == trace[..m];
    } else {
      m := last;
    }
  }

  lemma {:induction false} SiblingTimeOfIssue(trace: Trace, p: Path, c: Command, k: nat) returns (m: nat)
    requires k < |SiblingTimes(trace, p, c)|
    ensures m < |trace| && IsNextDoor(trace, m, p, c) && trace[m].clk == SiblingTimes(trace, p, c)[k]
  {
    var last := |trace| - 1;
    if k < |SiblingTimes(trace[..last], p, c)| {
      m := SiblingTimeOfIssue(trace[..last], p, c, k);
    } else {
      m := last;
    }
  }

  /** The time `clk` is late enough after every issue of the command to the node. */
  ghost predicate AfterAll(trace: Trace, p: Path, c: Command, val: int, clk: int) {
    forall m :: 0 <= m < |trace| && IsHit(trace, m, p, c) ==> trace[m].clk + val <= clk
  }

  ghost predicate AfterNextDoor(trace: Trace, p: Path, c: Command, val: int, clk: int) {
    forall m :: 0 <= m < |trace| && IsNextDoor(trace, m, p, c) ==> trace[m].clk + val <= clk
  }

  lemma PlainMet(trace: Trace, p: Path, c: Command, e: TimingEntry, clk: int)
    requires !e.sibling && e.dist == 1
    ensures EntryMetAt(trace, p, c, e, clk) <==> AfterAll(trace, p, c, e.val, clk)
  {
    var times := TargetTimes(trace, p, c);
    if EntryMetAt(trace, p, c, e, clk) {
      forall m | 0 <= m < |trace| && IsHit(trace, m, p, c)
        ensures trace[m].clk + e.val <= clk
      {
        TimeInList(trace, m, p, c);
        var k :| 0 <= k < |times| && times[k] == trace[m].clk;
        assert times[k] + e.val <= clk;
      }
    }
    if AfterAll(trace, p, c, e.val, clk) {
      forall k | 0 <= k < |times|
        ensures times[k] + e.val <= clk
      {
        var m := TimeOfIssue(trace, p, c, k);
      }
    }
  }

  lemma BetweenMet(trace: Trace, p: Path, c: Command, e: TimingEntry, clk: int)
    requires e.sibling
    ensures EntryMetAt(trace, p, c, e, clk) <==> AfterNextDoor(trace, p, c, e.val, clk)
  {
    var times := SiblingTimes(trace, p, c);
    if EntryMetAt(trace, p, c, e, clk) {
      forall m | 0 <= m < |trace| && IsNextDoor(trace, m, p, c)
        ensures trace[m].clk + e.val <= clk
      {
        SiblingTimeInList(trace, m, p, c);
        var k :| 0 <= k < |times| && times[k] == trace[m].clk;
        assert times[k] + e.val <= clk;
      }
    }
    if AfterNextDoor(trace, p, c, e.val, clk) {
      forall k | 0 <= k < |times|
        ensures times[k] + e.val <= clk
      {
        var m := SiblingTimeOfIssue(trace, p, c, k);
      }
    }
  }

  // ---- windows ----

  /** Four activates of a node, one after the other. */
  ghost predicate AreFour(trace: Trace, p: Path, i1: nat, i2: nat, i3: nat, i4: nat) {
    && i1 < i2 < i3 < i4 < |trace|
    && IsHit(trace, i1, p, ACT) && IsHit(trace, i2, p, ACT) && IsHit(trace, i3, p, ACT) && IsHit(trace, i4, p, ACT)
  }

  /** The time `clk` is outside of the window of every four. */
  ghost predicate AfterFour(trace: Trace, p: Path, window: int, clk: int) {
    forall i1: nat, i2: nat, i3: nat, i4: nat :: AreFour(trace, p, i1, i2, i3, i4) ==> trace[i1].clk + window <= clk
  }

  lemma {:induction false} CountsInOrder(trace: Trace, p: Path, m: nat, n: nat)
    requires n <= m <= |trace|
    ensures CountTargets(trace[..n], p, ACT) <= CountTargets(trace[..m], p, ACT)
  {
    if n < m {
      CountsInOrder(trace, p, m - 1, n);
      assert trace[..m][..m - 1] == trace[..m - 1];
    }
  }

  lemma FourCounted(trace: Trace, p: Path, i1: nat, i2: nat, i3: nat, i4: nat)
    requires AreFour(trace, p, i1, i2, i3, i4)
    ensures CountTargets(trace[..i1], p, ACT) + 4 <= CountTargets(trace, p, ACT)
  {
    CountGrows(trace, i1, i2, p, ACT);
    CountGrows(trace, i2, i3, p, ACT);
    CountGrows(trace, i3, i4, p, ACT);
    CountGrows(trace, i4, |trace|, p, ACT);
    assert trace[..|trace|] == trace;
  }

  lemma FourOf(trace: Trace, p: Path, k: nat) returns (i1: nat, i2: nat, i3: nat, i4: nat)
    requires k + 4 <= |TargetTimes(trace, p, ACT)|
    ensures AreFour(trace, p, i1, i2, i3, i4) && trace[i1].clk == TargetTimes(trace, p, ACT)[k]
  {
    i1 := TimeOfIssue(trace, p, ACT, k);
    i2 := TimeOfIssue(trace, p, ACT, k + 1);
    i3 := TimeOfIssue(trace, p, ACT, k + 2);
    i4 := TimeOfIssue(trace, p, ACT, k + 3);
    if i2 <= i1 {
      CountsInOrder(trace, p, i1, i2);
    }
    if i3 <= i2 {
      CountsInOrder(trace, p, i2, i3);
    }
    if i4 <= i3 {
      CountsInOrder(trace, p, i3, i4);
    }
  }

  lemma WindowMet(s: SpeedEntry, trace: Trace, p: Path, e: TimingEntry, clk: int)
    requires IsWindow(s, ACT, e)
    ensures EntryMetAt(trace, p, ACT, e, clk) <==> AfterFour(trace, p, s.nFAW, clk)
  {
    var times := TargetTimes(trace, p, ACT);
    if EntryMetAt(trace, p, ACT, e, clk) {
      forall i1: nat, i2: nat, i3: nat, i4: nat | AreFour(trace, p, i1, i2, i3, i4)
        ensures trace[i1].clk + s.nFAW <= clk
      {
        FourCounted(trace, p, i1, i2, i3, i4);
        TimeInList(trace, i1, p, ACT);
        var k := CountTargets(trace[..i1], p, ACT);
        assert times[k] + e.val <= clk;
      }
    }
    if AfterFour(trace, p, s.nFAW, clk) {
      forall k | 0 <= k < |times| && k + e.dist <= |times|
        ensures times[k] + e.val <= clk
      {
        var i1, i2, i3, i4 := FourOf(trace, p, k);
      }
    }
  }

  // ---- commands near to each other ----

  predicate ForBank(c: Command) {
    c.ACT? || c.PRE? || IsRead(c) || IsWrite(c)
  }

  /** The address of a command for a bank has a rank, a group and a bank; that of another one has a rank only. */
  ghost predicate IsIssue(spec: Spec, channel: int, s: Issue) {
    && |spec.count| == 4 && AddressOk(spec, s.addr) && s.addr[0] == channel && s.addr[1] >= 0
    && (if ForBank(s.cmd) then s.addr[2] >= 0 && s.addr[3] >= 0 else s.addr[2] < 0)
  }

  ghost predicate AreIssues(spec: Spec, channel: int, trace: Trace) {
    forall m :: 0 <= m < |trace| ==> IsIssue(spec, channel, trace[m])
  }

  /** Two commands go to the same node of a level. */
  predicate Same(a: Issue, b: Issue, level: nat) {
    level < |a.addr| && level < |b.addr| && a.addr[..level + 1] == b.addr[..level + 1]
  }

  predicate Waited(w: Wait, a: Issue, b: Issue) {
    w.AtLeast? ==> a.clk + w.cycles <= b.clk
  }

  /** The second command waits for the first one as its tables demand. */
  ghost predicate KeepsWaits(s: SpeedEntry, a: Issue, b: Issue) {
    && Waited(ChannelWait(s, a.cmd, b.cmd), a, b)
    && (if Same(a, b, RANK) then Waited(RankWait(s, a.cmd, b.cmd), a, b)
        else Waited(OtherRankWait(s, a.cmd, b.cmd), a, b))
    && (ForBank(b.cmd) && Same(a, b, BANK_GROUP) ==> Waited(GroupWait(s, a.cmd, b.cmd), a, b))
    && (ForBank(b.cmd) && Same(a, b, BANK) ==> Waited(BankWait(s, a.cmd, b.cmd), a, b))
  }

  /** What a level of the tree demands of the second command. */
  ghost predicate LevelKeeps(s: SpeedEntry, level: nat, a: Issue, b: Issue) {
    if level == CHANNEL then Waited(ChannelWait(s, a.cmd, b.cmd), a, b)
    else if level == RANK then
      if Same(a, b, RANK) then Waited(RankWait(s, a.cmd, b.cmd), a, b) else Waited(OtherRankWait(s, a.cmd, b.cmd), a, b)
    else if level == BANK_GROUP then Same(a, b, BANK_GROUP) ==> Waited(GroupWait(s, a.cmd, b.cmd), a, b)
    else Same(a, b, BANK) ==> Waited(BankWait(s, a.cmd, b.cmd), a, b)
  }

  /** Four activates of the rank of an activate have left its window. */
  ghost predicate KeepsWindow(s: SpeedEntry, trace: Trace, b: Issue)
    requires |b.addr| > 2
  {
    b.cmd.ACT? ==> AfterFour(trace, WayNode(b.addr, RANK), s.nFAW, b.clk)
  }

  lemma NodesAre(spec: Spec, channel: int, trace: Trace, b: Issue, level: nat, m: nat, c: Command)
    requires AreIssues(spec, channel, trace) && IsIssue(spec, channel, b) && level <= BANK && m < |trace|
    ensures IsHit(trace, m, WayNode(b.addr, level), c) <==> trace[m].cmd == c && Same(trace[m], b, level)
    ensures level == RANK ==>
              (IsNextDoor(trace, m, WayNode(b.addr, level), c) <==> trace[m].cmd == c && !Same(trace[m], b, level))
  {
    var p, addr := WayNode(b.addr, level), trace[m].addr;
    assert p <= addr <==> addr[..level + 1] == p;
    if level == RANK {
      assert p[..1] == [channel] && addr[..1] == [channel];
    }
  }

  // ---- levels ----

  function LevelWait(s: SpeedEntry, level: nat, c: Command, d: Command): Wait {
    if level == CHANNEL then ChannelWait(s, c, d)
    else if level == RANK then RankWait(s, c, d)
    else if level == BANK_GROUP then GroupWait(s, c, d)
    else BankWait(s, c, d)
  }

  ghost predicate IsLevelEntry(s: SpeedEntry, level: nat, c: Command, e: TimingEntry) {
    IsPlain(e, LevelWait(s, level, c, e.cmd)) || (level == RANK && (IsWindow(s, c, e) || IsBetween(s, c, e)))
  }

  lemma LevelEntries(s: SpeedEntry, level: nat, c: Command, e: TimingEntry)
    requires level <= BANK
    ensures e in TimingTable(s, level, c) <==> IsLevelEntry(s, level, c, e)
  {
    hide ChannelTiming, RankTiming, BankGroupTiming, BankTiming, ChannelWait, RankWait, GroupWait, BankWait, IsBetween,
      IsWindow;
    ChannelEntries(s, c, e);
    RankEntries(s, c, e);
    GroupEntries(s, c, e);
    BankEntries(s, c, e);
  }

  /** The tables of a channel of so many ranks, bank groups and banks. */
  ghost predicate IsDdr4(spec: Spec, s: SpeedEntry) {
    exists ranks: nat, bankGroups: nat, banks: nat :: spec == Ddr4Spec(s, ranks, bankGroups, banks)
  }

  lemma TableOf(spec: Spec, s: SpeedEntry, level: nat, c: Command)
    requires IsDdr4(spec, s)
    ensures Timing(spec, level, c) == TimingTable(s, level, c)
  {
  }

  /** A plain wait that the level has, against one issue of the trace. */
  lemma PlainKept(spec: Spec, s: SpeedEntry, channel: int, trace: Trace, b: Issue, level: nat, m: nat)
    requires IsDdr4(spec, s) && AreIssues(spec, channel, trace) && IsIssue(spec, channel, b)
    requires level <= BANK && m < |trace|
    requires NodeAdmits(spec, trace, WayNode(b.addr, level), b.cmd, b.clk) && Same(trace[m], b, level)
    ensures Waited(LevelWait(s, level, trace[m].cmd, b.cmd), trace[m], b)
  {
    hide LevelWait, TimingTable, Same, IsTarget;
    var p, c := WayNode(b.addr, level), trace[m].cmd;
    match LevelWait(s, level, c, b.cmd)
    case Free =>
    case AtLeast(v) =>
      var e := TimingEntry(b.cmd, 1, v, false);
      LevelEntries(s, level, c, e);
      TableOf(spec, s, level, c);
      assert EntryMetAt(trace, p, c, e, b.clk);
      PlainMet(trace, p, c, e, b.clk);
      NodesAre(spec, channel, trace, b, level, m, c);
  }

  lemma BetweenKept(spec: Spec, s: SpeedEntry, channel: int, trace: Trace, b: Issue, m: nat, val: int)
    requires IsDdr4(spec, s) && AreIssues(spec, channel, trace) && IsIssue(spec, channel, b) && m < |trace|
    requires NodeAdmits(spec, trace, WayNode(b.addr, RANK), b.cmd, b.clk) && !Same(trace[m], b, RANK)
    requires IsBetween(s, trace[m].cmd, TimingEntry(b.cmd, 1, val, true))
    ensures trace[m].clk + val <= b.clk
  {
    hide TimingTable, Same, IsTarget, IsSibling, IsBetween;
    var p, c, e := WayNode(b.addr, RANK), trace[m].cmd, TimingEntry(b.cmd, 1, val, true);
    LevelEntries(s, RANK, c, e);
    TableOf(spec, s, RANK, c);
    assert EntryMetAt(trace, p, c, e, b.clk);
    BetweenMet(trace, p, c, e, b.clk);
    NodesAre(spec, channel, trace, b, RANK, m, c);
  }

  lemma OtherRankKept(spec: Spec, s: SpeedEntry, channel: int, trace: Trace, b: Issue, m: nat)
    requires IsDdr4(spec, s) && AreIssues(spec, channel, trace) && IsIssue(spec, channel, b) && m < |trace|
    requires NodeAdmits(spec, trace, WayNode(b.addr, RANK), b.cmd, b.clk) && !Same(trace[m], b, RANK)
    ensures Waited(OtherRankWait(s, trace[m].cmd, b.cmd), trace[m], b)
  {
    hide NodeAdmits, Same, IsIssue, AreIssues, IsDdr4;
    var c := trace[m].cmd;
    if IsRead(c) && IsWrite(b.cmd) {
      BetweenKept(spec, s, channel, trace, b, m, s.nBL + s.nRTRS);
      BetweenKept(spec, s, channel, trace, b, m, s.nCL + s.nBL + s.nRTRS - s.nCWL);
    } else if OtherRankWait(s, c, b.cmd).AtLeast? {
      BetweenKept(spec, s, channel, trace, b, m, OtherRankWait(s, c, b.cmd).cycles);
    }
  }

  lemma WindowKept(spec: Spec, s: SpeedEntry, channel: int, trace: Trace, b: Issue)
    requires IsDdr4(spec, s) && AreIssues(spec, channel, trace) && IsIssue(spec, channel, b)
    requires NodeAdmits(spec, trace, WayNode(b.addr, RANK), b.cmd, b.clk)
    ensures KeepsWindow(s, trace, b)
  {
    hide TimingTable, AfterFour;
    if b.cmd.ACT? {
      var e := TimingEntry(ACT, 4, s.nFAW, false);
      LevelEntries(s, RANK, ACT, e);
      TableOf(spec, s, RANK, ACT);
      assert EntryMetAt(trace, WayNode(b.addr, RANK), ACT, e, b.clk);
      WindowMet(s, trace, WayNode(b.addr, RANK), e, b.clk);
    }
  }

  /** A level that admits a command has all its waits kept ... */
  lemma LevelKept(spec: Spec, s: SpeedEntry, channel: int, trace: Trace, b: Issue, level: nat, m: nat)
    requires IsDdr4(spec, s) && AreIssues(spec, channel, trace) && IsIssue(spec, channel, b)
    requires level <= BANK && m < |trace|
    requires NodeAdmits(spec, trace, WayNode(b.addr, level), b.cmd, b.clk)
    ensures LevelKeeps(s, level, trace[m], b)
  {
    hide NodeAdmits, IsIssue, AreIssues, IsDdr4, Waited;
    if level == CHANNEL {
      SameChannel(spec, channel, trace, b, m);
    }
    if Same(trace[m], b, level) {
      PlainKept(spec, s, channel, trace, b, level, m);
    } else if level == RANK {
      OtherRankKept(spec, s, channel, trace, b, m);
    }
  }

  lemma SameChannel(spec: Spec, channel: int, trace: Trace, b: Issue, m: nat)
    requires AreIssues(spec, channel, trace) && IsIssue(spec, channel, b) && m < |trace|
    ensures Same(trace[m], b, CHANNEL)
  {
  }

  lemma PlainEntryKept(s: SpeedEntry, trace: Trace, b: Issue, level: nat, c: Command, e: TimingEntry)
    requires level <= BANK && level < |b.addr| && IsPlain(e, LevelWait(s, level, c, e.cmd)) && e.cmd == b.cmd
    requires forall m :: 0 <= m < |trace| ==>
               LevelKeeps(s, level, trace[m], b) && (level == CHANNEL ==> Same(trace[m], b, level))
    requires forall m :: 0 <= m < |trace| ==>
               (IsHit(trace, m, WayNode(b.addr, level), c) <==> trace[m].cmd == c && Same(trace[m], b, level))
    ensures EntryMetAt(trace, WayNode(b.addr, level), c, e, b.clk)
  {
    hide Same, EntryMetAt, ChannelWait, RankWait, GroupWait, BankWait, IsHit;
    PlainMet(trace, WayNode(b.addr, level), c, e, b.clk);
  }

  /** ... and admits it if they are. */
  lemma EntryKept(spec: Spec, s: SpeedEntry, channel: int, trace: Trace, b: Issue, level: nat, c: Command,
                  e: TimingEntry)
    requires IsDdr4(spec, s) && AreIssues(spec, channel, trace) && IsIssue(spec, channel, b) && level <= BANK
    requires forall m :: 0 <= m < |trace| ==> LevelKeeps(s, level, trace[m], b)
    requires level == RANK ==> KeepsWindow(s, trace, b)
    requires IsLevelEntry(s, level, c, e) && e.cmd == b.cmd
    ensures EntryMetAt(trace, WayNode(b.addr, level), c, e, b.clk)
  {
    assert |b.addr| > 4;
    hide Same, IsIssue, AreIssues, IsDdr4, EntryMetAt, AfterFour, ChannelWait, RankWait, GroupWait, BankWait, IsHit,
      IsNextDoor;
    var p := WayNode(b.addr, level);
    forall m | 0 <= m < |trace|
      ensures IsHit(trace, m, p, c) <==> trace[m].cmd == c && Same(trace[m], b, level)
      ensures level == RANK ==> (IsNextDoor(trace, m, p, c) <==> trace[m].cmd == c && !Same(trace[m], b, level))
    {
      NodesAre(spec, channel, trace, b, level, m, c);
    }
    if level == CHANNEL {
      forall m | 0 <= m < |trace|
        ensures Same(trace[m], b, level)
      {
        SameChannel(spec, channel, trace, b, m);
      }
    }
    if IsPlain(e, LevelWait(s, level, c, e.cmd)) {
      PlainEntryKept(s, trace, b, level, c, e);
    } else if IsWindow(s, c, e) {
      WindowMet(s, trace, p, e, b.clk);
    } else {
      BetweenMet(trace, p, c, e, b.clk);
    }
  }

  lemma LevelAdmits(spec: Spec, s: SpeedEntry, channel: int, trace: Trace, b: Issue, level: nat)
    requires IsDdr4(spec, s) && AreIssues(spec, channel, trace) && IsIssue(spec, channel, b) && level <= BANK
    ensures NodeAdmits(spec, trace, WayNode(b.addr, level), b.cmd, b.clk) <==>
            (forall m :: 0 <= m < |trace| ==> LevelKeeps(s, level, trace[m], b))
            && (level == RANK ==> KeepsWindow(s, trace, b))
  {
    assert |b.addr| > 4;
    hide IsIssue, AreIssues, IsDdr4, EntryMetAt, LevelKeeps, KeepsWindow, TimingTable, IsLevelEntry;
    var p := WayNode(b.addr, level);
    if NodeAdmits(spec, trace, p, b.cmd, b.clk) {
      forall m | 0 <= m < |trace|
        ensures LevelKeeps(s, level, trace[m], b)
      {
        LevelKept(spec, s, channel, trace, b, level, m);
      }
      if level == RANK {
        WindowKept(spec, s, channel, trace, b);
      }
    } else {
      var c: Command, e :| e in Timing(spec, LevelOf(p), c) && e.cmd == b.cmd && !EntryMetAt(trace, p, c, e, b.clk);
      TableOf(spec, s, level, c);
      LevelEntries(s, level, c, e);
      if (forall m :: 0 <= m < |trace| ==> LevelKeeps(s, level, trace[m], b))
        && (level == RANK ==> KeepsWindow(s, trace, b)) {
        EntryKept(spec, s, channel, trace, b, level, c, e);
      }
    }
  }

  // ---- legal traces ----

  /** The commands for a bank pass the tests of four levels, the others those of two. */
  lemma LevelsOnWay(spec: Spec, s: SpeedEntry, channel: int, b: Issue, level: nat)
    requires IsDdr4(spec, s) && IsIssue(spec, channel, b)
    ensures OnWay(spec, b.cmd, b.addr, 0, level) <==> level <= if ForBank(b.cmd) then BANK else RANK
  {
    assert LastLevel(spec, b.cmd, b.addr, 3) == 3;
    assert ForBank(b.cmd) ==> LastLevel(spec, b.cmd, b.addr, 2) == 3;
    assert LastLevel(spec, b.cmd, b.addr, 1) == if ForBank(b.cmd) then 3 else 1;
  }

  ghost predicate KeepsAll(s: SpeedEntry, trace: Trace, b: Issue)
    requires |b.addr| > 2
  {
    (forall m :: 0 <= m < |trace| ==> KeepsWaits(s, trace[m], b)) && KeepsWindow(s, trace, b)
  }

  lemma KeepsByLevel(s: SpeedEntry, a: Issue, b: Issue)
    ensures KeepsWaits(s, a, b) <==>
            forall level: nat :: level <= (if ForBank(b.cmd) then BANK else RANK) ==> LevelKeeps(s, level, a, b)
  {
    assert LevelKeeps(s, CHANNEL, a, b) <==> Waited(ChannelWait(s, a.cmd, b.cmd), a, b);
    assert LevelKeeps(s, BANK_GROUP, a, b) <==> (Same(a, b, BANK_GROUP) ==> Waited(GroupWait(s, a.cmd, b.cmd), a, b));
    assert LevelKeeps(s, BANK, a, b) <==> (Same(a, b, BANK) ==> Waited(BankWait(s, a.cmd, b.cmd), a, b));
    assert LevelKeeps(s, RANK, a, b) <==>
           if Same(a, b, RANK) then Waited(RankWait(s, a.cmd, b.cmd), a, b)
           else Waited(OtherRankWait(s, a.cmd, b.cmd), a, b);
  }

  lemma AdmittedKeeps(spec: Spec, s: SpeedEntry, channel: int, trace: Trace, b: Issue)
    requires IsDdr4(spec, s) && AreIssues(spec, channel, trace) && IsIssue(spec, channel, b)
    requires TraceAdmits(spec, trace, b)
    ensures KeepsAll(s, trace, b)
  {
    hide IsIssue, AreIssues, IsDdr4, NodeAdmits, KeepsWaits, KeepsWindow, LevelKeeps;
    forall m | 0 <= m < |trace|
      ensures KeepsWaits(s, trace[m], b)
    {
      KeepsByLevel(s, trace[m], b);
      forall level: nat | level <= if ForBank(b.cmd) then BANK else RANK
        ensures LevelKeeps(s, level, trace[m], b)
      {
        LevelsOnWay(spec, s, channel, b, level);
        LevelAdmits(spec, s, channel, trace, b, level);
      }
    }
    LevelsOnWay(spec, s, channel, b, RANK);
    LevelAdmits(spec, s, channel, trace, b, RANK);
  }

  /** A trace admits a command exactly if it waits for every command before it. */
  lemma AdmitsIff(spec: Spec, s: SpeedEntry, channel: int, trace: Trace, b: Issue)
    requires IsDdr4(spec, s) && AreIssues(spec, channel, trace) && IsIssue(spec, channel, b)
    ensures TraceAdmits(spec, trace, b) <==> KeepsAll(s, trace, b)
  {
    assert |b.addr| > 4;
    hide IsIssue, AreIssues, IsDdr4, NodeAdmits, KeepsWaits, KeepsWindow, LevelKeeps;
    if TraceAdmits(spec, trace, b) {
      AdmittedKeeps(spec, s, channel, trace, b);
    }
    if KeepsAll(s, trace, b) {
      forall level: nat | OnWay(spec, b.cmd, b.addr, 0, level)
        ensures NodeAdmits(spec, trace, WayNode(b.addr, level), b.cmd, b.clk)
      {
        LevelsOnWay(spec, s, channel, b, level);
        LevelAdmits(spec, s, channel, trace, b, level);
        forall m | 0 <= m < |trace|
          ensures LevelKeeps(s, level, trace[m], b)
        {
          KeepsByLevel(s, trace[m], b);
        }
      }
    }
  }

  /** A trace is legal exactly if every command waits for those before it. */
  lemma LegalIff(spec: Spec, s: SpeedEntry, channel: int, trace: Trace)
    requires IsDdr4(spec, s) && AreIssues(spec, channel, trace) && TraceOk(spec, trace)
    ensures Legal(spec, trace) <==> forall n :: 0 <= n < |trace| ==> KeepsAll(s, trace[..n], trace[n])
  {
    hide IsDdr4, KeepsAll, TraceAdmits;
    forall n | 0 <= n < |trace|
      ensures TraceAdmits(spec, trace[..n], trace[n]) <==> KeepsAll(s, trace[..n], trace[n])
    {
      AdmitsIff(spec, s, channel, trace[..n], trace[n]);
    }
  }
}
