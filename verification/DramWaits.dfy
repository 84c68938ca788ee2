/**
 The waits of the DDR4 tables in the runs of the controller: what every two commands keep that have been
 issued, and when exactly a command is ready.
 */
module DramWaits {
  import opened RowTable
  import opened Controller
  import opened DramControl
  import opened Ddr4Waits
  import D = DramTiming
  import H = DramHistory
  import T = DramTree
  import Ddr4

  // ---- addresses ----

  lemma RecordFits(speed: Ddr4.SpeedEntry, org: Org, s: H.Issue, i: Issued)
    requires Records(org, s, i) && D.AddressOk(SpecOf(speed, org), s.addr)
    ensures IsIssue(SpecOf(speed, org), org.channel, s) && s.cmd == Signal(i.cmd)
    ensures ForBank(s.cmd) <==> !ForRank(i.cmd)
  {
  }

  lemma SpecIsDdr4(speed: Ddr4.SpeedEntry, org: Org)
    ensures IsDdr4(SpecOf(speed, org), speed)
  {
  }

  predicate SameRank(p: Path, q: Path) {
    p != [] && q != [] && p[0] == q[0]
  }

  predicate SameGroup(p: Path, q: Path) {
    |p| == BANK_LEVEL && |q| == BANK_LEVEL && p[0] == q[0] && p[1] == q[1]
  }

  lemma PrefixIs(a: seq<int>, b: seq<int>, k: nat)
    requires k < |a| && k < |b|
    ensures a[..k + 1] == b[..k + 1] <==> a[..k] == b[..k] && a[k] == b[k]
  {
    assert a[..k + 1] == a[..k] + [a[k]] && b[..k + 1] == b[..k] + [b[k]];
    assert a[..k + 1][..k] == a[..k] && b[..k + 1][..k] == b[..k];
    assert a[..k + 1][k] == a[k] && b[..k + 1][k] == b[k];
  }

  lemma PathsAre(p: Path, q: Path)
    requires |p| == BANK_LEVEL && |q| == BANK_LEVEL
    ensures p == q <==> p[0] == q[0] && p[1] == q[1] && p[2] == q[2]
  {
  }

  /** Nodes of the tree are the same exactly if the paths are so far. */
  lemma SameIs(org: Org, s: H.Issue, i: Issued, t: H.Issue, j: Issued)
    requires Records(org, s, i) && Records(org, t, j)
    ensures Same(s, t, Ddr4.RANK) <==> SameRank(i.path, j.path)
    ensures !ForRank(j.cmd) ==> (Same(s, t, Ddr4.BANK_GROUP) <==> SameGroup(i.path, j.path))
    ensures !ForRank(j.cmd) ==> (Same(s, t, Ddr4.BANK) <==> i.path == j.path)
  {
    PrefixIs(s.addr, t.addr, 0);
    PrefixIs(s.addr, t.addr, 1);
    PrefixIs(s.addr, t.addr, 2);
    PrefixIs(s.addr, t.addr, 3);
    if !ForRank(j.cmd) && !ForRank(i.cmd) {
      PathsAre(i.path, j.path);
    }
  }

  // ---- what two commands keep ----

  predicate HasPassed(w: Wait, before: int, now: int) {
    w.AtLeast? ==> before + w.cycles <= now
  }

  /** A command has waited for one that was issued at time `before`. */
  predicate HasWaited(speed: Ddr4.SpeedEntry, i: Issued, before: int, cmd: Command, path: Path, now: int) {
    var c, d := Signal(i.cmd), Signal(cmd);
    && HasPassed(ChannelWait(speed, c, d), before, now)
    && (if SameRank(i.path, path) then HasPassed(RankWait(speed, c, d), before, now)
        else HasPassed(OtherRankWait(speed, c, d), before, now))
    && (!ForRank(cmd) && SameGroup(i.path, path) ==> HasPassed(GroupWait(speed, c, d), before, now))
    && (!ForRank(cmd) && i.path == path ==> HasPassed(BankWait(speed, c, d), before, now))
  }

  lemma WaitedIs(speed: Ddr4.SpeedEntry, org: Org, s: H.Issue, i: Issued, t: H.Issue, j: Issued)
    requires Records(org, s, i) && Records(org, t, j)
    ensures KeepsWaits(speed, s, t) <==> HasWaited(speed, i, s.clk, j.cmd, j.path, t.clk)
  {
    hide ChannelWait, RankWait, OtherRankWait, GroupWait, BankWait, Same;
    SameIs(org, s, i, t, j);
  }

  // ---- in reachable states ----

  /** What the controller has issued, with the legal trace that the tree has of it. */
  ghost predicate IsLegalRun(speed: Ddr4.SpeedEntry, org: Org, trace: H.Trace, issued: seq<Issued>) {
    H.TraceOk(SpecOf(speed, org), trace) && T.Legal(SpecOf(speed, org), trace) && Follows(org, trace, issued)
  }

  /** So it is in every state that the controller can reach. */
  lemma ReachableIsLegal(d: DramController)
    requires d.Valid()
    ensures IsLegalRun(d.speed, d.org, d.tree.trace, d.ctrl.issued)
  {
    hide ChannelOk, T.Legal, T.AllSummarise, D.NodesOk;
  }

  lemma RecordsFit(speed: Ddr4.SpeedEntry, org: Org, trace: H.Trace, issued: seq<Issued>)
    requires H.TraceOk(SpecOf(speed, org), trace) && Follows(org, trace, issued)
    ensures AreIssues(SpecOf(speed, org), org.channel, trace)
  {
    forall k | 0 <= k < |trace|
      ensures IsIssue(SpecOf(speed, org), org.channel, trace[k])
    {
      assert Records(org, trace[k], issued[k]);
      RecordFits(speed, org, trace[k], issued[k]);
    }
  }

  /** Every command that has been issued had waited for every one before it. */
  lemma IssuedHasWaited(speed: Ddr4.SpeedEntry, org: Org, trace: H.Trace, issued: seq<Issued>, m: nat, n: nat)
    requires IsLegalRun(speed, org, trace, issued) && m < n < |issued|
    ensures HasWaited(speed, issued[m], trace[m].clk, issued[n].cmd, issued[n].path, trace[n].clk)
  {
    hide T.Legal, Records, IsDdr4, AreIssues, KeepsWaits, HasWaited, SpecOf;
    RecordsFit(speed, org, trace, issued);
    SpecIsDdr4(speed, org);
    LegalIff(SpecOf(speed, org), speed, org.channel, trace);
    assert KeepsAll(speed, trace[..n], trace[n]);
    assert trace[..n][m] == trace[m];
    WaitedIs(speed, org, trace[m], issued[m], trace[n], issued[n]);
  }

  /** On a bank: row cycle, precharge, and the accesses to a row. */
  lemma BankWaits(speed: Ddr4.SpeedEntry, org: Org, trace: H.Trace, issued: seq<Issued>, m: nat, n: nat)
    requires IsLegalRun(speed, org, trace, issued) && m < n < |issued| && issued[m].path == issued[n].path
    ensures
      var a, b, t, s := issued[m].cmd, issued[n].cmd, trace[n].clk - trace[m].clk, speed;
      && (a.Precharge? && b.Activate? ==> t >= s.nRP)
      && (a.Activate? && b.Activate? ==> t >= s.nRC)
      && (a.Activate? && b.Precharge? ==> t >= s.nRAS)
      && (a.Activate? && (b.Read? || b.Write?) ==> t >= s.nRCD)
      && (a.Read? && b.Precharge? ==> t >= s.nRTP)
      && (a.Write? && b.Precharge? ==> t >= s.nCWL + s.nBL + s.nWR)
  {
    hide IsLegalRun, ChannelWait, RankWait, OtherRankWait, GroupWait;
    IssuedHasWaited(speed, org, trace, issued, m, n);
  }

  /** On a bank group: accesses and activates of its banks. */
  lemma GroupWaits(speed: Ddr4.SpeedEntry, org: Org, trace: H.Trace, issued: seq<Issued>, m: nat, n: nat)
    requires IsLegalRun(speed, org, trace, issued) && m < n < |issued| && SameGroup(issued[m].path, issued[n].path)
    ensures
      var a, b, t, s := issued[m].cmd, issued[n].cmd, trace[n].clk - trace[m].clk, speed;
      && ((a.Read? && b.Read?) || (a.Write? && b.Write?) ==> t >= s.nCCDL)
      && (a.Write? && b.Read? ==> t >= s.nCWL + s.nBL + s.nWTRL)
      && (a.Activate? && b.Activate? ==> t >= s.nRRDL)
  {
    hide IsLegalRun, ChannelWait, RankWait, OtherRankWait, BankWait;
    IssuedHasWaited(speed, org, trace, issued, m, n);
  }

  /** On a rank: accesses, activates, and its precharges and refreshes. */
  lemma RankWaits(speed: Ddr4.SpeedEntry, org: Org, trace: H.Trace, issued: seq<Issued>, m: nat, n: nat)
    requires IsLegalRun(speed, org, trace, issued) && m < n < |issued| && SameRank(issued[m].path, issued[n].path)
    ensures
      var a, b, t, s := issued[m].cmd, issued[n].cmd, trace[n].clk - trace[m].clk, speed;
      && ((a.Read? && b.Read?) || (a.Write? && b.Write?) ==> t >= s.nCCDS)
      && (a.Read? && b.Write? ==> t >= s.nCL + s.nBL + 2 - s.nCWL)
      && (a.Write? && b.Read? ==> t >= s.nCWL + s.nBL + s.nWTRS)
      && (a.Activate? && b.Activate? ==> t >= s.nRRDS)
      && (a.Activate? && b.PrechargeAll? ==> t >= s.nRAS)
      && (a.Read? && b.PrechargeAll? ==> t >= s.nRTP)
      && (a.Write? && b.PrechargeAll? ==> t >= s.nCWL + s.nBL + s.nWR)
      && (a.PrechargeAll? && b.Activate? ==> t >= s.nRP)
      && (a.Activate? && b.Refresh? ==> t >= s.nRC)
      && ((a.Precharge? || a.PrechargeAll?) && b.Refresh? ==> t >= s.nRP)
      && (a.Refresh? && (b.Activate? || b.Refresh?) ==> t >= s.nRFC)
  {
    hide IsLegalRun, ChannelWait, GroupWait, OtherRankWait, BankWait;
    IssuedHasWaited(speed, org, trace, issued, m, n);
  }

  /** On the channel: the data bus, and the turn from one rank to the other. */
  lemma ChannelWaits(speed: Ddr4.SpeedEntry, org: Org, trace: H.Trace, issued: seq<Issued>, m: nat, n: nat)
    requires IsLegalRun(speed, org, trace, issued) && m < n < |issued|
    ensures
      var a, b, t, s := issued[m].cmd, issued[n].cmd, trace[n].clk - trace[m].clk, speed;
      && ((a.Read? && b.Read?) || (a.Write? && b.Write?) ==> t >= s.nBL)
      && (!SameRank(issued[m].path, issued[n].path) ==>
            && (a.Read? && (b.Read? || b.Write?) ==> t >= s.nBL + s.nRTRS)
            && (a.Read? && b.Write? ==> t >= s.nCL + s.nBL + s.nRTRS - s.nCWL)
            && (a.Write? && b.Read? ==> t >= s.nCWL + s.nBL + s.nRTRS - s.nCL))
  {
    hide IsLegalRun, RankWait, GroupWait, BankWait;
    IssuedHasWaited(speed, org, trace, issued, m, n);
  }

  // ---- when a command is ready ----

  ghost predicate AreActivates(issued: seq<Issued>, path: Path, i1: nat, i2: nat, i3: nat, i4: nat) {
    && i1 < i2 < i3 < i4 < |issued|
    && forall i :: i in {i1, i2, i3, i4} ==> issued[i].cmd.Activate? && SameRank(issued[i].path, path)
  }

  /** Of four activates of the rank the first has left the window. */
  ghost predicate OutOfWindow(trace: H.Trace, issued: seq<Issued>, window: int, path: Path, now: int)
    requires |trace| == |issued|
  {
    forall i1: nat, i2: nat, i3: nat, i4: nat ::
      AreActivates(issued, path, i1, i2, i3, i4) ==> trace[i1].clk + window <= now
  }

  lemma HitIs(org: Org, trace: H.Trace, issued: seq<Issued>, b: H.Issue, j: Issued, i: nat)
    requires Follows(org, trace, issued) && Records(org, b, j) && i < |trace|
    ensures IsHit(trace, i, T.WayNode(b.addr, Ddr4.RANK), D.ACT) <==>
            issued[i].cmd.Activate? && SameRank(issued[i].path, j.path)
  {
    assert Records(org, trace[i], issued[i]);
    SameIs(org, trace[i], issued[i], b, j);
    assert T.WayNode(b.addr, Ddr4.RANK) == b.addr[..2];
    assert b.addr[..2] <= trace[i].addr <==> trace[i].addr[..2] == b.addr[..2];
  }

  lemma FourAre(org: Org, trace: H.Trace, issued: seq<Issued>, b: H.Issue, j: Issued, i1: nat, i2: nat, i3: nat,
                i4: nat)
    requires Follows(org, trace, issued) && Records(org, b, j)
    ensures AreFour(trace, T.WayNode(b.addr, Ddr4.RANK), i1, i2, i3, i4) <==>
            AreActivates(issued, j.path, i1, i2, i3, i4)
  {
    hide IsHit, Records, SameRank;
    if i1 < i2 < i3 < i4 < |trace| {
      HitIs(org, trace, issued, b, j, i1);
      HitIs(org, trace, issued, b, j, i2);
      HitIs(org, trace, issued, b, j, i3);
      HitIs(org, trace, issued, b, j, i4);
    }
  }

  lemma WindowIs(speed: Ddr4.SpeedEntry, org: Org, trace: H.Trace, issued: seq<Issued>, b: H.Issue, j: Issued)
    requires Follows(org, trace, issued) && Records(org, b, j)
    ensures KeepsWindow(speed, trace, b) <==>
            (j.cmd.Activate? ==> OutOfWindow(trace, issued, speed.nFAW, j.path, b.clk))
  {
    hide AreFour, AreActivates, Follows;
    forall i1: nat, i2: nat, i3: nat, i4: nat
      ensures AreFour(trace, T.WayNode(b.addr, Ddr4.RANK), i1, i2, i3, i4) <==>
              AreActivates(issued, j.path, i1, i2, i3, i4)
    {
      FourAre(org, trace, issued, b, j, i1, i2, i3, i4);
    }
  }

  /** A command has waited for every command that has been issued, and an activate is outside of the windows of
      its rank. */
  ghost predicate MayFollow(speed: Ddr4.SpeedEntry, trace: H.Trace, issued: seq<Issued>, cmd: Command, path: Path,
                            now: int)
    requires |trace| == |issued|
  {
    && (forall m :: 0 <= m < |issued| ==> HasWaited(speed, issued[m], trace[m].clk, cmd, path, now))
    && (cmd.Activate? ==> OutOfWindow(trace, issued, speed.nFAW, path, now))
  }

  lemma AdmittedMayFollow(speed: Ddr4.SpeedEntry, org: Org, trace: H.Trace, issued: seq<Issued>, b: H.Issue, j: Issued)
    requires H.TraceOk(SpecOf(speed, org), trace) && Follows(org, trace, issued)
    requires Records(org, b, j) && D.AddressOk(SpecOf(speed, org), b.addr)
    ensures T.TraceAdmits(SpecOf(speed, org), trace, b) <==> MayFollow(speed, trace, issued, j.cmd, j.path, b.clk)
  {
    RecordsFit(speed, org, trace, issued);
    SpecIsDdr4(speed, org);
    RecordFits(speed, org, b, j);
    AdmitsIff(SpecOf(speed, org), speed, org.channel, trace, b);
    WindowIs(speed, org, trace, issued, b, j);
    hide T.TraceAdmits, Records, IsDdr4, AreIssues, IsIssue, KeepsWaits, HasWaited, SpecOf, KeepsWindow, OutOfWindow;
    forall m | 0 <= m < |trace|
      ensures KeepsWaits(speed, trace[m], b) <==> HasWaited(speed, issued[m], trace[m].clk, j.cmd, j.path, b.clk)
    {
      WaitedIs(speed, org, trace[m], issued[m], b, j);
    }
  }

  lemma ReadyIsAdmitted(speed: Ddr4.SpeedEntry, org: Org, nodes: D.Nodes, trace: H.Trace, clk: int, cmd: Command,
                        path: Path, row: nat)
    requires D.NodesOk(SpecOf(speed, org), org.channel, nodes) && T.AllSummarise(SpecOf(speed, org), trace, nodes)
    requires clk >= 0 && if ForRank(cmd) then IsRank(org, path) else IsBank(org, path)
    ensures
      var b := H.Issue(Signal(cmd), AddressOf(org, path, row), clk);
      && D.AddressOk(SpecOf(speed, org), b.addr)
      && (IsReady(TimingNow(SpecOf(speed, org), org, nodes, clk), cmd, path, row) <==>
          T.TraceAdmits(SpecOf(speed, org), trace, b))
  {
    hide T.AllSummarise, T.TraceAdmits, TimingNow;
    var b := H.Issue(Signal(cmd), AddressOf(org, path, row), clk);
    AddressesOk(speed, org, path, row);
    ReadyIsCheck(SpecOf(speed, org), org, nodes, clk, cmd, path, row);
    T.CheckIsTraceCheck(SpecOf(speed, org), org.channel, nodes, trace, b);
  }

  /** In every state that the controller can reach a command is ready exactly if it may follow what has been
      issued. */
  lemma ReadyIff(d: DramController, cmd: Command, path: Path, row: nat)
    requires d.Valid() && if ForRank(cmd) then IsRank(d.org, path) else IsBank(d.org, path)
    ensures |d.tree.trace| == |d.ctrl.issued|
    ensures IsReady(TimingNow(d.tree.spec, d.org, d.tree.nodes, d.ctrl.clk), cmd, path, row) <==>
            MayFollow(d.speed, d.tree.trace, d.ctrl.issued, cmd, path, d.ctrl.clk)
  {
    hide ChannelOk, T.Legal, T.AllSummarise, D.NodesOk, T.TraceAdmits, TimingNow, MayFollow, Follows, SpecOf;
    ReachableIsLegal(d);
    ReadyIsAdmitted(d.speed, d.org, d.tree.nodes, d.tree.trace, d.ctrl.clk, cmd, path, row);
    var b, j := H.Issue(Signal(cmd), AddressOf(d.org, path, row), d.ctrl.clk), Issued(cmd, path, row, 0);
    AdmittedMayFollow(d.speed, d.org, d.tree.trace, d.ctrl.issued, b, j);
    FollowsAll(d.org, d.tree.trace, d.ctrl.issued);
  }

  lemma FollowsAll(org: Org, trace: H.Trace, issued: seq<Issued>)
    requires Follows(org, trace, issued)
    ensures |trace| == |issued|
  {
  }
}
