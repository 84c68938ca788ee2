/**
 The DRAM tree as the controller uses it: built level by level, asked whether a command is ready, and
 updated in place when the command is issued.  A ghost trace of everything issued shows that the
 readiness test on the summaries is the test on the whole history.
 */
module DramTree {
  import opened Common
  import opened DramTiming
  import opened DramHistory

  // ---- which part of the tree an update has reached ----

  /** The subtree of `path` is updated and the rest is not. */
  ghost predicate UpdatedBelow(spec: Spec, nodes: Nodes, after: Nodes, path: Path, cmd: Command, addr: seq<int>,
                               clk: int)
    requires AllNodesOk(nodes)
  {
    && after.Keys == nodes.Keys
    && forall q :: q in nodes ==>
         after[q] == if path <= q then UpdatedNode(spec, nodes[q], q, cmd, addr, clk) else nodes[q]
  }

  /** The subtrees of the first `n` children of `path` are updated and the rest is not. */
  ghost predicate UpdatedStrictlyBelow(spec: Spec, nodes: Nodes, after: Nodes, path: Path, n: int,
                                       cmd: Command, addr: seq<int>, clk: int)
    requires AllNodesOk(nodes)
  {
    && after.Keys == nodes.Keys
    && forall q :: q in nodes ==>
         after[q] == if path < q && n > q[|path|] then UpdatedNode(spec, nodes[q], q, cmd, addr, clk) else nodes[q]
  }

  /** The whole tree after a command. */
  function NodesAfter(spec: Spec, nodes: Nodes, cmd: Command, addr: seq<int>, clk: int): (after: Nodes)
    requires AllNodesOk(nodes)
    ensures after.Keys == nodes.Keys && AllNodesOk(after)
  {
    map q | q in nodes :: UpdatedNode(spec, nodes[q], q, cmd, addr, clk)
  }

  lemma UpdatedFromRoot(spec: Spec, channel: int, nodes: Nodes, after: Nodes, cmd: Command, addr: seq<int>, clk: int)
    requires NodesOk(spec, channel, nodes)
    ensures UpdatedBelow(spec, nodes, after, [channel], cmd, addr, clk) <==>
            after == NodesAfter(spec, nodes, cmd, addr, clk)
  {
    assert forall q :: q in nodes ==> [channel] <= q;
  }

  lemma UpdatedLeaf(spec: Spec, nodes: Nodes, path: Path, cmd: Command, addr: seq<int>, clk: int)
    requires AllNodesOk(nodes) && path in nodes
    requires path <= addr ==> forall q :: q in nodes && path <= q ==> q == path
    ensures UpdatedBelow(spec, nodes, nodes[path := UpdatedNode(spec, nodes[path], path, cmd, addr, clk)],
                         path, cmd, addr, clk)
  {
    var after := nodes[path := UpdatedNode(spec, nodes[path], path, cmd, addr, clk)];
    assert after.Keys == nodes.Keys;
    forall q | q in nodes
      ensures after[q] == if path <= q then UpdatedNode(spec, nodes[q], q, cmd, addr, clk) else nodes[q]
    {
      PrefixCases(path, q);
      if path < q && !(path <= addr) {
        OutsideTarget(path, q, addr);
      }
    }
  }

  lemma UpdatedInner(spec: Spec, nodes: Nodes, after: Nodes, path: Path, cmd: Command, addr: seq<int>, clk: int)
    requires AllNodesOk(nodes) && path in nodes && |path| < |spec.count|
    requires forall q :: q in nodes && path < q ==> q[|path|] < spec.count[|path|]
    requires UpdatedStrictlyBelow(spec, nodes[path := UpdatedNode(spec, nodes[path], path, cmd, addr, clk)], after,
                                  path, spec.count[|path|], cmd, addr, clk)
    ensures UpdatedBelow(spec, nodes, after, path, cmd, addr, clk)
  {
    assert after.Keys == nodes.Keys;
    forall q | q in nodes
      ensures after[q] == if path <= q then UpdatedNode(spec, nodes[q], q, cmd, addr, clk) else nodes[q]
    {
      PrefixCases(path, q);
    }
  }

  lemma UpdatedNextChild(spec: Spec, nodes: Nodes, between: Nodes, after: Nodes, path: Path, i: int,
                         cmd: Command, addr: seq<int>, clk: int)
    requires AllNodesOk(nodes) && AllNodesOk(between)
    requires UpdatedStrictlyBelow(spec, nodes, between, path, i, cmd, addr, clk)
    requires UpdatedBelow(spec, between, after, path + [i], cmd, addr, clk)
    ensures UpdatedStrictlyBelow(spec, nodes, after, path, i + 1, cmd, addr, clk)
  {
    forall q | q in nodes
      ensures after[q] ==
              if path < q && i + 1 > q[|path|] then UpdatedNode(spec, nodes[q], q, cmd, addr, clk) else nodes[q]
    {
      ChildPrefix(path, i, q);
    }
  }

  lemma PrefixCases(p: Path, q: Path)
    ensures p <= q <==> p == q || p < q
  {
    if p <= q && |p| == |q| {
      assert q[..|p|] == q;
    }
  }

  lemma ChildPrefix(p: Path, i: int, q: Path)
    ensures p + [i] <= q <==> p < q && q[|p|] == i
  {
    if p + [i] <= q {
      assert q[..|p|] == (p + [i])[..|p|] == p;
      assert q[|p|] == (p + [i])[|p|];
    }
    if p < q && q[|p|] == i {
      assert q[..|p| + 1] == q[..|p|] + [q[|p|]];
    }
  }

  /** Nothing inside a node that is not a target is concerned. */
  lemma OutsideTarget(p: Path, q: Path, addr: seq<int>)
    requires p < q && !(p <= addr)
    ensures !IsTarget(q, addr) && !IsSibling(q, addr)
  {
    assert q[..|q| - 1][..|p|] == p;
  }

  // ---- readiness ----

  function ScopeOf(spec: Spec, cmd: Command): nat {
    spec.scope(cmd)
  }

  /** The level of the last node that the readiness test looks at. */
  function LastLevel(spec: Spec, cmd: Command, addr: seq<int>, level: nat): (last: nat)
    requires AddressOk(spec, addr) && level < |spec.count|
    ensures level <= last < |spec.count|
    ensures forall l :: level < l <= last ==> addr[l] >= 0
    decreases |spec.count| - level
  {
    if addr[level + 1] < 0 || level == ScopeOf(spec, cmd) || level + 1 == |spec.count| then level
    else LastLevel(spec, cmd, addr, level + 1)
  }

  /** The node at `level` on the address's way. */
  function WayNode(addr: seq<int>, level: nat): (p: Path)
    requires level < |addr|
    ensures |p| == level + 1
  {
    addr[..level + 1]
  }

  ghost predicate OnWay(spec: Spec, cmd: Command, addr: seq<int>, from: nat, l: nat)
    requires AddressOk(spec, addr) && from < |spec.count|
  {
    from <= l <= LastLevel(spec, cmd, addr, from)
  }

  ghost predicate WayExists(spec: Spec, nodes: Nodes, cmd: Command, addr: seq<int>, from: nat)
    requires AddressOk(spec, addr) && from < |spec.count|
  {
    forall l: nat :: OnWay(spec, cmd, addr, from, l) ==> WayNode(addr, l) in nodes && NodeOk(nodes[WayNode(addr, l)])
  }

  predicate NodeReady(n: Node, cmd: Command, clk: int)
    requires cmd in n.next
  {
    n.next[cmd] == -1 || n.next[cmd] <= clk
  }

  /** The readiness test, from the node at `level` on the address's way downwards. */
  function Check(spec: Spec, nodes: Nodes, cmd: Command, addr: seq<int>, clk: int, level: nat): (ready: bool)
    requires AddressOk(spec, addr) && level < |spec.count|
    requires WayExists(spec, nodes, cmd, addr, level)
    ensures ready <==> forall l: nat :: OnWay(spec, cmd, addr, level, l) ==>
            NodeReady(nodes[WayNode(addr, l)], cmd, clk)
    decreases |spec.count| - level
  {
    assert OnWay(spec, cmd, addr, level, level);
    var n := nodes[WayNode(addr, level)];
    if n.next[cmd] != -1 && clk < n.next[cmd] then false
    else if addr[level + 1] < 0 || level == ScopeOf(spec, cmd) || level + 1 == |spec.count| then true
    else
      assert forall l: nat :: OnWay(spec, cmd, addr, level, l) <==> l == level || OnWay(spec, cmd, addr, level + 1, l);
      Check(spec, nodes, cmd, addr, clk, level + 1)
  }

  /** No node that the command passes through objects to it, judged by the whole trace. */
  ghost predicate TraceAdmits(spec: Spec, trace: Trace, s: Issue)
    requires AddressOk(spec, s.addr) && |spec.count| > 0
  {
    forall l: nat :: OnWay(spec, s.cmd, s.addr, 0, l) ==> NodeAdmits(spec, trace, WayNode(s.addr, l), s.cmd, s.clk)
  }

  /** A trace in which every command was issued when the commands before it admitted it. */
  ghost predicate Legal(spec: Spec, trace: Trace)
    requires TraceOk(spec, trace) && |spec.count| > 0
  {
    forall n :: 0 <= n < |trace| ==> TraceAdmits(spec, trace[..n], trace[n])
  }

  ghost predicate AllSummarise(spec: Spec, trace: Trace, nodes: Nodes)
    requires AllNodesOk(nodes)
  {
    forall p :: p in nodes ==> Summarises(spec, trace, p, nodes[p])
  }

  /** The nodes on an in-range address's way exist. */
  lemma InRangeWayExists(spec: Spec, channel: int, nodes: Nodes, cmd: Command, addr: seq<int>)
    requires |spec.count| > 0 && NodesOk(spec, channel, nodes) && AddressOk(spec, addr) && addr[0] == channel
    ensures WayExists(spec, nodes, cmd, addr, 0)
  {
    forall l: nat | OnWay(spec, cmd, addr, 0, l)
      ensures WayNode(addr, l) in nodes
    {
      assert IsNode(spec, WayNode(addr, l));
    }
  }

  /** The fast test on the summaries is the test on the whole history. */
  lemma CheckIsTraceCheck(spec: Spec, channel: int, nodes: Nodes, trace: Trace, s: Issue)
    requires |spec.count| > 0 && NodesOk(spec, channel, nodes) && AllSummarise(spec, trace, nodes)
    requires AddressOk(spec, s.addr) && s.addr[0] == channel && s.clk >= 0
    ensures WayExists(spec, nodes, s.cmd, s.addr, 0)
    ensures Check(spec, nodes, s.cmd, s.addr, s.clk, 0) <==> TraceAdmits(spec, trace, s)
  {
    InRangeWayExists(spec, channel, nodes, s.cmd, s.addr);
    forall l: nat | OnWay(spec, s.cmd, s.addr, 0, l)
      ensures NodeReady(nodes[WayNode(s.addr, l)], s.cmd, s.clk) <==>
              NodeAdmits(spec, trace, WayNode(s.addr, l), s.cmd, s.clk)
    {
      assert Summarises(spec, trace, WayNode(s.addr, l), nodes[WayNode(s.addr, l)]);
    }
  }

  lemma ChildIsNode(spec: Spec, channel: int, nodes: Nodes, path: Path, i: int)
    requires NodesOk(spec, channel, nodes) && path in nodes
    requires |path| < |spec.count| && 0 <= i < spec.count[|path|]
    ensures path + [i] in nodes
  {
    assert IsNode(spec, path + [i]);
  }

  lemma NoChildUpdated(spec: Spec, channel: int, nodes: Nodes, path: Path, cmd: Command, addr: seq<int>, clk: int)
    requires NodesOk(spec, channel, nodes)
    requires 0 < |path| < |spec.count|
    ensures UpdatedStrictlyBelow(spec, nodes, nodes, path, 0, cmd, addr, clk)
    ensures forall q :: q in nodes && path < q ==> q[|path|] < spec.count[|path|]
  {
    assert forall q :: q in nodes ==> IsNode(spec, q);
  }

  lemma NodeReplaced(spec: Spec, channel: int, nodes: Nodes, path: Path, n: Node)
    requires NodesOk(spec, channel, nodes) && path in nodes && NodeOk(n)
    ensures NodesOk(spec, channel, nodes[path := n])
  {
  }

  /** A node whose parent is a target is a target if the last id fits. */
  lemma TargetByLast(path: Path, addr: seq<int>)
    requires path != [] && |path| <= |addr| && path[..|path| - 1] <= addr
    ensures path <= addr <==> path[|path| - 1] == addr[|path| - 1]
  {
    assert path == path[..|path| - 1] + [path[|path| - 1]];
  }

  /** The names of the nodes on the first `n` levels. */
  function Names(spec: Spec, channel: int, n: nat): (names: set<Path>)
    requires n <= |spec.count|
    ensures forall q :: q in names <==> IsNode(spec, q) && q[0] == channel && |q| <= n
  {
    if n == 0 then {}
    else if n == 1 then
      assert forall q :: IsNode(spec, q) && q[0] == channel && |q| <= n ==> q == [channel];
      {[channel]}
    else
      var upper := Names(spec, channel, n - 1);
      assert forall q :: q in Children(spec, upper, n - 1) <==> IsNode(spec, q) && q[0] == channel && |q| == n by {
        forall q: Path
          ensures q in Children(spec, upper, n - 1) <==> IsNode(spec, q) && q[0] == channel && |q| == n
        {
          if IsNode(spec, q) && |q| == n {
            ParentIsNode(spec, q);
          }
        }
      }
      upper + Children(spec, upper, n - 1)
  }

  /** The children of those `names` that are on level `n - 1`. */
  function Children(spec: Spec, names: set<Path>, n: nat): (children: set<Path>)
    requires 0 < n < |spec.count|
    ensures forall q: Path :: q in children <==> |q| == n + 1 && q[..n] in names && 0 <= q[n] < spec.count[n]
  {
    var children := set p, i: int | p in names && |p| == n && 0 <= i < spec.count[n] :: p + [i];
    assert forall q: Path :: |q| == n + 1 && q[..n] in names && 0 <= q[n] < spec.count[n] ==> q in children by {
      forall q: Path | |q| == n + 1 && q[..n] in names && 0 <= q[n] < spec.count[n]
        ensures q in children
      {
        assert q == q[..n] + [q[n]];
      }
    }
    children
  }

  lemma ParentIsNode(spec: Spec, q: Path)
    requires IsNode(spec, q) && |q| > 1
    ensures IsNode(spec, q[..|q| - 1]) && q[..|q| - 1][0] == q[0]
    ensures 0 <= q[|q| - 1] < spec.count[|q| - 1]
  {
  }

  function InitialNodes(spec: Spec, channel: int): (nodes: Nodes)
    requires |spec.count| > 0
    ensures forall p :: p in nodes <==> IsNode(spec, p) && p[0] == channel
    ensures forall p :: p in nodes ==> p != [] && IsInitial(spec, LevelOf(p), nodes[p])
  {
    map p | p in Names(spec, channel, |spec.count|) :: InitialNode(spec, LevelOf(p))
  }

  lemma InitialTree(spec: Spec, channel: int, nodes: Nodes)
    requires SpecOk(spec)
    requires forall p :: p in nodes <==> IsNode(spec, p) && p[0] == channel
    requires forall p :: p in nodes ==> p != [] && IsInitial(spec, LevelOf(p), nodes[p])
    ensures NodesOk(spec, channel, nodes) && AllSummarise(spec, [], nodes)
  {
    forall p | p in nodes
      ensures p != [] && Summarises(spec, [], p, nodes[p])
    {
      InitialSummary(spec, p, nodes[p]);
    }
  }

  lemma AllSummariesKept(spec: Spec, channel: int, nodes: Nodes, after: Nodes, trace: Trace, s: Issue)
    requires SpecOk(spec) && NodesOk(spec, channel, nodes) && NodesOk(spec, channel, after)
    requires TraceOk(spec, trace) && s.clk >= 0
    requires AllSummarise(spec, trace, nodes)
    requires UpdatedBelow(spec, nodes, after, [channel], s.cmd, s.addr, s.clk)
    ensures AllSummarise(spec, trace + [s], after)
  {
    forall p | p in after
      ensures Summarises(spec, trace + [s], p, after[p])
    {
      assert [channel] <= p;
      UpdateKeepsSummary(spec, trace, p, nodes[p], s);
    }
  }

  /** After a command the tree summarises the longer trace. */
  lemma NodesAfterSummarise(spec: Spec, channel: int, nodes: Nodes, trace: Trace, s: Issue, after: Nodes)
    requires SpecOk(spec) && NodesOk(spec, channel, nodes) && TraceOk(spec, trace) && s.clk >= 0
    requires AllSummarise(spec, trace, nodes) && after == NodesAfter(spec, nodes, s.cmd, s.addr, s.clk)
    ensures NodesOk(spec, channel, after) && AllSummarise(spec, trace + [s], after)
  {
    assert forall p :: p in after <==> p in nodes;
    UpdatedFromRoot(spec, channel, nodes, after, s.cmd, s.addr, s.clk);
    AllSummariesKept(spec, channel, nodes, after, trace, s);
  }

  lemma LegalExtended(spec: Spec, trace: Trace, s: Issue)
    requires |spec.count| > 0 && TraceOk(spec, trace) && Legal(spec, trace)
    requires s.clk >= 0 && AddressOk(spec, s.addr) && TraceAdmits(spec, trace, s)
    ensures TraceOk(spec, trace + [s]) && Legal(spec, trace + [s])
  {
    var after := trace + [s];
    assert TraceOk(spec, after);
    forall n | 0 <= n < |after|
      ensures TraceAdmits(spec, after[..n], after[n])
    {
      assert after[..n] == trace[..n];
    }
    assert trace[..|trace|] == trace;
  }

  /** A command that passes the test may be appended to a legal trace. */
  lemma CheckKeepsLegal(spec: Spec, channel: int, nodes: Nodes, trace: Trace, s: Issue)
    requires |spec.count| > 0 && NodesOk(spec, channel, nodes)
    requires TraceOk(spec, trace) && Legal(spec, trace) && AllSummarise(spec, trace, nodes)
    requires AddressOk(spec, s.addr) && s.addr[0] == channel && s.clk >= 0
    requires WayExists(spec, nodes, s.cmd, s.addr, 0) && Check(spec, nodes, s.cmd, s.addr, s.clk, 0)
    ensures TraceOk(spec, trace + [s]) && Legal(spec, trace + [s])
  {
    CheckIsTraceCheck(spec, channel, nodes, trace, s);
    LegalExtended(spec, trace, s);
  }

  /** The nodes down to level `l` are on the way, and the way goes on from there. */
  ghost predicate WayFrom(spec: Spec, cmd: Command, addr: seq<int>, l: nat)
    requires AddressOk(spec, addr) && l < |spec.count|
  {
    && LastLevel(spec, cmd, addr, 0) == LastLevel(spec, cmd, addr, l)
    && forall k: nat :: k <= l ==> OnWay(spec, cmd, addr, 0, k)
  }

  /** The tree has the nodes of the way down to level `l`. */
  ghost predicate HasWay(nodes: Nodes, cmd: Command, addr: seq<int>, l: nat)
    requires l < |addr|
  {
    forall k: nat :: k <= l ==> WayNode(addr, k) in nodes && cmd in nodes[WayNode(addr, k)].next
  }

  lemma WayHas(spec: Spec, nodes: Nodes, cmd: Command, addr: seq<int>, l: nat)
    requires AddressOk(spec, addr) && l < |spec.count| && WayFrom(spec, cmd, addr, l)
    requires WayExists(spec, nodes, cmd, addr, 0)
    ensures HasWay(nodes, cmd, addr, l)
  {
  }

  /** `latest` is the greatest of `now` and the next times of the nodes down to level `l`. */
  ghost predicate IsLatest(nodes: Nodes, cmd: Command, addr: seq<int>, l: nat, now: int, latest: int)
    requires l < |addr| && HasWay(nodes, cmd, addr, l)
  {
    && now <= latest
    && (forall k: nat :: k <= l ==> nodes[WayNode(addr, k)].next[cmd] <= latest)
    && (latest == now || exists k: nat :: k <= l && nodes[WayNode(addr, k)].next[cmd] == latest)
  }

  lemma WayStep(spec: Spec, cmd: Command, addr: seq<int>, l: nat)
    requires AddressOk(spec, addr) && l + 1 < |spec.count| && WayFrom(spec, cmd, addr, l)
    requires l != ScopeOf(spec, cmd) && addr[l + 1] >= 0
    ensures WayFrom(spec, cmd, addr, l + 1)
  {
  }

  lemma LatestStep(nodes: Nodes, cmd: Command, addr: seq<int>, l: nat, now: int, latest: int)
    requires l + 1 < |addr| && HasWay(nodes, cmd, addr, l) && HasWay(nodes, cmd, addr, l + 1)
    requires IsLatest(nodes, cmd, addr, l, now, latest)
    ensures IsLatest(nodes, cmd, addr, l + 1, now, Max(latest, nodes[WayNode(addr, l + 1)].next[cmd]))
  {
  }

  lemma LatestDecides(spec: Spec, nodes: Nodes, cmd: Command, addr: seq<int>, l: nat, now: int, latest: int)
    requires AddressOk(spec, addr) && |spec.count| > 0 && WayExists(spec, nodes, cmd, addr, 0)
    requires l < |spec.count| && WayFrom(spec, cmd, addr, l) && LastLevel(spec, cmd, addr, l) == l
    requires HasWay(nodes, cmd, addr, l) && IsLatest(nodes, cmd, addr, l, now, latest)
    ensures forall clk :: clk >= now && clk >= 0 ==> (Check(spec, nodes, cmd, addr, clk, 0) <==> latest <= clk)
  {
    forall clk | clk >= now && clk >= 0
      ensures Check(spec, nodes, cmd, addr, clk, 0) <==> latest <= clk
    {
      if latest > clk {
        var k: nat :| k <= l && nodes[WayNode(addr, k)].next[cmd] == latest;
        assert OnWay(spec, cmd, addr, 0, k);
        assert !NodeReady(nodes[WayNode(addr, k)], cmd, clk);
      }
    }
  }

  /** Go down the way of a command as far as it counts. */
  method LatestOnWay(spec: Spec, nodes: Nodes, cmd: Command, addr: seq<int>, now: int) returns (nextClk: int)
    requires AddressOk(spec, addr) && |spec.count| > 0
    requires WayExists(spec, nodes, cmd, addr, 0)
    ensures nextClk >= now
    ensures forall clk :: clk >= now && clk >= 0 ==> (Check(spec, nodes, cmd, addr, clk, 0) <==> nextClk <= clk)
  {
    assert OnWay(spec, cmd, addr, 0, 0);
    var l := 0;
    WayHas(spec, nodes, cmd, addr, 0);
    nextClk := Max(now, nodes[WayNode(addr, 0)].next[cmd]);
    while l < ScopeOf(spec, cmd) && l + 1 < |spec.count| && addr[l + 1] >= 0
      invariant l <= ScopeOf(spec, cmd) && l < |spec.count|
      invariant WayFrom(spec, cmd, addr, l) && HasWay(nodes, cmd, addr, l)
      invariant IsLatest(nodes, cmd, addr, l, now, nextClk)
      decreases |spec.count| - l
    {
      WayStep(spec, cmd, addr, l);
      WayHas(spec, nodes, cmd, addr, l + 1);
      LatestStep(nodes, cmd, addr, l, now, nextClk);
      l := l + 1;
      nextClk := Max(nextClk, nodes[WayNode(addr, l)].next[cmd]);
    }
    LatestDecides(spec, nodes, cmd, addr, l, now, nextClk);
  }

  class DramTree {
    const spec: Spec
    const channel: int
    var nodes: Nodes
    var curClk: int
    ghost var trace: Trace

    ghost predicate ValidTree()
      reads this
    {
      SpecOk(spec) && NodesOk(spec, channel, nodes)
    }

    /** The tree summarises the trace of everything issued, and everything was issued legally. */
    ghost predicate Valid()
      reads this
    {
      && ValidTree()
      && TraceOk(spec, trace)
      && AllSummarise(spec, trace, nodes)
      && Legal(spec, trace)
    }

    constructor (spec: Spec, channel: int)
      requires SpecOk(spec)
      ensures Valid() && this.spec == spec && this.channel == channel && trace == []
      ensures nodes == InitialNodes(spec, channel)
    {
      this.spec := spec;
      this.channel := channel;
      var initial := InitialNodes(spec, channel);
      InitialTree(spec, channel, initial);
      nodes := initial;
      curClk := 0;
      trace := [];
    }

    /** Issue a command that the readiness test admits. */
    method Update(cmd: Command, addr: seq<int>, clk: int)
      requires Valid() && AddressOk(spec, addr) && addr[0] == channel && clk >= 0
      requires WayExists(spec, nodes, cmd, addr, 0) && Check(spec, nodes, cmd, addr, clk, 0)
      modifies this
      ensures Valid() && trace == old(trace) + [Issue(cmd, addr, clk)] && curClk == clk
      ensures nodes == NodesAfter(spec, old(nodes), cmd, addr, clk)
    {
      curClk := clk;
      ghost var s := Issue(cmd, addr, clk);
      ghost var was := nodes;
      CheckKeepsLegal(spec, channel, nodes, trace, s);
      UpdateTiming([channel], cmd, addr, clk);
      AllSummariesKept(spec, channel, was, nodes, trace, s);
      UpdatedFromRoot(spec, channel, was, nodes, cmd, addr, clk);
      trace := trace + [s];
    }

    /** The earliest time, from the present on, at which a command is ready. */
    method GetNext(cmd: Command, addr: seq<int>) returns (nextClk: int)
      requires ValidTree() && AddressOk(spec, addr) && addr[0] == channel
      ensures WayExists(spec, nodes, cmd, addr, 0)
      ensures nextClk >= curClk
      ensures forall clk :: clk >= curClk && clk >= 0 ==> (Check(spec, nodes, cmd, addr, clk, 0) <==> nextClk <= clk)
    {
      InRangeWayExists(spec, channel, nodes, cmd, addr);
      nextClk := LatestOnWay(spec, nodes, cmd, addr, curClk);
    }

    /** Raise the next times of a sibling of the target. */
    method UpdateSibling(n: Node, clk: int, entries: seq<TimingEntry>) returns (after: Node)
      requires NodeOk(n)
      ensures after == SiblingNode(n, clk, entries)
    {
      var next := n.next;
      var i := 0;
      while i < |entries|
        invariant i <= |entries| && Total(next)
        invariant next == RaiseAllSibling(n.next, clk, entries[..i])
      {
        assert entries[..i + 1][..i] == entries[..i];
        var t := entries[i];
        if t.sibling {
          next := next[t.cmd := Max(next[t.cmd], clk + t.val)];
        }
        i := i + 1;
      }
      assert entries[..i] == entries;
      after := n.(next := next);
    }

    /** Record the command in the target's history and raise its next times. */
    method UpdateTarget(n: Node, cmd: Command, clk: int, entries: seq<TimingEntry>) returns (after: Node)
      requires NodeOk(n)
      ensures after == TargetNode(n, cmd, clk, entries)
    {
      var history := n.prev[cmd];
      if history != [] {
        history := [clk] + history[..|history| - 1];
      }
      var next := n.next;
      var i := 0;
      while i < |entries|
        invariant i <= |entries| && Total(next)
        invariant next == RaiseAllTarget(n.next, history, entries[..i])
      {
        assert entries[..i + 1][..i] == entries[..i];
        var t := entries[i];
        if !t.sibling {
          var past := Past(history, t);
          if past >= 0 {
            next := next[t.cmd := Max(next[t.cmd], past + t.val)];
          }
        }
        i := i + 1;
      }
      assert entries[..i] == entries;
      after := Node(next, n.prev[cmd := history]);
    }

    /** Update the node at `path`, whose parent the command goes to; is the node a target too? */
    method UpdateNode(path: Path, cmd: Command, addr: seq<int>, clk: int) returns (isTarget: bool)
      requires ValidTree() && path in nodes && AddressOk(spec, addr)
      requires path[..|path| - 1] <= addr
      modifies this`nodes
      ensures ValidTree()
      ensures isTarget == (path <= addr)
      ensures nodes == old(nodes)[path := UpdatedNode(spec, old(nodes[path]), path, cmd, addr, clk)]
    {
      var level := |path| - 1;
      var entries := Timing(spec, level, cmd);
      var n;
      isTarget := path[level] == addr[level];
      TargetByLast(path, addr);
      if !isTarget {
        n := UpdateSibling(nodes[path], clk, entries);
      } else {
        n := UpdateTarget(nodes[path], cmd, clk, entries);
      }
      NodeReplaced(spec, channel, nodes, path, n);
      nodes := nodes[path := n];
    }

    /** Update the subtree below `path`, whose parent the command goes to. */
    method UpdateTiming(path: Path, cmd: Command, addr: seq<int>, clk: int)
      requires ValidTree() && path in nodes && AddressOk(spec, addr)
      requires path[..|path| - 1] <= addr
      modifies this`nodes
      ensures ValidTree()
      ensures UpdatedBelow(spec, old(nodes), nodes, path, cmd, addr, clk)
      decreases |spec.count| - |path|, 1
    {
      ghost var was := nodes;
      var isTarget := UpdateNode(path, cmd, addr, clk);
      if !isTarget || |path| == |spec.count| {
        UpdatedLeaf(spec, was, path, cmd, addr, clk);
      } else {
        NoChildUpdated(spec, channel, was, path, cmd, addr, clk);
        UpdateChildren(path, cmd, addr, clk);
        UpdatedInner(spec, was, nodes, path, cmd, addr, clk);
      }
    }

    /** All children of a target are updated: the one on the address's way and its siblings. */
    method UpdateChildren(path: Path, cmd: Command, addr: seq<int>, clk: int)
      requires ValidTree() && path in nodes && AddressOk(spec, addr)
      requires |path| < |spec.count| && path <= addr
      modifies this`nodes
      ensures ValidTree()
      ensures nodes.Keys == old(nodes.Keys)
      ensures UpdatedStrictlyBelow(spec, old(nodes), nodes, path, spec.count[|path|], cmd, addr, clk)
      decreases |spec.count| - |path|, 0
    {
      var i: int := 0;
      NoChildUpdated(spec, channel, nodes, path, cmd, addr, clk);
      while i < spec.count[|path|]
        invariant ValidTree() && 0 <= i <= spec.count[|path|]
        invariant nodes.Keys == old(nodes.Keys)
        invariant UpdatedStrictlyBelow(spec, old(nodes), nodes, path, i, cmd, addr, clk)
      {
        var child := path + [i];
        assert child[..|child| - 1] == path;
        ghost var between := nodes;
        ChildIsNode(spec, channel, nodes, path, i);
        UpdateTiming(child, cmd, addr, clk);
        UpdatedNextChild(spec, old(nodes), between, nodes, path, i, cmd, addr, clk);
        i := i + 1;
      }
    }
  }
}
