/**
 The controller of lab 3 as it runs: accepting requests, and the steps of a tick.
 */
module ControllerTick {
  import R = RowTable
  import opened Common
  import opened RowTable
  import opened Controller

  class ChannelController {
    const readLatency: nat
    const rowtable: R.RowTable
    var clk: int
    /** The queues for reads, writes, promoted requests and others, and the reads waiting for their data. */
    var qs: Queues
    var writeMode: bool
    var uselessActivates: nat
    /** The state of the banks, and the counter `cur_serving_requests` of every node of the DRAM tree. */
    var banks: Banks
    var serving: map<Path, int>
    ghost var issued: seq<Issued>

    ghost function D(): Dram
      reads this`banks, this`uselessActivates, this`issued, rowtable
    {
      Dram(banks, rowtable.table, uselessActivates, issued)
    }

    ghost function C(): Channel
      reads this`qs, this`serving, this`banks, this`uselessActivates, this`issued, rowtable
    {
      Channel(qs, D(), serving)
    }

    ghost predicate Valid()
      reads this`clk, this`qs, this`serving, this`banks, this`uselessActivates, this`issued, rowtable
    {
      readLatency > 1 && ChannelOk(C(), clk)
    }

    /** When a read that accesses its column now has its data. */
    function Due(): int
      reads this`clk
    {
      clk + readLatency
    }

    /** The nodes of the DRAM tree, among them its banks and everything above them. */
    constructor (nodes: set<Path>, banks: set<Path>, readLatency: nat)
      requires readLatency > 1 && forall p :: p in banks ==> |p| == BANK_LEVEL
      requires forall p, k :: p in banks && 0 <= k <= |p| ==> p[..k] in nodes
      ensures Valid() && fresh(rowtable) && this.banks.Keys == banks && this.readLatency == readLatency && clk == 0
      ensures C() == EmptyChannel(nodes, banks) && !writeMode
    {
      hide ChannelOk;
      EmptyOk(nodes, banks);
      var table := new R.RowTable();
      this.readLatency, rowtable := readLatency, table;
      clk, qs := 0, Queues([], [], [], [], [], [], 0);
      writeMode, uselessActivates, issued := false, 0, [];
      this.banks := map p | p in banks :: CLOSED;
      serving := map p | p in nodes :: 0;
    }

    method AddToQueue(kind: Kind, addr: nat, path: Path, row: nat) returns (ok: bool)
      requires !kind.RefreshRequest?
      modifies this`qs
      ensures qs == Accept(old(qs), kind, addr, path, row, clk)
      ensures ok <==> |if kind.WriteRequest? then old(qs.writeq) else old(qs.readq)| != QUEUE_MAX
    {
      var queue := if kind.WriteRequest? then qs.writeq else qs.readq;
      if |queue| == QUEUE_MAX {
        return false;
      }
      var r := Request(qs.accepted, kind, addr, path, row, true, clk, 0);
      qs := qs.(accepted := qs.accepted + 1);
      if kind.WriteRequest? {
        qs := qs.(writeq := qs.writeq + [r]);
      } else if HasAddr(qs.writeq, addr) {
        qs := qs.(pending := qs.pending + [r.(depart := clk + 1)]);
      } else {
        qs := qs.(readq := qs.readq + [r]);
      }
      ok := true;
    }

    /** Accept a read or write. */
    method Enqueue(kind: Kind, addr: nat, path: Path, row: nat) returns (ok: bool)
      requires Valid() && !kind.RefreshRequest? && path in banks
      modifies this`qs
      ensures Valid() && qs == Accept(old(qs), kind, addr, path, row, clk)
      ensures ok <==> |if kind.WriteRequest? then old(qs.writeq) else old(qs.readq)| != QUEUE_MAX
    {
      QueuesAccept(qs, serving, clk, banks.Keys, kind, addr, path, row);
      ok := AddToQueue(kind, addr, path, row);
    }

    method AddRefresh(rank: Path) returns (ok: bool)
      modifies this`qs
      ensures qs == AcceptRefresh(old(qs), rank, clk)
      ensures ok <==> |old(qs.otherq)| != QUEUE_MAX
    {
      if |qs.otherq| == QUEUE_MAX {
        return false;
      }
      qs := qs.(otherq := qs.otherq + [Request(0, RefreshRequest, 0, rank, 0, true, clk, 0)]);
      ok := true;
    }

    /** Count a request in or out, from a node on its path downwards.  No counter gets negative. */
    method UpdateServingRequests(path: Path, level: nat, delta: int)
      requires level <= |path| && (delta == 1 || delta == -1)
      requires forall k :: 0 <= k <= |path| ==> path[..k] in serving
      requires forall p :: p in serving && path[..level] <= p <= path ==> serving[p] + delta >= 0
      modifies this`serving
      ensures serving == Counted(old(serving), path[..level], path, delta)
      decreases |path| - level
    {
      var node := path[..level];
      serving := serving[node := serving[node] + delta];
      assert serving[node] >= 0;
      if level < |path| {
        UpdateServingRequests(path, level + 1, delta);
      }
      CountedDown(old(serving), path, level, delta);
    }

    /** The oldest read is called back when its data have arrived. */
    method ServeCompleted() returns (callbacks: seq<nat>)
      requires CanComplete(serving, qs, clk)
      modifies this`qs, this`serving
      ensures qs == Complete(old(qs), clk) && serving == CompleteServing(old(serving), old(qs), clk)
      ensures qs.called == old(qs.called) + callbacks && |callbacks| <= 1
    {
      callbacks := [];
      if |qs.pending| > 0 && qs.pending[0].depart <= clk {
        callbacks := CallBack();
      }
    }

    method CallBack() returns (callbacks: seq<nat>)
      requires |qs.pending| > 0 && qs.pending[0].depart <= clk && CanComplete(serving, qs, clk)
      modifies this`qs, this`serving
      ensures qs == Complete(old(qs), clk) && serving == CompleteServing(old(serving), old(qs), clk)
      ensures qs.called == old(qs.called) + callbacks && |callbacks| == 1
    {
      var r := qs.pending[0];
      if r.depart - r.arrive > 1 {
        assert r.path[..0] == [];
        UpdateServingRequests(r.path, 0, -1);
      }
      qs := qs.(pending := qs.pending[1..], called := qs.called + [r.id]);
      callbacks := [r.id];
    }

    /** Issue a command that is ready: the channel, the row table, and the statistics follow. */
    method IssueCommand(cmd: Command, path: Path, row: nat, ghost r: Request, ghost timing: Timing)
      requires r.path == path && r.row == row && Agrees(rowtable.table, banks) && Fits(banks, cmd, path, row)
      requires IsReady(timing, cmd, path, row)
      modifies this`banks, this`uselessActivates, this`issued, rowtable
      ensures D() == Issue(old(D()), cmd, r)
    {
      FitsTable(rowtable.table, banks, cmd, path, row);
      ghost var before := banks;
      banks := BanksAfter(banks, cmd, path, row);
      if cmd.Precharge? && rowtable.GetHits(path, row, true) == 0 {
        uselessActivates := uselessActivates + 1;
      }
      rowtable.Update(cmd, path, row, before);
      issued := issued + [IssuedFor(cmd, r)];
    }

    /** Take the request out of its queue or leave it there, as its command demands. */
    method Settle(source: Source, i: nat, cmd: Command)
      requires i < |Queue(qs, source)|
      modifies this`qs
      ensures qs == Advance(old(qs), source, i, cmd, Due())
    {
      var q := Queue(qs, source);
      var r := q[i].(first := false);
      if cmd.Precharge? || cmd.PrechargeAll? {
        qs := WithQueue(qs, source, q[i := r]);
        return;
      }
      qs := WithQueue(qs, source, Without(q, i));
      match cmd {
        case Activate => qs := qs.(actq := qs.actq + [r]);
        case Read => qs := qs.(pending := qs.pending + [r.(depart := Due())]);
        case Write => qs := qs.(called := qs.called + [r.id]);
        case _ =>
      }
    }

    /** Count a read or write when its first command is issued, and a write out when its column is accessed. */
    method Count(r: Request, cmd: Command)
      requires Countable(serving, r)
      modifies this`serving
      ensures serving == CountedAdvance(old(serving), r, cmd)
    {
      assert r.path[..0] == [];
      if r.first {
        UpdateServingRequests(r.path, 0, 1);
      }
      if cmd.Write? {
        UpdateServingRequests(r.path, 0, -1);
      }
    }

    /** Serve a request whose next command is ready: issue it, and settle what becomes of the request. */
    method Serve(source: Source, i: nat, r: Request, ghost timing: Timing)
      requires Servable(qs, D(), serving, source, i) && r == Queue(qs, source)[i]
      requires RequestReady(timing, banks, r)
      modifies this`qs, this`serving, this`banks, this`uselessActivates, this`issued, rowtable
      ensures IsServed(old(qs), old(D()), old(serving), source, i, Due(), qs, D(), serving)
    {
      RunCommand(source, i, r, FirstCommand(r, banks), timing);
    }

    method RunCommand(source: Source, i: nat, r: Request, cmd: Command, ghost timing: Timing)
      requires i < |Queue(qs, source)| && r == Queue(qs, source)[i]
      requires r.kind.RefreshRequest? || Countable(serving, r)
      requires Agrees(rowtable.table, banks) && Fits(banks, cmd, r.path, r.row)
      requires IsReady(timing, cmd, r.path, r.row)
      modifies this`qs, this`serving, this`banks, this`uselessActivates, this`issued, rowtable
      ensures qs == Advance(old(qs), source, i, cmd, Due())
      ensures D() == Issue(old(D()), cmd, r)
      ensures serving == if r.kind.RefreshRequest? then old(serving) else CountedAdvance(old(serving), r, cmd)
    {
      IssueCommand(cmd, r.path, r.row, r, timing);
      if !r.kind.RefreshRequest? {
        Count(r, cmd);
      }
      Settle(source, i, cmd);
    }

    /** Switch between reads and writes. */
    method UpdateWriteMode()
      modifies this`writeMode
      ensures writeMode == NextWriteMode(old(writeMode), qs)
    {
      if !writeMode {
        if |qs.writeq| > HIGH_WATERMARK || |qs.readq| == 0 {
          writeMode := true;
        }
      } else {
        if |qs.writeq| < LOW_WATERMARK && |qs.readq| != 0 {
          writeMode := false;
        }
      }
    }

    /** Issue the next command of the request that has been chosen. */
    method ServeChosen(source: Source, i: nat, r: Request, cmd: Command, ghost timing: Timing)
      requires Valid() && CanServe(qs, source, i)
      requires r == Queue(qs, source)[i] && IsAddressed(r, banks) && cmd == FirstCommand(r, banks)
      requires IsReady(timing, cmd, r.path, r.row)
      modifies this`qs, this`serving, this`banks, this`uselessActivates, this`issued, rowtable
      ensures Valid() && IsScheduled(old(C()), source, i, Due(), C())
      ensures qs == Advance(old(qs), source, i, cmd, Due())
      ensures banks.Keys == old(banks.Keys) && issued == old(issued) + [IssuedFor(cmd, r)]
    {
      ghost var c := C();
      CanServeSo(qs, D(), serving, clk, source, i);
      Serve(source, i, r, timing);
      ServedIsScheduled(c, source, i, Due(), C());
      IsScheduledOk(c, clk, source, i, Due(), C());
      IsScheduledSo(c, clk, source, i, r, cmd, Due(), C());
    }

    method EnqueueRefreshes(ranks: seq<Path>)
      modifies this`qs
      ensures qs == AcceptRefreshes(old(qs), ranks, clk)
    {
      var i := 0;
      assert ranks[..0] == [];
      while i < |ranks|
        invariant 0 <= i <= |ranks| && qs == AcceptRefreshes(old(qs), ranks[..i], clk)
      {
        assert ranks[..i + 1][..i] == ranks[..i];
        var _ := AddRefresh(ranks[i]);
        i := i + 1;
      }
      assert ranks[..i] == ranks;
    }

    method RunBegin(refreshes: seq<Path>) returns (callbacks: seq<nat>)
      requires CanComplete(serving, qs, clk + 1)
      modifies this`clk, this`qs, this`serving
      ensures clk == old(clk) + 1 && C() == Begun(old(C()), old(clk), refreshes)
      ensures |callbacks| <= 1 && old(qs.called) + callbacks == Complete(old(qs), clk).called
    {
      clk := clk + 1;
      callbacks := ServeCompleted();
      EnqueueRefreshes(refreshes);
    }

    /** The begin of a tick: the oldest read with data is called back, and refreshes arrive. */
    method BeginTick(refreshes: seq<Path>) returns (callbacks: seq<nat>)
      requires Valid()
      modifies this`clk, this`qs, this`serving
      ensures Valid() && clk == old(clk) + 1 && C() == TickBegin(old(C()), old(clk), refreshes)
      ensures |callbacks| <= 1 && old(qs.called) + callbacks == Complete(old(qs), clk).called
    {
      ghost var c, now := C(), clk;
      TickBeginOk(c, now, refreshes);
      callbacks := RunBegin(refreshes);
      TickBeginIs(c, now, refreshes, clk, C());
    }
  }

  lemma CountedDown(serving: map<Path, int>, path: Path, level: nat, delta: int)
    requires level <= |path| && forall k :: 0 <= k <= |path| ==> path[..k] in serving
    ensures
      var here := serving[path[..level] := serving[path[..level]] + delta];
      Counted(serving, path[..level], path, delta) ==
        if level == |path| then here else Counted(here, path[..level + 1], path, delta)
  {
    forall p | p in serving
      ensures path[..level] <= p <= path
         <==> p == path[..level] || (level < |path| && path[..level + 1] <= p <= path)
    {
      if path[..level] <= p <= path {
        assert p[..level] == path[..level];
        assert |p| == level ==> p == path[..level];
      }
    }
  }
}
