/**
 The DRAM controller of lab 3 for one DDR4 channel with the default row policy, which closes no row on
 its own: its queues, and what one tick does to them.  Which request a scheduling policy picks in a
 queue, and whether the timing of the channel allows a command now, are inputs: any answer is covered.
 */
module Controller {
  import opened Common
  import opened RowTable

  const QUEUE_MAX: nat := 32
  const HIGH_WATERMARK: nat := 25
  const LOW_WATERMARK: nat := 6

  datatype Kind = ReadRequest | WriteRequest | RefreshRequest

  /** `id` numbers the accepted reads and writes in the order of their arrival.  A refresh is for a rank. */
  datatype Request = Request(
    id: nat, kind: Kind, addr: nat, path: Path, row: nat, first: bool, arrive: int, depart: int)

  /** A command that has been issued, to which node and row, and the request on whose behalf. */
  datatype Issued = Issued(cmd: Command, path: Path, row: nat, id: nat)

  /** Where the requests are.  `called` lists those that have been called back. */
  datatype Queues = Queues(
    readq: seq<Request>, writeq: seq<Request>, actq: seq<Request>, otherq: seq<Request>,
    pending: seq<Request>, called: seq<nat>, accepted: nat)

  /** The channel, the row table, and what has been issued. */
  datatype Dram = Dram(banks: Banks, table: Table, useless: nat, issued: seq<Issued>)

  datatype Source = FromRead | FromWrite | FromAct | FromOther

  function Queue(qs: Queues, source: Source): seq<Request> {
    match source
    case FromRead => qs.readq
    case FromWrite => qs.writeq
    case FromAct => qs.actq
    case FromOther => qs.otherq
  }

  function WithQueue(qs: Queues, source: Source, q: seq<Request>): Queues {
    match source
    case FromRead => qs.(readq := q)
    case FromWrite => qs.(writeq := q)
    case FromAct => qs.(actq := q)
    case FromOther => qs.(otherq := q)
  }

  // ---- accepting requests ----

  predicate HasAddr(q: seq<Request>, addr: nat) {
    exists i :: 0 <= i < |q| && q[i].addr == addr
  }

  /** A read or write for an address arrives.  It is refused when its queue is full; a read of an address
      that a queued write is about to overwrite is answered from that write. */
  function Accept(qs: Queues, kind: Kind, addr: nat, path: Path, row: nat, clk: int): Queues
    requires !kind.RefreshRequest?
  {
    var r := Request(qs.accepted, kind, addr, path, row, true, clk, 0);
    if kind.WriteRequest? then
      if |qs.writeq| == QUEUE_MAX then qs else qs.(writeq := qs.writeq + [r], accepted := qs.accepted + 1)
    else if |qs.readq| == QUEUE_MAX then qs
    else if HasAddr(qs.writeq, addr) then
      qs.(pending := qs.pending + [r.(depart := clk + 1)], accepted := qs.accepted + 1)
    else qs.(readq := qs.readq + [r], accepted := qs.accepted + 1)
  }

  function AcceptRefresh(qs: Queues, rank: Path, clk: int): Queues {
    if |qs.otherq| == QUEUE_MAX then qs
    else qs.(otherq := qs.otherq + [Request(0, RefreshRequest, 0, rank, 0, true, clk, 0)])
  }

  /** The refreshes of some ranks arrive, in turn. */
  function AcceptRefreshes(qs: Queues, ranks: seq<Path>, clk: int): Queues {
    if ranks == [] then qs
    else AcceptRefresh(AcceptRefreshes(qs, ranks[..|ranks| - 1], clk), ranks[|ranks| - 1], clk)
  }

  // ---- serving requests ----

  /** The oldest read that has its data is called back. */
  function Complete(qs: Queues, clk: int): Queues {
    if qs.pending == [] || qs.pending[0].depart > clk then qs else
      qs.(called := qs.called + [qs.pending[0].id], pending := qs.pending[1..])
  }

  function Access(kind: Kind): Command {
    if kind.WriteRequest? then Write else Read
  }

  /** A read or write is for a bank of the channel. */
  predicate IsAddressed(r: Request, banks: Banks) {
    r.kind.RefreshRequest? || r.path in banks
  }

  function FirstCommand(r: Request, banks: Banks): Command
    requires IsAddressed(r, banks)
  {
    if r.kind.RefreshRequest? then FirstForRefresh(banks, r.path)
    else FirstForAccess(banks, r.path, r.row, Access(r.kind))
  }

  function IssuedFor(cmd: Command, r: Request): Issued {
    Issued(cmd, r.path, r.row, r.id)
  }

  /** A command is issued: banks and table change. */
  function Issue(d: Dram, cmd: Command, r: Request): Dram
    requires Agrees(d.table, d.banks) && Fits(d.banks, cmd, r.path, r.row)
  {
    FitsTable(d.table, d.banks, cmd, r.path, r.row);
    Dram(BanksAfter(d.banks, cmd, r.path, r.row),
         TableAfter(d.table, cmd, r.path, r.row),
         if cmd.Precharge? && d.table[r.path].hits == 0 then d.useless + 1 else d.useless,
         d.issued + [IssuedFor(cmd, r)])
  }

  /** What becomes of request i of a queue when a command has been issued for it: an activation promotes
      it, a column access or refresh finishes it, and otherwise it stays.  A read has its data at `depart`. */
  function Advance(qs: Queues, source: Source, i: nat, cmd: Command, depart: int): Queues
    requires i < |Queue(qs, source)|
  {
    var q := Queue(qs, source);
    var r := q[i].(first := false);
    match cmd
    case Activate => var left := WithQueue(qs, source, Without(q, i)); left.(actq := left.actq + [r])
    case Precharge => WithQueue(qs, source, q[i := r])
    case PrechargeAll => WithQueue(qs, source, q[i := r])
    case Refresh => WithQueue(qs, source, Without(q, i))
    case Read => WithQueue(qs, source, Without(q, i)).(pending := qs.pending + [r.(depart := depart)])
    case Write => WithQueue(qs, source, Without(q, i)).(called := qs.called + [r.id])
  }

  /** A timing oracle: can this command go to this node, for this row, now? */
  datatype Timing = Timing(allows: (Command, Path, nat) -> bool)

  predicate IsReady(timing: Timing, cmd: Command, path: Path, row: nat) {
    timing.allows(cmd, path, row)
  }

  /** Is the next command of a request ready? */
  predicate RequestReady(timing: Timing, banks: Banks, r: Request)
    requires IsAddressed(r, banks)
  {
    IsReady(timing, FirstCommand(r, banks), r.path, r.row)
  }

  /** Writes get their turn when many are waiting or no read is, until few are left and reads are waiting. */
  function NextWriteMode(writeMode: bool, qs: Queues): bool {
    if !writeMode then |qs.writeq| > HIGH_WATERMARK || qs.readq == []
    else !(|qs.writeq| < LOW_WATERMARK && qs.readq != [])
  }

  datatype Choice = Idle | Chosen(source: Source, index: nat)

  /** Whose turn it is: the promoted request has the channel for itself; then come refreshes; then reads
      or writes. */
  function Turn(qs: Queues, writeMode: bool): (source: Source)
    ensures source.FromAct? <==> qs.actq != []
    ensures source.FromOther? <==> qs.actq == [] && qs.otherq != []
    ensures source.FromWrite? ==> writeMode
    ensures source.FromRead? ==> !writeMode
  {
    if qs.actq != [] then FromAct
    else if qs.otherq != [] then FromOther
    else if writeMode then FromWrite else FromRead
  }

  /** The request to serve is the policy's pick in the queue whose turn it is, if its next command is
      ready.  A pick outside the queue stands for none. */
  function Choose(qs: Queues, banks: Banks, writeMode: bool, timing: Timing, pick: int): (choice: Choice)
    requires Addressed(qs, banks)
    ensures choice.Chosen? ==>
              && CanServe(qs, choice.source, choice.index)
              && choice.source == Turn(qs, writeMode) && choice.index == pick
              && RequestReady(timing, banks, Queue(qs, choice.source)[choice.index])
    ensures choice.Idle? ==>
              var q := Queue(qs, Turn(qs, writeMode));
              0 <= pick < |q| ==> !RequestReady(timing, banks, q[pick])
  {
    var source := Turn(qs, writeMode);
    var q := Queue(qs, source);
    if 0 <= pick < |q| && RequestReady(timing, banks, q[pick]) then Chosen(source, pick) else Idle
  }

  ghost predicate Addressed(qs: Queues, banks: Banks) {
    forall source, i :: 0 <= i < |Queue(qs, source)| ==> IsAddressed(Queue(qs, source)[i], banks)
  }

  /** The promoted request goes first. */
  ghost predicate CanServe(qs: Queues, source: Source, i: nat) {
    i < |Queue(qs, source)| && (source.FromAct? <==> qs.actq != [])
  }

  // ---- every request is in a queue for its kind ----

  ghost predicate IsFor(r: Request, kind: Kind, accepted: nat, clk: int, nodes: set<Path>) {
    r.kind == kind && r.id < accepted && r.arrive <= clk && r.path in nodes
  }

  ghost predicate AllFor(q: seq<Request>, kind: Kind, accepted: nat, clk: int, nodes: set<Path>) {
    forall i :: 0 <= i < |q| ==> IsFor(q[i], kind, accepted, clk, nodes)
  }

  ghost predicate Typed(qs: Queues, clk: int, nodes: set<Path>) {
    && AllFor(qs.readq, ReadRequest, qs.accepted, clk, nodes)
    && AllFor(qs.writeq, WriteRequest, qs.accepted, clk, nodes)
    && AllFor(qs.pending, ReadRequest, qs.accepted, clk, nodes)
    && |qs.actq| <= 1
    && (AllFor(qs.actq, ReadRequest, qs.accepted, clk, nodes) || AllFor(qs.actq, WriteRequest, qs.accepted, clk, nodes))
    && (forall i :: 0 <= i < |qs.otherq| ==> qs.otherq[i].kind == RefreshRequest && qs.otherq[i].arrive <= clk)
  }

  lemma TypedAddressed(qs: Queues, clk: int, banks: Banks)
    requires Typed(qs, clk, banks.Keys)
    ensures Addressed(qs, banks)
  {
  }

  /** The commands that can be first for a request of a queue. */
  predicate Possible(source: Source, cmd: Command) {
    match source
    case FromRead => cmd.Activate? || cmd.Precharge? || cmd.Read?
    case FromWrite => cmd.Activate? || cmd.Precharge? || cmd.Write?
    case FromAct => cmd.Read? || cmd.Write?
    case FromOther => cmd.PrechargeAll? || cmd.Refresh?
  }

  lemma TypedAdvance(qs: Queues, clk: int, nodes: set<Path>, source: Source, i: nat, cmd: Command, depart: int)
    requires Typed(qs, clk, nodes) && CanServe(qs, source, i) && Possible(source, cmd)
    requires cmd == Access(Queue(qs, source)[i].kind) || !(cmd.Read? || cmd.Write?)
    ensures Typed(Advance(qs, source, i, cmd, depart), clk, nodes)
  {
  }

  // ---- every accepted request is in one queue until its one callback ----

  ghost predicate Has(q: seq<Request>, id: nat) {
    exists i :: 0 <= i < |q| && q[i].id == id
  }

  ghost predicate Present(qs: Queues, id: nat) {
    Has(qs.readq, id) || Has(qs.writeq, id) || Has(qs.actq, id) || Has(qs.pending, id) || id in qs.called
  }

  /** As many places as accepted requests, and each accepted request in one of them. */
  ghost predicate Conserved(qs: Queues) {
    && |qs.readq| + |qs.writeq| + |qs.actq| + |qs.pending| + |qs.called| == qs.accepted
    && forall id :: 0 <= id < qs.accepted ==> Present(qs, id)
  }

  lemma HasMoves(q: seq<Request>, i: nat, id: nat)
    requires i < |q|
    ensures Has(q, id) <==> id == q[i].id || Has(Without(q, i), id)
  {
    var left := Without(q, i);
    if j :| 0 <= j < |q| && q[j].id == id && j != i {
      assert left[if j < i then j else j - 1] == q[j];
    }
    if j :| 0 <= j < |left| && left[j].id == id {
      assert left[j] == q[if j < i then j else j + 1];
    }
  }

  lemma HasPush(q: seq<Request>, r: Request, id: nat)
    ensures Has(q + [r], id) <==> id == r.id || Has(q, id)
  {
    var after := q + [r];
    if Has(q, id) {
      var j :| 0 <= j < |q| && q[j].id == id;
      assert after[j].id == id;
    }
    assert after[|q|] == r;
  }

  lemma HasUpdate(q: seq<Request>, i: nat, r: Request, id: nat)
    requires i < |q| && r.id == q[i].id
    ensures Has(q[i := r], id) <==> Has(q, id)
  {
    var after := q[i := r];
    assert forall j :: 0 <= j < |q| ==> after[j].id == q[j].id;
    if j :| 0 <= j < |q| && q[j].id == id {
      assert after[j].id == id;
    }
  }

  lemma ConservedAdvance(qs: Queues, source: Source, i: nat, cmd: Command, depart: int)
    requires Conserved(qs) && CanServe(qs, source, i) && Possible(source, cmd)
    ensures Conserved(Advance(qs, source, i, cmd, depart))
  {
    var t := Advance(qs, source, i, cmd, depart);
    var q := Queue(qs, source);
    var r := q[i].(first := false);
    forall id | 0 <= id < qs.accepted
      ensures Present(t, id)
    {
      assert Present(qs, id);
      HasMoves(q, i, id);
      HasUpdate(q, i, r, id);
      HasPush(qs.actq, r, id);
      HasPush(qs.pending, r.(depart := depart), id);
    }
  }

  lemma ConservedAccept(qs: Queues, kind: Kind, addr: nat, path: Path, row: nat, clk: int)
    requires Conserved(qs) && !kind.RefreshRequest?
    ensures Conserved(Accept(qs, kind, addr, path, row, clk))
  {
    var t := Accept(qs, kind, addr, path, row, clk);
    var r := Request(qs.accepted, kind, addr, path, row, true, clk, 0);
    forall id | 0 <= id < t.accepted
      ensures Present(t, id)
    {
      assert id < qs.accepted ==> Present(qs, id);
      HasPush(qs.readq, r, id);
      HasPush(qs.writeq, r, id);
      HasPush(qs.pending, r.(depart := clk + 1), id);
    }
  }

  lemma ConservedComplete(qs: Queues, clk: int)
    requires Conserved(qs)
    ensures Conserved(Complete(qs, clk))
  {
    var t := Complete(qs, clk);
    if t != qs {
      assert qs.pending[1..] == Without(qs.pending, 0);
      forall id | 0 <= id < qs.accepted
        ensures Present(t, id)
      {
        assert Present(qs, id);
        HasMoves(qs.pending, 0, id);
      }
    }
  }

  function IdsOf(q: seq<Request>): (ids: seq<nat>)
    ensures |ids| == |q| && forall i :: 0 <= i < |q| ==> ids[i] == q[i].id
  {
    seq(|q|, i requires 0 <= i < |q| => q[i].id)
  }

  /** All places where an accepted request can be. */
  function Places(qs: Queues): seq<nat> {
    IdsOf(qs.readq) + IdsOf(qs.writeq) + IdsOf(qs.actq) + IdsOf(qs.pending) + qs.called
  }

  /** Exactly once: no accepted request is in two places, or called back twice. */
  lemma ExactlyOnce(qs: Queues)
    requires Conserved(qs)
    ensures |Places(qs)| == qs.accepted
    ensures forall i, j :: 0 <= i < j < |Places(qs)| ==> Places(qs)[i] != Places(qs)[j]
    ensures forall id :: 0 <= id < qs.accepted ==> id in Places(qs)
  {
    forall id | 0 <= id < qs.accepted
      ensures id in Places(qs)
    {
      PresentInPlaces(qs, id);
    }
    Pigeonhole(Places(qs), qs.accepted);
  }

  lemma PresentInPlaces(qs: Queues, id: nat)
    requires Present(qs, id)
    ensures id in Places(qs)
  {
    if Has(qs.readq, id) {
      assert id in IdsOf(qs.readq);
    } else if Has(qs.writeq, id) {
      assert id in IdsOf(qs.writeq);
    } else if Has(qs.actq, id) {
      assert id in IdsOf(qs.actq);
    } else if Has(qs.pending, id) {
      assert id in IdsOf(qs.pending);
    }
  }

  // ---- the counters of requests being served ----

  function Counts(r: Request, node: Path): bool {
    !r.first && node <= r.path
  }

  /** How many requests of a queue have been started below a node. */
  function Started(q: seq<Request>, node: Path): nat {
    if q == [] then 0 else
      Started(q[..|q| - 1], node) + if Counts(q[|q| - 1], node) then 1 else 0
  }

  function ReadsFromRow(r: Request): bool {
    r.depart - r.arrive > 1
  }

  /** How many of the reads waiting for their data come from a row below a node. */
  function FromRows(pending: seq<Request>, node: Path): nat {
    if pending == [] then 0 else
      FromRows(pending[..|pending| - 1], node)
      + if ReadsFromRow(pending[|pending| - 1]) && node <= pending[|pending| - 1].path then 1 else 0
  }

  /** The requests that have been started below a node and are not finished. */
  function Served(qs: Queues, node: Path): nat {
    Started(qs.readq, node) + Started(qs.writeq, node) + Started(qs.actq, node) + FromRows(qs.pending, node)
  }

  lemma StartedPush(q: seq<Request>, r: Request, node: Path)
    ensures Started(q + [r], node) == Started(q, node) + if Counts(r, node) then 1 else 0
  {
    assert (q + [r])[..|q|] == q;
  }

  lemma {:induction false} StartedConcat(a: seq<Request>, b: seq<Request>, node: Path)
    ensures Started(a + b, node) == Started(a, node) + Started(b, node)
    decreases |b|
  {
    if b == [] {
      assert a + b == a;
    } else {
      var last := |b| - 1;
      StartedConcat(a, b[..last], node);
      assert (a + b)[..|a| + last] == a + b[..last];
      StartedPush(a + b[..last], b[last], node);
      assert a + b == a + b[..last] + [b[last]];
    }
  }

  lemma StartedAround(q: seq<Request>, i: nat, r: Request, node: Path)
    requires i < |q|
    ensures Started(q[..i] + [r] + q[i + 1..], node) == Started(Without(q, i), node) + if Counts(r, node) then 1 else 0
  {
    StartedConcat(q[..i] + [r], q[i + 1..], node);
    StartedConcat(q[..i], q[i + 1..], node);
    StartedPush(q[..i], r, node);
  }

  lemma StartedWithout(q: seq<Request>, i: nat, node: Path)
    requires i < |q|
    ensures Started(Without(q, i), node) == Started(q, node) - if Counts(q[i], node) then 1 else 0
  {
    StartedAround(q, i, q[i], node);
    assert q[..i] + [q[i]] + q[i + 1..] == q;
  }

  lemma StartedUpdate(q: seq<Request>, i: nat, r: Request, node: Path)
    requires i < |q|
    ensures Started(q[i := r], node)
         == Started(q, node) - (if Counts(q[i], node) then 1 else 0) + if Counts(r, node) then 1 else 0
  {
    StartedAround(q, i, r, node);
    StartedWithout(q, i, node);
    assert q[..i] + [r] + q[i + 1..] == q[i := r];
  }

  lemma FromRowsPush(pending: seq<Request>, r: Request, node: Path)
    ensures FromRows(pending + [r], node)
         == FromRows(pending, node) + if ReadsFromRow(r) && node <= r.path then 1 else 0
  {
    assert (pending + [r])[..|pending|] == pending;
  }

  lemma {:induction false} FromRowsPop(pending: seq<Request>, node: Path)
    requires pending != []
    ensures FromRows(pending[1..], node)
         == FromRows(pending, node) - if ReadsFromRow(pending[0]) && node <= pending[0].path then 1 else 0
  {
    var last := |pending| - 1;
    if last > 0 {
      FromRowsPop(pending[..last], node);
      assert pending[1..][..last - 1] == pending[..last][1..];
    } else {
      assert pending[..last] == [] && pending[1..] == [];
    }
  }

  lemma ServedStay(qs: Queues, source: Source, i: nat, r: Request, node: Path)
    requires i < |Queue(qs, source)| && !r.first && r.path == Queue(qs, source)[i].path
    ensures
      var q := Queue(qs, source);
      Served(WithQueue(qs, source, q[i := r]), node) ==
        if source.FromOther? || !q[i].first || !(node <= r.path) then Served(qs, node) else Served(qs, node) + 1
  {
    var q := Queue(qs, source);
    ServedWith(qs, source, q[i := r], node);
    StartedUpdate(q, i, r, node);
  }

  lemma ServedLeave(qs: Queues, source: Source, i: nat, node: Path)
    requires i < |Queue(qs, source)|
    ensures
      var q := Queue(qs, source);
      Served(WithQueue(qs, source, Without(q, i)), node) ==
        if source.FromOther? || q[i].first || !(node <= q[i].path) then Served(qs, node) else Served(qs, node) - 1
  {
    var q := Queue(qs, source);
    ServedWith(qs, source, Without(q, i), node);
    StartedWithout(q, i, node);
  }

  lemma ServedWith(qs: Queues, source: Source, q: seq<Request>, node: Path)
    ensures Served(WithQueue(qs, source, q), node) ==
      if source.FromOther? then Served(qs, node)
      else Served(qs, node) - Started(Queue(qs, source), node) + Started(q, node)
  {
  }

  /** A command counts its request as being served when it is the first, and finishes a write at once. */
  lemma ServedAdvance(qs: Queues, source: Source, i: nat, cmd: Command, depart: int, node: Path)
    requires CanServe(qs, source, i) && Possible(source, cmd)
    requires cmd.Read? ==> depart - Queue(qs, source)[i].arrive > 1
    ensures
      var r := Queue(qs, source)[i];
      Served(Advance(qs, source, i, cmd, depart), node) ==
        if source.FromOther? || !(node <= r.path) then Served(qs, node)
        else Served(qs, node) + (if r.first then 1 else 0) - if cmd.Write? then 1 else 0
  {
    var r := Queue(qs, source)[i].(first := false);
    if cmd.Precharge? || cmd.PrechargeAll? {
      ServedStay(qs, source, i, r, node);
    } else {
      ServedLeave(qs, source, i, node);
      var left := WithQueue(qs, source, Without(Queue(qs, source), i));
      if cmd.Activate? {
        StartedPush(left.actq, r, node);
      } else if cmd.Read? {
        FromRowsPush(qs.pending, r.(depart := depart), node);
      }
    }
  }

  lemma ServedComplete(qs: Queues, clk: int, node: Path)
    requires qs.pending != [] && qs.pending[0].depart <= clk
    ensures Served(Complete(qs, clk), node)
         == Served(qs, node) - if ReadsFromRow(qs.pending[0]) && node <= qs.pending[0].path then 1 else 0
  {
    FromRowsPop(qs.pending, node);
  }

  lemma ServedAccept(qs: Queues, kind: Kind, addr: nat, path: Path, row: nat, clk: int, node: Path)
    requires !kind.RefreshRequest?
    ensures Served(Accept(qs, kind, addr, path, row, clk), node) == Served(qs, node)
  {
    var t := Accept(qs, kind, addr, path, row, clk);
    var r := Request(qs.accepted, kind, addr, path, row, true, clk, 0);
    assert t.actq == qs.actq;
    assert Started(t.readq, node) == Started(qs.readq, node) by {
      StartedPush(qs.readq, r, node);
    }
    assert Started(t.writeq, node) == Started(qs.writeq, node) by {
      StartedPush(qs.writeq, r, node);
    }
    assert FromRows(t.pending, node) == FromRows(qs.pending, node) by {
      FromRowsPush(qs.pending, r.(depart := clk + 1), node);
    }
  }

  // ---- reads after writes ----

  /** A read that waits, or has been promoted, is older than every waiting write to its address. */
  ghost predicate Ordered(qs: Queues) {
    && (forall i, j :: 0 <= i < |qs.readq| && 0 <= j < |qs.writeq| && qs.readq[i].addr == qs.writeq[j].addr ==>
          qs.readq[i].id < qs.writeq[j].id)
    && (forall i, j :: 0 <= i < |qs.actq| && 0 <= j < |qs.writeq| && qs.actq[i].addr == qs.writeq[j].addr ==>
          qs.actq[i].kind.WriteRequest? || qs.actq[i].id < qs.writeq[j].id)
  }

  lemma OrderedAccept(qs: Queues, kind: Kind, addr: nat, path: Path, row: nat, clk: int, nodes: set<Path>)
    requires Ordered(qs) && Typed(qs, clk, nodes) && !kind.RefreshRequest?
    ensures Ordered(Accept(qs, kind, addr, path, row, clk))
  {
  }

  lemma OrderedAdvance(qs: Queues, clk: int, nodes: set<Path>, source: Source, i: nat, cmd: Command, depart: int)
    requires Ordered(qs) && Typed(qs, clk, nodes) && CanServe(qs, source, i) && Possible(source, cmd)
    ensures Ordered(Advance(qs, source, i, cmd, depart))
  {
    var q := Queue(qs, source);
    assert forall j :: 0 <= j < |q| - 1 ==> Without(q, i)[j] == q[if j < i then j else j + 1];
  }

  /** When the column of a read is accessed, no older write to its address is still waiting. */
  lemma ReadsAfterWrites(qs: Queues, clk: int, nodes: set<Path>, source: Source, i: nat)
    requires Ordered(qs) && Typed(qs, clk, nodes) && CanServe(qs, source, i)
    requires Queue(qs, source)[i].kind.ReadRequest?
    ensures
      var r := Queue(qs, source)[i];
      && (forall j :: 0 <= j < |qs.writeq| && qs.writeq[j].addr == r.addr ==> qs.writeq[j].id > r.id)
      && (forall j :: 0 <= j < |qs.actq| ==> !qs.actq[j].kind.WriteRequest?)
  {
  }

  // ---- arrivals ----

  ghost predicate InArrivalOrder(q: seq<Request>) {
    forall i, j :: 0 <= i < j < |q| ==> q[i].arrive <= q[j].arrive
  }

  /** The queues from which a policy picks are in the order of arrival. */
  ghost predicate Sorted(qs: Queues) {
    InArrivalOrder(qs.readq) && InArrivalOrder(qs.writeq) && InArrivalOrder(qs.otherq)
  }

  lemma SortedAccept(qs: Queues, kind: Kind, addr: nat, path: Path, row: nat, clk: int, nodes: set<Path>)
    requires Sorted(qs) && Typed(qs, clk, nodes) && !kind.RefreshRequest?
    ensures Sorted(Accept(qs, kind, addr, path, row, clk))
  {
  }

  lemma SortedAcceptRefresh(qs: Queues, rank: Path, clk: int, nodes: set<Path>)
    requires Sorted(qs) && Typed(qs, clk, nodes)
    ensures Sorted(AcceptRefresh(qs, rank, clk))
  {
  }

  lemma SortedAdvance(qs: Queues, source: Source, i: nat, cmd: Command, depart: int)
    requires Sorted(qs) && CanServe(qs, source, i)
    ensures Sorted(Advance(qs, source, i, cmd, depart))
  {
    var q := Queue(qs, source);
    assert forall j :: 0 <= j < |q| - 1 ==> Without(q, i)[j] == q[if j < i then j else j + 1];
  }

  // ---- rows ----

  /** The row of the promoted request is open, and every other open row has been accessed. */
  ghost predicate HitsOk(table: Table, actq: seq<Request>) {
    && (forall i :: 0 <= i < |actq| ==> actq[i].path in table && table[actq[i].path].row == actq[i].row)
    && (forall p :: p in table ==> table[p].hits > 0 || (|actq| == 1 && actq[0].path == p))
  }

  /** The table agrees with the banks, and no activation was useless. */
  ghost predicate RowsOk(d: Dram, actq: seq<Request>) {
    Agrees(d.table, d.banks) && HitsOk(d.table, actq) && d.useless == 0
  }

  /** The first command of the request that is served, for each queue. */
  lemma FirstIsPossible(qs: Queues, d: Dram, clk: int, source: Source, i: nat)
    requires Typed(qs, clk, d.banks.Keys) && RowsOk(d, qs.actq) && CanServe(qs, source, i)
    ensures
      var r := Queue(qs, source)[i];
      && IsAddressed(r, d.banks)
      && var cmd := FirstCommand(r, d.banks);
      && Possible(source, cmd) && Fits(d.banks, cmd, r.path, r.row)
      && (cmd.Read? || cmd.Write? ==> cmd == Access(r.kind))
  {
    var r := Queue(qs, source)[i];
    FirstFits(d.banks, r.path, r.row, Access(r.kind));
  }

  /** What a command for request `r` makes of the promoted requests. */
  function ActqAfter(actq: seq<Request>, cmd: Command, r: Request): seq<Request> {
    if cmd.Activate? then [r.(first := false)] else if IsAccessing(cmd) then [] else actq
  }

  lemma ActqAdvance(qs: Queues, clk: int, nodes: set<Path>, source: Source, i: nat, cmd: Command, depart: int)
    requires Typed(qs, clk, nodes) && CanServe(qs, source, i) && Possible(source, cmd)
    ensures Advance(qs, source, i, cmd, depart).actq == ActqAfter(qs.actq, cmd, Queue(qs, source)[i])
    ensures qs.actq == if IsAccessing(cmd) && source.FromAct? then [Queue(qs, source)[i]] else []
  {
  }

  lemma HitsAfter(table: Table, banks: Banks, actq: seq<Request>, cmd: Command, r: Request)
    requires Agrees(table, banks) && Fits(banks, cmd, r.path, r.row) && HitsOk(table, actq)
    requires actq == [] || (IsAccessing(cmd) && actq == [r])
    requires IsAccessing(cmd) ==> r.path in table
    ensures HitsOk(TableAfter(table, cmd, r.path, r.row), ActqAfter(actq, cmd, r))
    ensures cmd.Precharge? ==> r.path in table && table[r.path].hits > 0
  {
    FitsTable(table, banks, cmd, r.path, r.row);
  }

  lemma RowsAdvance(qs: Queues, d: Dram, clk: int, source: Source, i: nat, cmd: Command, depart: int)
    requires Typed(qs, clk, d.banks.Keys) && RowsOk(d, qs.actq) && CanServe(qs, source, i) && Possible(source, cmd)
    requires Fits(d.banks, cmd, Queue(qs, source)[i].path, Queue(qs, source)[i].row)
    requires !source.FromOther? ==> Queue(qs, source)[i].path in d.banks
    ensures RowsOk(Issue(d, cmd, Queue(qs, source)[i]), Advance(qs, source, i, cmd, depart).actq)
  {
    var r := Queue(qs, source)[i];
    AgreesAfter(d.table, d.banks, cmd, r.path, r.row);
    ActqAdvance(qs, clk, d.banks.Keys, source, i, cmd, depart);
    HitsAfter(d.table, d.banks, qs.actq, cmd, r);
  }

  // ---- the order of the commands ----

  /** `a` is an access on behalf of the request that `b` was issued for. */
  predicate IsAccessFor(a: Issued, b: Issued) {
    IsAccessing(a.cmd) && a.id == b.id && a.path == b.path && a.row == b.row
  }

  /** Every activation is followed by the column access of the same request; only the last command can be
      an activation whose request is still to be served. */
  ghost predicate Alternates(issued: seq<Issued>, actq: seq<Request>) {
    && (forall k, l :: 0 <= k < |issued| && l == k + 1 < |issued| && issued[k].cmd.Activate? ==>
          IsAccessFor(issued[l], issued[k]))
    && (actq != [] <==> issued != [] && issued[|issued| - 1].cmd.Activate?)
    && (actq != [] ==> issued[|issued| - 1] == IssuedFor(Activate, actq[0]))
  }

  lemma AlternatesAdvance(qs: Queues, issued: seq<Issued>, clk: int, nodes: set<Path>,
                          source: Source, i: nat, cmd: Command, depart: int)
    requires Typed(qs, clk, nodes) && CanServe(qs, source, i) && Possible(source, cmd)
    requires Alternates(issued, qs.actq)
    ensures Alternates(issued + [IssuedFor(cmd, Queue(qs, source)[i])], Advance(qs, source, i, cmd, depart).actq)
  {
  }

  // ---- counting ----

  /** The counters of the nodes from `top` down to a bank change by delta. */
  function Counted(serving: map<Path, int>, top: Path, path: Path, delta: int): map<Path, int> {
    map p | p in serving :: if top <= p <= path then serving[p] + delta else serving[p]
  }

  ghost predicate ServingOk(serving: map<Path, int>, qs: Queues) {
    forall p :: p in serving ==> serving[p] == Served(qs, p)
  }

  /** There is a counter for every node on the way to a bank. */
  ghost predicate HasNodes(serving: map<Path, int>, nodes: set<Path>) {
    forall p, k :: p in nodes && 0 <= k <= |p| ==> p[..k] in serving
  }

  lemma ServingComplete(serving: map<Path, int>, qs: Queues, clk: int)
    requires ServingOk(serving, qs) && qs.pending != [] && qs.pending[0].depart <= clk
    ensures
      var r := qs.pending[0];
      && (ReadsFromRow(r) ==> forall p :: p in serving && p <= r.path ==> serving[p] > 0)
      && ServingOk(if ReadsFromRow(r) then Counted(serving, [], r.path, -1) else serving, Complete(qs, clk))
  {
    forall p | p in serving
      ensures Served(Complete(qs, clk), p)
           == Served(qs, p) - if ReadsFromRow(qs.pending[0]) && p <= qs.pending[0].path then 1 else 0
    {
      ServedComplete(qs, clk, p);
    }
  }

  /** The counters after a command for a read or write: plus one for its first, minus one for a write that
      is finished. */
  function CountedAdvance(serving: map<Path, int>, r: Request, cmd: Command): map<Path, int> {
    var started := if r.first then Counted(serving, [], r.path, 1) else serving;
    if cmd.Write? then Counted(started, [], r.path, -1) else started
  }

  lemma ServingAdvance(serving: map<Path, int>, qs: Queues, source: Source, i: nat, cmd: Command, depart: int)
    requires ServingOk(serving, qs) && CanServe(qs, source, i) && Possible(source, cmd)
    requires cmd.Read? ==> depart - Queue(qs, source)[i].arrive > 1
    ensures
      var r := Queue(qs, source)[i];
      ServingOk(if source.FromOther? then serving else CountedAdvance(serving, r, cmd),
                Advance(qs, source, i, cmd, depart))
  {
    forall p | p in serving
    {
      ServedAdvance(qs, source, i, cmd, depart, p);
    }
  }

  lemma ServingAccept(serving: map<Path, int>, qs: Queues, kind: Kind, addr: nat, path: Path, row: nat, clk: int)
    requires ServingOk(serving, qs) && !kind.RefreshRequest?
    ensures ServingOk(serving, Accept(qs, kind, addr, path, row, clk))
  {
    forall p | p in serving
    {
      ServedAccept(qs, kind, addr, path, row, clk, p);
    }
  }

  // ---- what the banks have been used for ----

  /** No row of a bank is open, or one is that has been accessed so often since it was opened. */
  datatype Use = Unused | Used(row: nat, accesses: nat)

  /** What the issued commands have left of a bank, given by rank, bank group and bank: an activate opens a row,
      accesses count, and a precharge of the bank or of its rank closes the row. */
  function UseOf(issued: seq<Issued>, bank: Path): Use
    requires |bank| == 3
  {
    if issued == [] then Unused else
      var last, before := issued[|issued| - 1], UseOf(issued[..|issued| - 1], bank);
      match last.cmd
      case Activate => if last.path == bank then Used(last.row, 0) else before
      case Precharge => if last.path == bank then Unused else before
      case PrechargeAll => if last.path == [bank[0]] then Unused else before
      case Refresh => before
      case _ => if last.path == bank && before.Used? then before.(accesses := before.accesses + 1) else before
  }

  /** The banks and the row table say so, too. */
  ghost predicate ShowsUse(table: Table, banks: Banks, p: Path, use: Use)
    requires p in banks
  {
    match use
    case Unused => p !in table && banks[p] == BankState(false, {})
    case Used(row, accesses) => p in table && table[p] == Entry(row, accesses) && banks[p] == BankState(true, {row})
  }

  ghost predicate RecordsUse(d: Dram) {
    forall p :: p in d.banks ==> |p| == 3 && ShowsUse(d.table, d.banks, p, UseOf(d.issued, p))
  }

  lemma UseIssued(issued: seq<Issued>, i: Issued, bank: Path)
    requires |bank| == 3
    ensures
      var before := UseOf(issued, bank);
      UseOf(issued + [i], bank) ==
        if i.cmd.Activate? && i.path == bank then Used(i.row, 0)
        else if i.cmd.Precharge? && i.path == bank then Unused
        else if i.cmd.PrechargeAll? && i.path == [bank[0]] then Unused
        else if (i.cmd.Read? || i.cmd.Write?) && i.path == bank && before.Used? then
          before.(accesses := before.accesses + 1)
        else before
  {
    assert (issued + [i])[..|issued|] == issued;
  }

  lemma RankIs(bank: Path, rank: Path)
    requires |bank| == 3
    ensures Prefix(bank, RANK_LEVEL) == rank <==> rank == [bank[0]]
  {
    assert bank[..1] == [bank[0]];
  }

  /** A command that fits keeps the record of what each bank has been used for. */
  lemma UseAdvance(d: Dram, cmd: Command, r: Request)
    requires Agrees(d.table, d.banks) && Fits(d.banks, cmd, r.path, r.row) && RecordsUse(d)
    ensures RecordsUse(Issue(d, cmd, r))
  {
    var t := Issue(d, cmd, r);
    FitsTable(d.table, d.banks, cmd, r.path, r.row);
    forall p | p in t.banks
      ensures |p| == 3 && ShowsUse(t.table, t.banks, p, UseOf(t.issued, p))
    {
      assert p in d.banks;
      UseIssued(d.issued, IssuedFor(cmd, r), p);
      RankIs(p, r.path);
      assert ShowsUse(d.table, d.banks, p, UseOf(d.issued, p));
      hide UseOf;
    }
  }

  /** The first command of an access: activate in an unused bank, the access itself if its row is open, and else
      precharge. */
  lemma FirstForUse(d: Dram, p: Path, row: nat, access: Command)
    requires RecordsUse(d) && p in d.banks
    ensures FirstForAccess(d.banks, p, row, access) ==
              match UseOf(d.issued, p)
              case Unused => Activate
              case Used(open, _) => if open == row then access else Precharge
  {
  }

  /** The refresh of a rank comes first exactly if all its banks are unused. */
  lemma RefreshForUse(d: Dram, rank: nat)
    requires RecordsUse(d)
    ensures FirstForRefresh(d.banks, [rank]) ==
              if forall p :: p in d.banks && p[0] == rank ==> UseOf(d.issued, p).Unused? then Refresh
              else PrechargeAll
  {
    forall p | p in d.banks
      ensures d.banks[p].isOpen <==> UseOf(d.issued, p).Used?
      ensures Prefix(p, RANK_LEVEL) == [rank] <==> p[0] == rank
    {
      RankIs(p, [rank]);
    }
  }

  /** How often the row table says that a row, or whatever row is open, has been accessed. */
  lemma HitsForUse(d: Dram, p: Path, row: nat)
    requires RecordsUse(d) && p in d.banks
    ensures
      var use := UseOf(d.issued, p);
      && HitsOf(d.table, p, row, true) == (if use.Used? then use.accesses else 0)
      && HitsOf(d.table, p, row, false) == (if use.Used? && use.row == row then use.accesses else 0)
  {
  }

  // ---- all invariants together ----

  ghost predicate QueuesOk(qs: Queues, serving: map<Path, int>, clk: int, nodes: set<Path>) {
    && Typed(qs, clk, nodes)
    && Conserved(qs)
    && Ordered(qs)
    && Sorted(qs)
    && ServingOk(serving, qs)
    && HasNodes(serving, nodes)
  }

  ghost predicate DramOk(d: Dram, actq: seq<Request>) {
    RowsOk(d, actq) && Alternates(d.issued, actq) && RecordsUse(d)
  }

  lemma QueuesAccept(qs: Queues, serving: map<Path, int>, clk: int, nodes: set<Path>,
                     kind: Kind, addr: nat, path: Path, row: nat)
    requires QueuesOk(qs, serving, clk, nodes) && !kind.RefreshRequest? && path in nodes
    ensures QueuesOk(Accept(qs, kind, addr, path, row, clk), serving, clk, nodes)
    ensures Accept(qs, kind, addr, path, row, clk).actq == qs.actq
  {
    var qsNow := Accept(qs, kind, addr, path, row, clk);
    TypedAccept(qs, kind, addr, path, row, clk, nodes);
    assert Conserved(qsNow) by {
      ConservedAccept(qs, kind, addr, path, row, clk);
    }
    assert Ordered(qsNow) by {
      OrderedAccept(qs, kind, addr, path, row, clk, nodes);
    }
    assert Sorted(qsNow) by {
      SortedAccept(qs, kind, addr, path, row, clk, nodes);
    }
    assert ServingOk(serving, qsNow) by {
      ServingAccept(serving, qs, kind, addr, path, row, clk);
    }
  }

  lemma TypedAccept(qs: Queues, kind: Kind, addr: nat, path: Path, row: nat, clk: int, nodes: set<Path>)
    requires Typed(qs, clk, nodes) && !kind.RefreshRequest? && path in nodes
    ensures Typed(Accept(qs, kind, addr, path, row, clk), clk, nodes)
    ensures Accept(qs, kind, addr, path, row, clk).actq == qs.actq
  {
  }

  lemma QueuesAcceptRefresh(qs: Queues, serving: map<Path, int>, clk: int, nodes: set<Path>, rank: Path)
    requires QueuesOk(qs, serving, clk, nodes)
    ensures QueuesOk(AcceptRefresh(qs, rank, clk), serving, clk, nodes)
  {
    SortedAcceptRefresh(qs, rank, clk, nodes);
    forall id | 0 <= id < qs.accepted
      ensures Present(AcceptRefresh(qs, rank, clk), id)
    {
      assert Present(qs, id);
    }
  }

  lemma QueuesClock(qs: Queues, serving: map<Path, int>, clk: int, nodes: set<Path>)
    requires QueuesOk(qs, serving, clk, nodes)
    ensures QueuesOk(qs, serving, clk + 1, nodes)
  {
  }

  lemma QueuesComplete(qs: Queues, serving: map<Path, int>, clk: int, nodes: set<Path>)
    requires QueuesOk(qs, serving, clk, nodes) && qs.pending != [] && qs.pending[0].depart <= clk
    ensures
      var r := qs.pending[0];
      QueuesOk(Complete(qs, clk), if ReadsFromRow(r) then Counted(serving, [], r.path, -1) else serving, clk, nodes)
  {
    assert Conserved(Complete(qs, clk)) by {
      ConservedComplete(qs, clk);
    }
    ServingComplete(serving, qs, clk);
  }

  lemma SameBanks(banks: Banks, cmd: Command, path: Path, row: nat)
    requires Fits(banks, cmd, path, row)
    ensures BanksAfter(banks, cmd, path, row).Keys == banks.Keys
  {
  }

  lemma QueuesServe(qs: Queues, serving: map<Path, int>, clk: int, nodes: set<Path>,
                    source: Source, i: nat, cmd: Command, depart: int)
    requires QueuesOk(qs, serving, clk, nodes) && CanServe(qs, source, i) && Possible(source, cmd) && depart > clk + 1
    requires cmd == Access(Queue(qs, source)[i].kind) || !(cmd.Read? || cmd.Write?)
    ensures
      QueuesOk(Advance(qs, source, i, cmd, depart),
               if source.FromOther? then serving else CountedAdvance(serving, Queue(qs, source)[i], cmd), clk, nodes)
  {
    var qsNow := Advance(qs, source, i, cmd, depart);
    assert Typed(qsNow, clk, nodes) by {
      TypedAdvance(qs, clk, nodes, source, i, cmd, depart);
    }
    assert Conserved(qsNow) by {
      ConservedAdvance(qs, source, i, cmd, depart);
    }
    assert Ordered(qsNow) by {
      OrderedAdvance(qs, clk, nodes, source, i, cmd, depart);
    }
    assert Sorted(qsNow) by {
      SortedAdvance(qs, source, i, cmd, depart);
    }
    ServeArrived(qs, clk, nodes, source, i, cmd);
    ServingAdvance(serving, qs, source, i, cmd, depart);
  }

  lemma DramServe(qs: Queues, d: Dram, clk: int, source: Source, i: nat, cmd: Command, depart: int)
    requires Typed(qs, clk, d.banks.Keys) && DramOk(d, qs.actq) && CanServe(qs, source, i) && Possible(source, cmd)
    requires Fits(d.banks, cmd, Queue(qs, source)[i].path, Queue(qs, source)[i].row)
    requires !source.FromOther? ==> Queue(qs, source)[i].path in d.banks
    ensures DramOk(Issue(d, cmd, Queue(qs, source)[i]), Advance(qs, source, i, cmd, depart).actq)
    ensures Issue(d, cmd, Queue(qs, source)[i]).banks.Keys == d.banks.Keys
  {
    var r := Queue(qs, source)[i];
    SameBanks(d.banks, cmd, r.path, r.row);
    assert RowsOk(Issue(d, cmd, r), Advance(qs, source, i, cmd, depart).actq) by {
      RowsAdvance(qs, d, clk, source, i, cmd, depart);
    }
    AlternatesAdvance(qs, d.issued, clk, d.banks.Keys, source, i, cmd, depart);
    UseAdvance(d, cmd, r);
  }

  lemma ServeArrived(qs: Queues, clk: int, nodes: set<Path>, source: Source, i: nat, cmd: Command)
    requires Typed(qs, clk, nodes) && CanServe(qs, source, i) && Possible(source, cmd)
    ensures cmd.Read? ==> Queue(qs, source)[i].arrive <= clk
  {
  }

  /** What serving a request relies on: its command fits, and no counter is going to be negative. */
  ghost predicate Servable(qs: Queues, d: Dram, serving: map<Path, int>, source: Source, i: nat) {
    && i < |Queue(qs, source)|
    && var r := Queue(qs, source)[i];
    && IsAddressed(r, d.banks)
    && (r.kind.RefreshRequest? <==> source.FromOther?)
    && Agrees(d.table, d.banks) && Fits(d.banks, FirstCommand(r, d.banks), r.path, r.row)
    && (source.FromOther? || Countable(serving, r))
  }

  ghost predicate Countable(serving: map<Path, int>, r: Request) {
    && (forall k :: 0 <= k <= |r.path| ==> r.path[..k] in serving)
    && (forall p :: p in serving ==> serving[p] >= 0)
    && (forall p :: p in serving && p <= r.path ==> serving[p] + (if r.first then 1 else 0) > 0)
  }

  ghost function NextQueues(qs: Queues, d: Dram, serving: map<Path, int>, source: Source, i: nat, depart: int): Queues
    requires Servable(qs, d, serving, source, i)
  {
    Advance(qs, source, i, FirstCommand(Queue(qs, source)[i], d.banks), depart)
  }

  ghost function NextDram(qs: Queues, d: Dram, serving: map<Path, int>, source: Source, i: nat): Dram
    requires Servable(qs, d, serving, source, i)
  {
    Issue(d, FirstCommand(Queue(qs, source)[i], d.banks), Queue(qs, source)[i])
  }

  ghost function NextServing(qs: Queues, d: Dram, serving: map<Path, int>, source: Source, i: nat): map<Path, int>
    requires Servable(qs, d, serving, source, i)
  {
    if source.FromOther? then serving
    else CountedAdvance(serving, Queue(qs, source)[i], FirstCommand(Queue(qs, source)[i], d.banks))
  }

  /** A request in a queue that has been started is counted. */
  lemma StartedInQueue(qs: Queues, serving: map<Path, int>, nodes: set<Path>, source: Source, i: nat)
    requires ServingOk(serving, qs) && i < |Queue(qs, source)| && !source.FromOther?
    requires HasNodes(serving, nodes) && Queue(qs, source)[i].path in nodes
    ensures Countable(serving, Queue(qs, source)[i])
  {
    var r := Queue(qs, source)[i];
    forall p | p in serving && p <= r.path
      ensures serving[p] + (if r.first then 1 else 0) > 0
    {
      StartedWithout(Queue(qs, source), i, p);
    }
  }

  /** One request is served, and so the queues, the channel and the counters change. */
  ghost predicate IsServed(qs: Queues, d: Dram, serving: map<Path, int>, source: Source, i: nat, depart: int,
                           qsNow: Queues, dNow: Dram, servingNow: map<Path, int>) {
    && Servable(qs, d, serving, source, i)
    && qsNow == NextQueues(qs, d, serving, source, i, depart)
    && dNow == NextDram(qs, d, serving, source, i)
    && servingNow == NextServing(qs, d, serving, source, i)
  }

  // ---- a whole tick ----

  /** All that a tick changes, but the clock and the write mode. */
  datatype Channel = Channel(qs: Queues, dram: Dram, serving: map<Path, int>)

  /** Nothing has arrived yet, and all banks are closed. */
  function EmptyChannel(nodes: set<Path>, banks: set<Path>): Channel {
    Channel(Queues([], [], [], [], [], [], 0), Dram(map p | p in banks :: CLOSED, map[], 0, []),
            map p | p in nodes :: 0)
  }

  ghost predicate ChannelOk(c: Channel, clk: int) {
    var Channel(qs, dram, serving) := c;
    QueuesOk(qs, serving, clk, dram.banks.Keys) && DramOk(dram, qs.actq)
  }

  lemma EmptyOk(nodes: set<Path>, banks: set<Path>)
    requires forall p :: p in banks ==> |p| == BANK_LEVEL
    requires forall p, k :: p in banks && 0 <= k <= |p| ==> p[..k] in nodes
    ensures ChannelOk(EmptyChannel(nodes, banks), 0)
  {
  }

  ghost predicate Schedulable(c: Channel, choice: Choice) {
    var Channel(qs, dram, serving) := c;
    choice.Chosen? ==> Servable(qs, dram, serving, choice.source, choice.index)
  }

  /** What the choice of a tick leads to. */
  ghost function Scheduled(c: Channel, choice: Choice, depart: int): Channel
    requires Schedulable(c, choice)
  {
    match choice
    case Idle => c
    case Chosen(source, i) =>
      Channel(NextQueues(c.qs, c.dram, c.serving, source, i, depart),
              NextDram(c.qs, c.dram, c.serving, source, i),
              NextServing(c.qs, c.dram, c.serving, source, i))
  }

  /** Whatever can be served is servable, and serving it keeps all invariants. */
  lemma CanServeSo(qs: Queues, d: Dram, serving: map<Path, int>, clk: int, source: Source, i: nat)
    requires QueuesOk(qs, serving, clk, d.banks.Keys) && DramOk(d, qs.actq) && CanServe(qs, source, i)
    ensures Servable(qs, d, serving, source, i)
  {
    FirstIsPossible(qs, d, clk, source, i);
    if !source.FromOther? {
      StartedInQueue(qs, serving, d.banks.Keys, source, i);
    }
  }

  lemma ServeKeeps(qs: Queues, d: Dram, serving: map<Path, int>, clk: int, source: Source, i: nat, depart: int,
                   qsNow: Queues, dNow: Dram, servingNow: map<Path, int>)
    requires QueuesOk(qs, serving, clk, d.banks.Keys) && DramOk(d, qs.actq) && CanServe(qs, source, i)
    requires depart > clk + 1
    requires IsServed(qs, d, serving, source, i, depart, qsNow, dNow, servingNow)
    ensures QueuesOk(qsNow, servingNow, clk, dNow.banks.Keys) && DramOk(dNow, qsNow.actq)
  {
    FirstIsPossible(qs, d, clk, source, i);
    var cmd := FirstCommand(Queue(qs, source)[i], d.banks);
    DramServe(qs, d, clk, source, i, cmd, depart);
    QueuesServe(qs, serving, clk, d.banks.Keys, source, i, cmd, depart);
  }

  lemma ChoiceIsSchedulable(c: Channel, clk: int, choice: Choice)
    requires ChannelOk(c, clk) && (choice.Chosen? ==> CanServe(c.qs, choice.source, choice.index))
    ensures Schedulable(c, choice)
  {
    if choice.Chosen? {
      CanServeSo(c.qs, c.dram, c.serving, clk, choice.source, choice.index);
    }
  }

  /** What is chosen can be scheduled. */
  ghost function NextChoice(c: Channel, clk: int, writeMode: bool, timing: Timing, pick: int): (choice: Choice)
    requires ChannelOk(c, clk)
    ensures Addressed(c.qs, c.dram.banks) && Schedulable(c, choice)
    ensures choice == Choose(c.qs, c.dram.banks, writeMode, timing, pick)
    ensures choice.Chosen? ==> CanServe(c.qs, choice.source, choice.index)
  {
    TypedAddressed(c.qs, clk, c.dram.banks);
    var choice := Choose(c.qs, c.dram.banks, writeMode, timing, pick);
    ChoiceIsSchedulable(c, clk, choice);
    choice
  }

  lemma ScheduledOk(c: Channel, clk: int, choice: Choice, depart: int)
    requires ChannelOk(c, clk) && depart > clk + 1 && Schedulable(c, choice)
    requires choice.Chosen? ==> CanServe(c.qs, choice.source, choice.index)
    ensures ChannelOk(Scheduled(c, choice, depart), clk)
  {
    if choice.Chosen? {
      var t := Scheduled(c, choice, depart);
      ServeKeeps(c.qs, c.dram, c.serving, clk, choice.source, choice.index, depart, t.qs, t.dram, t.serving);
    }
  }

  /** The chosen request is served. */
  ghost predicate IsScheduled(c: Channel, source: Source, i: nat, depart: int, t: Channel) {
    t == if Schedulable(c, Chosen(source, i)) then Scheduled(c, Chosen(source, i), depart) else c
  }

  lemma ServedIsScheduled(c: Channel, source: Source, i: nat, depart: int, t: Channel)
    requires IsServed(c.qs, c.dram, c.serving, source, i, depart, t.qs, t.dram, t.serving)
    ensures IsScheduled(c, source, i, depart, t)
  {
  }

  lemma IsScheduledOk(c: Channel, clk: int, source: Source, i: nat, depart: int, t: Channel)
    requires ChannelOk(c, clk) && depart > clk + 1 && CanServe(c.qs, source, i)
    requires IsScheduled(c, source, i, depart, t)
    ensures ChannelOk(t, clk)
  {
    ChoiceIsSchedulable(c, clk, Chosen(source, i));
    ScheduledOk(c, clk, Chosen(source, i), depart);
  }

  /** What others see of a served request: its queue, the command that was issued, and the same banks. */
  lemma IsScheduledSo(c: Channel, clk: int, source: Source, i: nat, r: Request, cmd: Command, depart: int, t: Channel)
    requires ChannelOk(c, clk) && CanServe(c.qs, source, i) && IsScheduled(c, source, i, depart, t)
    requires r == Queue(c.qs, source)[i] && IsAddressed(r, c.dram.banks) && cmd == FirstCommand(r, c.dram.banks)
    ensures t.qs == Advance(c.qs, source, i, cmd, depart)
    ensures t.dram.banks.Keys == c.dram.banks.Keys && t.dram.issued == c.dram.issued + [IssuedFor(cmd, r)]
  {
    CanServeSo(c.qs, c.dram, c.serving, clk, source, i);
    SameBanks(c.dram.banks, cmd, r.path, r.row);
  }

  /** The end of a tick: one request is chosen and served, or none.  All invariants are kept, for any
      answers of the policy and the timing of the channel. */
  ghost function TickEnd(c: Channel, clk: int, writeMode: bool, timing: Timing, pick: int,
                         depart: int): (t: Channel)
    requires ChannelOk(c, clk) && depart > clk + 1
    ensures ChannelOk(t, clk)
  {
    var choice := NextChoice(c, clk, writeMode, timing, pick);
    ScheduledOk(c, clk, choice, depart);
    Scheduled(c, choice, depart)
  }

  lemma TickEndFrom(c: Channel, clk: int, writeMode: bool, timing: Timing, pick: int, depart: int,
                    choice: Choice, t: Channel)
    requires ChannelOk(c, clk) && depart > clk + 1
    requires Addressed(c.qs, c.dram.banks) && choice == Choose(c.qs, c.dram.banks, writeMode, timing, pick)
    requires if choice.Chosen? then IsScheduled(c, choice.source, choice.index, depart, t) else t == c
    ensures t == TickEnd(c, clk, writeMode, timing, pick, depart)
  {
    if choice.Chosen? {
      ChoiceIsSchedulable(c, clk, choice);
    }
  }

  /** A read that accessed its row is no longer served once it has been called back. */
  ghost function CompleteServing(serving: map<Path, int>, qs: Queues, clk: int): map<Path, int> {
    if qs.pending != [] && qs.pending[0].depart <= clk && ReadsFromRow(qs.pending[0]) then
      Counted(serving, [], qs.pending[0].path, -1)
    else serving
  }

  lemma {:induction false} RefreshesOk(qs: Queues, serving: map<Path, int>, clk: int, nodes: set<Path>,
                                       ranks: seq<Path>)
    requires QueuesOk(qs, serving, clk, nodes)
    ensures
      var t := AcceptRefreshes(qs, ranks, clk);
      QueuesOk(t, serving, clk, nodes) && t.called == qs.called && t.actq == qs.actq
  {
    if ranks != [] {
      RefreshesOk(qs, serving, clk, nodes, ranks[..|ranks| - 1]);
      QueuesAcceptRefresh(AcceptRefreshes(qs, ranks[..|ranks| - 1], clk), serving, clk, nodes, ranks[|ranks| - 1]);
    }
  }

  /** The counters of a read that is due can be lowered. */
  ghost predicate CanComplete(serving: map<Path, int>, qs: Queues, clk: int) {
    qs.pending != [] && qs.pending[0].depart <= clk && ReadsFromRow(qs.pending[0]) ==>
      var path := qs.pending[0].path;
      && (forall k :: 0 <= k <= |path| ==> path[..k] in serving)
      && (forall p :: p in serving && p <= path ==> serving[p] > 0)
  }

  /** What the begin of the tick after `now` does: the oldest read is called back if it has its data, and
      refreshes arrive. */
  ghost function Begun(c: Channel, now: int, refreshes: seq<Path>): Channel {
    Channel(AcceptRefreshes(Complete(c.qs, now + 1), refreshes, now + 1), c.dram,
            CompleteServing(c.serving, c.qs, now + 1))
  }

  lemma TickBeginOk(c: Channel, now: int, refreshes: seq<Path>)
    requires ChannelOk(c, now)
    ensures CanComplete(c.serving, c.qs, now + 1)
    ensures ChannelOk(Begun(c, now, refreshes), now + 1)
  {
    QueuesClock(c.qs, c.serving, now, c.dram.banks.Keys);
    if c.qs.pending != [] && c.qs.pending[0].depart <= now + 1 {
      ServingComplete(c.serving, c.qs, now + 1);
      QueuesComplete(c.qs, c.serving, now + 1, c.dram.banks.Keys);
    }
    RefreshesOk(Complete(c.qs, now + 1), CompleteServing(c.serving, c.qs, now + 1), now + 1, c.dram.banks.Keys,
                refreshes);
  }

  /** It keeps all invariants. */
  ghost function TickBegin(c: Channel, now: int, refreshes: seq<Path>): (t: Channel)
    requires ChannelOk(c, now)
    ensures ChannelOk(t, now + 1)
  {
    TickBeginOk(c, now, refreshes);
    Begun(c, now, refreshes)
  }

  lemma TickBeginIs(c: Channel, now: int, refreshes: seq<Path>, clk: int, t: Channel)
    requires ChannelOk(c, now) && clk == now + 1 && t == Begun(c, now, refreshes)
    ensures t == TickBegin(c, now, refreshes) && ChannelOk(t, clk)
  {
  }

  /** What a tick is given: the ranks to be refreshed, and the answers of the timing and of the policy. */
  datatype Inputs = Inputs(refreshes: seq<Path>, timing: Timing, pick: int)

  /** The write mode from the tick after `now` on. */
  ghost function TickMode(c: Channel, now: int, writeMode: bool, refreshes: seq<Path>): bool
    requires ChannelOk(c, now)
  {
    NextWriteMode(writeMode, TickBegin(c, now, refreshes).qs)
  }

  /** The tick after `now`. */
  ghost function Ticked(c: Channel, now: int, writeMode: bool, inputs: Inputs, depart: int): (t: Channel)
    requires ChannelOk(c, now) && depart > now + 2
    ensures ChannelOk(t, now + 1)
  {
    TickEnd(TickBegin(c, now, inputs.refreshes), now + 1, TickMode(c, now, writeMode, inputs.refreshes),
            inputs.timing, inputs.pick, depart)
  }

  lemma TickedFrom(c: Channel, now: int, writeMode: bool, inputs: Inputs, depart: int,
                   begun: Channel, clk: int, mode: bool, t: Channel)
    requires ChannelOk(c, now) && ChannelOk(begun, clk) && depart > clk + 1
    requires begun == TickBegin(c, now, inputs.refreshes) && clk == now + 1
    requires mode == NextWriteMode(writeMode, begun.qs)
    requires t == TickEnd(begun, clk, mode, inputs.timing, inputs.pick, depart)
    ensures t == Ticked(c, now, writeMode, inputs, depart) && mode == TickMode(c, now, writeMode, inputs.refreshes)
  {
  }
}
