/**
 The bank and bus scheduler of the memory controller (lab 2): the intervals during which a request
 uses the command bus, the data bus and its bank, the conflict tests, and one cycle of scheduling.
 Lists are given in the order in which the controller traverses them: oldest first.
 */
module DramScheduler {
  import opened Common

  const NUM_BANKS: nat := 8
  const NUM_CMD_INTERVALS: nat := 3
  const PRE: nat := 0
  const ACT: nat := 1
  const RW: nat := 2

  /** Cycles that a command occupies the command bus, that a bank needs for it, and of a data burst. */
  const CMD_TIME: int := 4
  const BANK_TIME: int := 100
  const DATA_TIME: int := 50

  datatype Status = Hit | Miss | Conflict

  datatype Interval = Interval(start: int, end: int, valid: bool)

  datatype Bank = Bank(rowBuffer: nat, rowBufferOpen: bool)

  datatype Request = Request(
    block: nat, row: nat, bankIdx: nat, status: Status,
    cmds: seq<Interval>, data: Interval, bank: Interval)

  predicate RequestOk(r: Request) {
    r.bankIdx < NUM_BANKS && |r.cmds| == NUM_CMD_INTERVALS
  }

  const NO_INTERVAL := Interval(0, 0, false)

  /** The request for a block, by its tag: the bank is given by bits 5 to 7, the row by the upper half. */
  function NewRequest(block: nat, tag: nat): (r: Request)
    ensures RequestOk(r)
  {
    Request(block, tag - tag % 0x1_0000, (tag % 0x100) / 32, Miss,
            [NO_INTERVAL, NO_INTERVAL, NO_INTERVAL], NO_INTERVAL, NO_INTERVAL)
  }

  /** Two records of one request, whatever they say of its status and intervals. */
  predicate SameRequest(r: Request, q: Request) {
    r.block == q.block && r.row == q.row && r.bankIdx == q.bankIdx
  }

  function StatusOf(r: Request, banks: seq<Bank>): Status
    requires RequestOk(r) && |banks| == NUM_BANKS
  {
    if !banks[r.bankIdx].rowBufferOpen then Miss
    else if r.row == banks[r.bankIdx].rowBuffer then Hit
    else Conflict
  }

  // ---- resource usage ----

  /** From the first command to the column access. */
  function Lead(status: Status): int {
    match status
    case Hit => 0
    case Miss => BANK_TIME
    case Conflict => 2 * BANK_TIME
  }

  /** The request scheduled at time `now` uses exactly these resources: its commands follow one another
      at a bank's pace, the bank is busy from the first of them until the data, and then come the data. */
  ghost predicate UsesFrom(r: Request, now: int) {
    && RequestOk(r)
    && r.cmds[PRE].valid == r.status.Conflict?
    && r.cmds[ACT].valid == !r.status.Hit?
    && r.cmds[RW].valid
    && (r.cmds[PRE].valid ==> r.cmds[PRE].start == now)
    && (r.cmds[ACT].valid ==> r.cmds[ACT].start == now + Lead(r.status) - BANK_TIME)
    && r.cmds[RW].start == now + Lead(r.status)
    && (forall i :: 0 <= i < NUM_CMD_INTERVALS && r.cmds[i].valid ==> r.cmds[i].end == r.cmds[i].start + CMD_TIME - 1)
    && r.bank.start == now && r.bank.end == now + Lead(r.status) + BANK_TIME - 1
    && r.data.start == r.bank.end + 1 && r.data.end == r.data.start + DATA_TIME - 1
  }

  function UsedFrom(now: int, length: int): Interval {
    Interval(now, now + length - 1, true)
  }

  function Usages(r: Request, now: int): (u: Request)
    requires RequestOk(r)
    ensures SameRequest(u, r) && u.status == r.status && UsesFrom(u, now)
  {
    var column := now + Lead(r.status);
    r.(cmds := [if r.status.Conflict? then UsedFrom(now, CMD_TIME) else r.cmds[PRE].(valid := false),
                if r.status.Hit? then r.cmds[ACT].(valid := false) else UsedFrom(column - BANK_TIME, CMD_TIME),
                UsedFrom(column, CMD_TIME)],
       bank := Interval(now, column + BANK_TIME - 1, true),
       data := UsedFrom(column + BANK_TIME, DATA_TIME))
  }

  // ---- conflicts ----

  predicate Overlap(a: Interval, b: Interval) {
    a.start <= b.end && b.start <= a.end
  }

  predicate CmdConflict(q: Request, r: Request)
    requires RequestOk(q) && RequestOk(r)
  {
    exists i, j :: 0 <= i < NUM_CMD_INTERVALS && 0 <= j < NUM_CMD_INTERVALS
      && q.cmds[i].valid && r.cmds[j].valid && Overlap(q.cmds[i], r.cmds[j])
  }

  predicate DataConflict(q: Request, r: Request) {
    Overlap(q.data, r.data)
  }

  predicate BankConflict(q: Request, r: Request) {
    q.bankIdx == r.bankIdx && Overlap(q.bank, r.bank)
  }

  predicate Conflicts(q: Request, r: Request)
    requires RequestOk(q) && RequestOk(r)
  {
    CmdConflict(q, r) || DataConflict(q, r) || BankConflict(q, r)
  }

  ghost predicate AllOk(rs: seq<Request>) {
    forall i :: 0 <= i < |rs| ==> RequestOk(rs[i])
  }

  predicate IsCandidate(ongoing: seq<Request>, r: Request)
    requires AllOk(ongoing) && RequestOk(r)
  {
    forall i :: 0 <= i < |ongoing| ==> !Conflicts(ongoing[i], r)
  }

  // ---- one cycle ----

  datatype State = State(now: int, pending: seq<Request>, ongoing: seq<Request>)

  ghost predicate StateOk(s: State) {
    AllOk(s.pending) && AllOk(s.ongoing)
  }

  function Served(ongoing: seq<Request>, now: int): (rs: seq<Request>)
    requires AllOk(ongoing)
    ensures AllOk(rs)
  {
    if ongoing == [] then [] else
      var last := ongoing[|ongoing| - 1];
      var served := Served(ongoing[..|ongoing| - 1], now);
      if last.data.end <= now then served + [last] else served
  }

  function Unserved(ongoing: seq<Request>, now: int): (rs: seq<Request>)
    requires AllOk(ongoing)
    ensures AllOk(rs)
  {
    if ongoing == [] then [] else
      var last := ongoing[|ongoing| - 1];
      var unserved := Unserved(ongoing[..|ongoing| - 1], now);
      if last.data.end > now then unserved + [last] else unserved
  }

  /** Exactly the requests whose data have yet to pass are left. */
  lemma {:induction false} UnservedContents(ongoing: seq<Request>, now: int)
    requires AllOk(ongoing)
    ensures forall r :: r in Unserved(ongoing, now) <==> r in ongoing && r.data.end > now
  {
    if ongoing != [] {
      var last := |ongoing| - 1;
      UnservedContents(ongoing[..last], now);
      assert ongoing == ongoing[..last] + [ongoing[last]];
    }
  }

  /** A pending request with its status and its resource usage, were it scheduled now. */
  function Assessed(r: Request, banks: seq<Bank>, now: int): (u: Request)
    requires RequestOk(r) && |banks| == NUM_BANKS
    ensures SameRequest(u, r) && UsesFrom(u, now)
  {
    Usages(r.(status := StatusOf(r, banks)), now)
  }

  /** Request `i` is picked: a candidate, and no other candidate is older or the only row hit. */
  ghost predicate IsPick(pending: seq<Request>, ongoing: seq<Request>, banks: seq<Bank>, now: int, i: int)
    requires AllOk(pending) && AllOk(ongoing) && |banks| == NUM_BANKS
  {
    && 0 <= i < |pending|
    && var u := Assessed(pending[i], banks, now);
    && IsCandidate(ongoing, u)
    && forall j :: 0 <= j < |pending| && j != i && IsCandidate(ongoing, Assessed(pending[j], banks, now)) ==>
         if Assessed(pending[j], banks, now).status.Hit? then u.status.Hit? && i < j
         else u.status.Hit? || i < j
  }

  ghost predicate NoCandidate(pending: seq<Request>, ongoing: seq<Request>, banks: seq<Bank>, now: int)
    requires AllOk(pending) && AllOk(ongoing) && |banks| == NUM_BANKS
  {
    forall j :: 0 <= j < |pending| ==> !IsCandidate(ongoing, Assessed(pending[j], banks, now))
  }

  /** The pending requests are still the same ones in the same order. */
  ghost predicate SameRequests(rs: seq<Request>, qs: seq<Request>) {
    |rs| == |qs| && forall i :: 0 <= i < |rs| ==> SameRequest(rs[i], qs[i])
  }

  /** One cycle: finished requests leave, then at most one pending request is scheduled, namely `pick`. */
  ghost predicate IsCycle(s: State, banks: seq<Bank>, t: State, pick: int)
    requires StateOk(s) && |banks| == NUM_BANKS
  {
    var ongoing := Unserved(s.ongoing, s.now);
    && StateOk(t)
    && t.now == s.now + 1
    && if pick < 0 then
         && NoCandidate(s.pending, ongoing, banks, s.now)
         && t.ongoing == ongoing
         && SameRequests(t.pending, s.pending)
       else
         && IsPick(s.pending, ongoing, banks, s.now, pick)
         && t.ongoing == ongoing + [Assessed(s.pending[pick], banks, s.now)]
         && SameRequests(t.pending, Without(s.pending, pick))
  }

  /** The state in which a cycle schedules: new requests have been added behind the older ones. */
  function Arrived(s: State, requests: seq<Request>): State {
    s.(pending := s.pending + requests)
  }

  function BlocksOf(rs: seq<Request>): (blocks: seq<nat>)
    ensures |blocks| == |rs| && forall i :: 0 <= i < |rs| ==> blocks[i] == rs[i].block
  {
    seq(|rs|, i requires 0 <= i < |rs| => rs[i].block)
  }

  // ---- exclusive use of the resources ----

  /** No two requests ever scheduled use the command bus, the data bus or one bank at the same time. */
  ghost predicate Exclusive(scheduled: seq<Request>)
    requires AllOk(scheduled)
  {
    forall i, j :: 0 <= i < j < |scheduled| ==> !Conflicts(scheduled[i], scheduled[j])
  }

  /** Everything ever scheduled started in the past, and is ongoing unless its data have passed. */
  ghost predicate Remembers(s: State, scheduled: seq<Request>)
    requires AllOk(scheduled)
  {
    && (forall i :: 0 <= i < |scheduled| ==>
          UsesFrom(scheduled[i], scheduled[i].bank.start) && scheduled[i].bank.start < s.now)
    && (forall i :: 0 <= i < |scheduled| ==> scheduled[i] in s.ongoing || scheduled[i].data.end < s.now)
    && (forall i :: 0 <= i < |s.ongoing| ==> s.ongoing[i] in scheduled)
  }

  /** A request whose data have passed cannot clash with one that starts now. */
  lemma PastIsOver(q: Request, r: Request, start: int, now: int)
    requires UsesFrom(q, start) && UsesFrom(r, now) && q.data.end <= now
    ensures !Conflicts(q, r)
  {
  }

  /** What can go now clashes with nothing that was ever scheduled. */
  lemma CandidateIsExclusive(s: State, r: Request, scheduled: seq<Request>)
    requires StateOk(s) && AllOk(scheduled) && Remembers(s, scheduled)
    requires UsesFrom(r, s.now) && IsCandidate(Unserved(s.ongoing, s.now), r)
    ensures forall i :: 0 <= i < |scheduled| ==> !Conflicts(scheduled[i], r)
  {
    UnservedContents(s.ongoing, s.now);
    forall i | 0 <= i < |scheduled|
      ensures !Conflicts(scheduled[i], r)
    {
      var q := scheduled[i];
      if q.data.end <= s.now {
        PastIsOver(q, r, q.bank.start, s.now);
      } else {
        assert q in Unserved(s.ongoing, s.now);
      }
    }
  }

  lemma RetireKeepsMemory(s: State, scheduled: seq<Request>, t: State)
    requires StateOk(s) && AllOk(scheduled) && Remembers(s, scheduled)
    requires t.now == s.now + 1 && t.ongoing == Unserved(s.ongoing, s.now)
    ensures Remembers(t, scheduled)
  {
    UnservedContents(s.ongoing, s.now);
  }

  lemma ScheduleKeepsMemory(t: State, r: Request, scheduled: seq<Request>)
    requires AllOk(scheduled) && Remembers(t, scheduled)
    requires UsesFrom(r, t.now - 1) && r.bank.start == t.now - 1
    ensures AllOk(scheduled + [r]) && Remembers(t.(ongoing := t.ongoing + [r]), scheduled + [r])
  {
  }

  /** Safety, for any row-buffer contents: a cycle keeps the use of all resources exclusive. */
  lemma CycleKeepsExclusive(s: State, banks: seq<Bank>, t: State, pick: int, scheduled: seq<Request>)
    requires StateOk(s) && |banks| == NUM_BANKS && IsCycle(s, banks, t, pick)
    requires AllOk(scheduled) && Exclusive(scheduled) && Remembers(s, scheduled)
    ensures
      var after := if pick < 0 then scheduled else scheduled + [t.ongoing[|t.ongoing| - 1]];
      AllOk(after) && Exclusive(after) && Remembers(t, after)
  {
    var retired := t.(ongoing := Unserved(s.ongoing, s.now));
    RetireKeepsMemory(s, scheduled, retired);
    if pick >= 0 {
      var r := Assessed(s.pending[pick], banks, s.now);
      CandidateIsExclusive(s, r, scheduled);
      ScheduleKeepsMemory(retired, r, scheduled);
    }
  }

  lemma CycleFromParts(s: State, banks: seq<Bank>, assessed: seq<Request>, t: State, best: int)
    requires StateOk(s) && |banks| == NUM_BANKS && best < |assessed| && AllOk(assessed)
    requires SameRequests(assessed, s.pending) && t.now == s.now + 1
    requires
      var ongoing := Unserved(s.ongoing, s.now);
      if best < 0 then
        NoCandidate(s.pending, ongoing, banks, s.now) && t.pending == assessed && t.ongoing == ongoing
      else
        && IsPick(s.pending, ongoing, banks, s.now, best)
        && assessed[best] == Assessed(s.pending[best], banks, s.now)
        && t.ongoing == ongoing + [assessed[best]] && t.pending == Without(assessed, best)
    ensures IsCycle(s, banks, t, best)
  {
  }

  // ---- the controller ----

  class Memory {
    const banks: array<Bank>
    var currCycle: int
    var pending: seq<Request>
    var ongoing: seq<Request>
    ghost var scheduled: seq<Request>

    ghost predicate Valid()
      reads this, banks
    {
      && banks.Length == NUM_BANKS
      && StateOk(View())
      && AllOk(scheduled)
      && Exclusive(scheduled)
      && Remembers(View(), scheduled)
    }

    ghost function View(): State
      reads this
    {
      State(currCycle, pending, ongoing)
    }

    constructor ()
      ensures Valid() && fresh(banks) && View() == State(0, [], []) && scheduled == []
      ensures forall i :: 0 <= i < NUM_BANKS ==> !banks[i].rowBufferOpen
    {
      banks := new Bank[NUM_BANKS](_ => Bank(0, false));
      currCycle, pending, ongoing, scheduled := 0, [], [], [];
    }

    method AddRequest(block: nat, tag: nat)
      requires Valid()
      modifies this`pending
      ensures Valid()
      ensures View() == old(View()).(pending := old(pending) + [NewRequest(block, tag)])
    {
      pending := pending + [NewRequest(block, tag)];
    }

    /** The intervals of a request, built up from its first command to its data. */
    method CalculateUsages(r: Request, now: int) returns (u: Request)
      requires RequestOk(r)
      ensures u == Usages(r, now)
    {
      var cycle := now;
      var precharge, activate := r.cmds[PRE].(valid := false), r.cmds[ACT].(valid := false);
      if r.status.Conflict? {
        precharge := Interval(cycle, cycle + 3, true);
        cycle := cycle + 100;
      }
      if !r.status.Hit? {
        activate := Interval(cycle, cycle + 3, true);
        cycle := cycle + 100;
      }
      var column := Interval(cycle, cycle + 3, true);
      var bank := Interval(now, cycle + 99, true);
      var data := Interval(bank.end + 1, bank.end + 1 + 49, true);
      u := r.(cmds := [precharge, activate, column], bank := bank, data := data);
    }

    method CanSchedule(r: Request) returns (candidate: bool)
      requires AllOk(ongoing) && RequestOk(r)
      ensures candidate == IsCandidate(ongoing, r)
    {
      var i := 0;
      while i < |ongoing|
        invariant i <= |ongoing| && forall j :: 0 <= j < i ==> !Conflicts(ongoing[j], r)
      {
        if Conflicts(ongoing[i], r) {
          return false;
        }
        i := i + 1;
      }
      return true;
    }

    /** Retire the requests whose data have been transferred; their blocks go back to the L2 cache. */
    method Retire() returns (replies: seq<nat>)
      requires AllOk(ongoing)
      modifies this`ongoing
      ensures AllOk(ongoing) && ongoing == Unserved(old(ongoing), currCycle)
      ensures replies == BlocksOf(Served(old(ongoing), currCycle))
    {
      replies := [];
      var left: seq<Request> := [];
      var i := 0;
      while i < |ongoing|
        invariant i <= |ongoing|
        invariant left == Unserved(ongoing[..i], currCycle)
        invariant replies == BlocksOf(Served(ongoing[..i], currCycle))
      {
        assert ongoing[..i + 1][..i] == ongoing[..i];
        if ongoing[i].data.end <= currCycle {
          replies := replies + [ongoing[i].block];
        } else {
          left := left + [ongoing[i]];
        }
        i := i + 1;
      }
      assert ongoing[..i] == ongoing;
      ongoing := left;
    }

    /** Give a pending request its status and its usages; can it go now? */
    method Assess(i: nat) returns (candidate: bool)
      requires AllOk(pending) && AllOk(ongoing) && banks.Length == NUM_BANKS && i < |pending|
      modifies this`pending
      ensures pending == old(pending)[i := Assessed(old(pending)[i], banks[..], currCycle)]
      ensures candidate == IsCandidate(ongoing, Assessed(old(pending)[i], banks[..], currCycle))
    {
      var request := pending[i];
      var status := if !banks[request.bankIdx].rowBufferOpen then Miss
                    else if request.row == banks[request.bankIdx].rowBuffer then Hit
                    else Conflict;
      request := CalculateUsages(request.(status := status), currCycle);
      assert request == Assessed(old(pending)[i], banks[..], currCycle);
      pending := pending[i := request];
      candidate := CanSchedule(request);
    }

    /** Assess the pending requests from the oldest on; stop at the first row hit that can go. */
    method FindBest() returns (best: int)
      requires AllOk(pending) && AllOk(ongoing) && banks.Length == NUM_BANKS
      modifies this`pending
      ensures AllOk(pending) && SameRequests(pending, old(pending))
      ensures if best < 0 then NoCandidate(old(pending), ongoing, banks[..], currCycle)
              else
                && IsPick(old(pending), ongoing, banks[..], currCycle, best)
                && pending[best] == Assessed(old(pending)[best], banks[..], currCycle)
    {
      best := -1;
      var i := 0;
      while i < |pending|
        invariant i <= |pending| == |old(pending)| && best < i
        invariant AllOk(pending) && SameRequests(pending, old(pending)) && pending[i..] == old(pending)[i..]
        invariant forall j :: 0 <= j < i ==> pending[j] == Assessed(old(pending)[j], banks[..], currCycle)
        invariant forall j :: 0 <= j < i && IsCandidate(ongoing, pending[j]) ==>
                  0 <= best <= j && !pending[j].status.Hit?
        invariant best >= 0 ==> IsCandidate(ongoing, pending[best])
      {
        var candidate := Assess(i);
        if candidate {
          if pending[i].status == Hit {
            best := i;
            return;
          }
          if best < 0 {
            best := i;
          }
        }
        i := i + 1;
      }
    }

    /** Retire, pick the best pending request, and start it. */
    method Schedule() returns (replies: seq<nat>, ghost pick: int)
      requires StateOk(View()) && banks.Length == NUM_BANKS
      modifies this`currCycle, this`pending, this`ongoing
      ensures replies == BlocksOf(Served(old(ongoing), old(currCycle)))
      ensures IsCycle(old(View()), banks[..], View(), pick)
    {
      replies := Retire();
      var best := FindBest();
      ghost var assessed := pending;
      if best >= 0 {
        ongoing := ongoing + [pending[best]];
        pending := pending[..best] + pending[best + 1..];
      }
      currCycle := currCycle + 1;
      pick := best;
      CycleFromParts(old(View()), banks[..], assessed, View(), pick);
    }

    /** One cycle.  The row buffers are read and never written. */
    method Cycle() returns (replies: seq<nat>, ghost pick: int)
      requires Valid()
      modifies this
      ensures Valid()
      ensures replies == BlocksOf(Served(old(ongoing), old(currCycle)))
      ensures IsCycle(old(View()), banks[..], View(), pick)
      ensures scheduled == if pick < 0 then old(scheduled) else old(scheduled) + [ongoing[|ongoing| - 1]]
    {
      replies, pick := Schedule();
      CycleKeepsExclusive(old(View()), banks[..], View(), pick, scheduled);
      if pick >= 0 {
        scheduled := scheduled + [ongoing[|ongoing| - 1]];
      }
    }
  }
}
