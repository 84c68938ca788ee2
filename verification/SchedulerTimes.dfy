/**
 The times of the scheduler in plain numbers: which bank and row a tag stands for, in which cycles a request uses
 the buses and its bank, and what the conflict tests say about these cycles.
 */
module SchedulerTimes {
  import opened DramScheduler

  lemma TagFields(tag: nat, row: nat, middle: nat, bank: nat, low: nat)
    requires tag == row * 65536 + middle * 256 + bank * 32 + low && middle < 256 && bank < 8 && low < 32
    ensures tag - tag % 65536 == row * 65536 && (tag % 256) / 32 == bank
  {
    assert tag / 65536 == row && tag / 256 == row * 256 + middle;
    assert tag % 256 == bank * 32 + low;
  }

  /** A tag put together from its fields: the bank is in bits 5 to 7, and the row in the upper half. */
  lemma RequestFields(block: nat, tag: nat, row: nat, middle: nat, bank: nat, low: nat)
    requires tag == row * 65536 + middle * 256 + bank * 32 + low && middle < 256 && bank < 8 && low < 32
    ensures var r := NewRequest(block, tag); r.block == block && r.bankIdx == bank && r.row == row * 65536
  {
    TagFields(tag, row, middle, bank, low);
  }

  // ---- cycles of use ----

  ghost predicate InUse(i: Interval, t: int) {
    i.start <= t <= i.end
  }

  ghost predicate UsesCommands(r: Request, t: int) {
    exists i :: 0 <= i < |r.cmds| && r.cmds[i].valid && InUse(r.cmds[i], t)
  }

  ghost predicate UsesData(r: Request, t: int) {
    InUse(r.data, t)
  }

  ghost predicate UsesBank(r: Request, bank: nat, t: int) {
    r.bankIdx == bank && InUse(r.bank, t)
  }

  /** How long a request waits for its column access: until its row is open, after the other one has been closed. */
  function Delay(r: Request, banks: seq<Bank>): int
    requires RequestOk(r) && |banks| == 8
  {
    if !banks[r.bankIdx].rowBufferOpen then 100
    else if banks[r.bankIdx].rowBuffer == r.row then 0
    else 200
  }

  lemma UsesCommandsIff(u: Request, t: int)
    requires RequestOk(u)
    ensures UsesCommands(u, t) <==>
            (u.cmds[PRE].valid && InUse(u.cmds[PRE], t)) || (u.cmds[ACT].valid && InUse(u.cmds[ACT], t))
            || (u.cmds[RW].valid && InUse(u.cmds[RW], t))
  {
  }

  /** When a request uses what, were it scheduled now: a precharge and an activate if it needs them, each for four
      cycles and a hundred apart, its column access, and then the data for fifty. */
  lemma Timetable(r: Request, banks: seq<Bank>, now: int, t: int)
    requires RequestOk(r) && |banks| == 8
    ensures
      var u, delay := Assessed(r, banks, now), Delay(r, banks);
      && u.block == r.block && u.row == r.row && u.bankIdx == r.bankIdx
      && (UsesCommands(u, t) <==>
          (delay == 200 && now <= t < now + 4) || (delay >= 100 && now + delay - 100 <= t < now + delay - 96)
          || now + delay <= t < now + delay + 4)
      && (UsesBank(u, r.bankIdx, t) <==> now <= t < now + delay + 100)
      && (UsesData(u, t) <==> now + delay + 100 <= t < now + delay + 150)
  {
    UsesCommandsIff(Assessed(r, banks, now), t);
  }

  // ---- conflicts ----

  lemma OverlapIff(a: Interval, b: Interval)
    requires a.start <= a.end && b.start <= b.end
    ensures Overlap(a, b) <==> exists t :: InUse(a, t) && InUse(b, t)
  {
    if Overlap(a, b) {
      var t := if a.start <= b.start then b.start else a.start;
      assert InUse(a, t) && InUse(b, t);
    }
  }

  /** Both requests use the same bus or bank in cycle t. */
  ghost predicate ClashAt(q: Request, r: Request, t: int) {
    || (UsesCommands(q, t) && UsesCommands(r, t))
    || (UsesData(q, t) && UsesData(r, t))
    || (UsesBank(q, q.bankIdx, t) && UsesBank(r, q.bankIdx, t))
  }

  lemma CommandsOverlap(q: Request, r: Request)
    requires RequestOk(q) && RequestOk(r)
    requires forall i :: 0 <= i < 3 ==> (q.cmds[i].valid ==> q.cmds[i].start <= q.cmds[i].end)
    requires forall i :: 0 <= i < 3 ==> (r.cmds[i].valid ==> r.cmds[i].start <= r.cmds[i].end)
    ensures CmdConflict(q, r) <==> exists t :: UsesCommands(q, t) && UsesCommands(r, t)
  {
    if CmdConflict(q, r) {
      var i, j :| 0 <= i < NUM_CMD_INTERVALS && 0 <= j < NUM_CMD_INTERVALS
                  && q.cmds[i].valid && r.cmds[j].valid && Overlap(q.cmds[i], r.cmds[j]);
      OverlapIff(q.cmds[i], r.cmds[j]);
      var t :| InUse(q.cmds[i], t) && InUse(r.cmds[j], t);
      assert UsesCommands(q, t) && UsesCommands(r, t);
    }
    if t :| UsesCommands(q, t) && UsesCommands(r, t) {
      var i :| 0 <= i < |q.cmds| && q.cmds[i].valid && InUse(q.cmds[i], t);
      var j :| 0 <= j < |r.cmds| && r.cmds[j].valid && InUse(r.cmds[j], t);
      OverlapIff(q.cmds[i], r.cmds[j]);
      assert Overlap(q.cmds[i], r.cmds[j]);
    }
  }

  /** The tests find a conflict exactly if there is a cycle in which both requests use a bus or a bank. */
  lemma ConflictsIff(q: Request, r: Request, start: int, now: int)
    requires UsesFrom(q, start) && UsesFrom(r, now)
    ensures Conflicts(q, r) <==> exists t :: ClashAt(q, r, t)
  {
    CommandsOverlap(q, r);
    OverlapIff(q.data, r.data);
    OverlapIff(q.bank, r.bank);
    if t :| UsesCommands(q, t) && UsesCommands(r, t) {
      assert ClashAt(q, r, t);
    }
    if t :| InUse(q.data, t) && InUse(r.data, t) {
      assert ClashAt(q, r, t);
    }
    if t :| InUse(q.bank, t) && InUse(r.bank, t) {
      assert q.bankIdx == r.bankIdx ==> ClashAt(q, r, t);
    }
  }

  /** So exclusive use means: in no cycle do two requests that were ever scheduled use one bus or one bank. */
  lemma ExclusiveIff(s: State, scheduled: seq<Request>)
    requires AllOk(scheduled) && Remembers(s, scheduled)
    ensures Exclusive(scheduled) <==>
            forall i, j, t :: 0 <= i < j < |scheduled| ==> !ClashAt(scheduled[i], scheduled[j], t)
  {
    forall i, j | 0 <= i < j < |scheduled|
      ensures Conflicts(scheduled[i], scheduled[j]) <==> exists t :: ClashAt(scheduled[i], scheduled[j], t)
    {
      ConflictsIff(scheduled[i], scheduled[j], scheduled[i].bank.start, scheduled[j].bank.start);
    }
  }

  /** A pending request clashes in no cycle with those whose data have yet to pass. */
  ghost predicate CouldGo(s: State, banks: seq<Bank>, j: nat)
    requires StateOk(s) && |banks| == 8 && j < |s.pending|
  {
    forall i, t :: 0 <= i < |s.ongoing| && s.ongoing[i].data.end > s.now ==>
      !ClashAt(s.ongoing[i], Assessed(s.pending[j], banks, s.now), t)
  }

  lemma CandidateIffCouldGo(s: State, banks: seq<Bank>, j: nat)
    requires StateOk(s) && |banks| == 8 && j < |s.pending|
    requires forall i :: 0 <= i < |s.ongoing| ==> UsesFrom(s.ongoing[i], s.ongoing[i].bank.start)
    ensures IsCandidate(Unserved(s.ongoing, s.now), Assessed(s.pending[j], banks, s.now)) <==> CouldGo(s, banks, j)
  {
    var u, left := Assessed(s.pending[j], banks, s.now), Unserved(s.ongoing, s.now);
    UnservedContents(s.ongoing, s.now);
    forall i | 0 <= i < |s.ongoing|
      ensures Conflicts(s.ongoing[i], u) <==> exists t :: ClashAt(s.ongoing[i], u, t)
    {
      ConflictsIff(s.ongoing[i], u, s.ongoing[i].bank.start, s.now);
    }
    hide UsesFrom, Conflicts, ClashAt, Unserved, Assessed;
    if IsCandidate(left, u) {
      forall i | 0 <= i < |s.ongoing| && s.ongoing[i].data.end > s.now
        ensures !Conflicts(s.ongoing[i], u)
      {
        assert s.ongoing[i] in left;
      }
    } else {
      var k :| 0 <= k < |left| && Conflicts(left[k], u);
      assert left[k] in left;
    }
  }

  /** What a cycle schedules could go; it is the oldest such request whose row is open, if there is one, and else
      the oldest such request.  Nothing is scheduled only when nothing could go. */
  lemma PickIs(s: State, banks: seq<Bank>, t: State, pick: int, j: nat)
    requires StateOk(s) && |banks| == 8 && IsCycle(s, banks, t, pick)
    requires forall i :: 0 <= i < |s.ongoing| ==> UsesFrom(s.ongoing[i], s.ongoing[i].bank.start)
    requires j < |s.pending| && CouldGo(s, banks, j)
    ensures 0 <= pick < |s.pending| && CouldGo(s, banks, pick)
    ensures Delay(s.pending[j], banks) == 0 ==> Delay(s.pending[pick], banks) == 0 && pick <= j
    ensures Delay(s.pending[pick], banks) != 0 ==> pick <= j
  {
    CandidateIffCouldGo(s, banks, j);
    if 0 <= pick < |s.pending| {
      CandidateIffCouldGo(s, banks, pick);
    }
  }
}
