/**
 How long a memory request waits.  The controller never opens a row buffer, so every request is a row
 miss; then the oldest pending request is scheduled within a fixed number of cycles, each request
 eventually, and the requests of one bank in their order of arrival.
 */
module BoundedWait {
  import opened Common
  import opened DramScheduler

  /** The longest wait of the oldest pending request: two bank times, then until the buses are free. */
  const MAX_WAIT: nat := 302

  ghost predicate AllClosed(banks: seq<Bank>) {
    |banks| == NUM_BANKS && forall i :: 0 <= i < NUM_BANKS ==> !banks[i].rowBufferOpen
  }

  ghost predicate MissFrom(r: Request, start: int) {
    UsesFrom(r, start) && r.status.Miss?
  }

  /** The ongoing requests are row misses that started in the past. */
  ghost predicate Started(s: State) {
    StateOk(s) && forall i :: 0 <= i < |s.ongoing| ==>
      MissFrom(s.ongoing[i], s.ongoing[i].bank.start) && s.ongoing[i].bank.start < s.now
  }

  // ---- conflicts in terms of starting times ----

  predicate BusBusy(gap: int) {
    gap < DATA_TIME || BANK_TIME - CMD_TIME < gap < BANK_TIME + CMD_TIME
  }

  predicate BankBusy(gap: int) {
    gap < 2 * BANK_TIME
  }

  lemma ConflictsByGap(q: Request, r: Request, start: int, now: int)
    requires MissFrom(q, start) && MissFrom(r, now) && start < now
    ensures Conflicts(q, r) <==> BusBusy(now - start) || (q.bankIdx == r.bankIdx && BankBusy(now - start))
  {
    assert q.cmds[ACT].valid && q.cmds[RW].valid && r.cmds[ACT].valid && r.cmds[RW].valid;
    if BANK_TIME - CMD_TIME < now - start < BANK_TIME + CMD_TIME {
      assert Overlap(q.cmds[RW], r.cmds[ACT]);
    }
  }

  /** Every ongoing request started long enough ago for a request to `bank`. */
  ghost predicate Free(s: State, bank: nat) {
    forall i :: 0 <= i < |s.ongoing| ==>
      var gap := s.now - s.ongoing[i].bank.start;
      !BusBusy(gap) && (s.ongoing[i].bankIdx == bank ==> !BankBusy(gap))
  }

  lemma CandidateIffFree(s: State, u: Request)
    requires Started(s) && MissFrom(u, s.now)
    ensures IsCandidate(Unserved(s.ongoing, s.now), u) <==> Free(s, u.bankIdx)
  {
    var left := Unserved(s.ongoing, s.now);
    UnservedContents(s.ongoing, s.now);
    forall i | 0 <= i < |s.ongoing|
      ensures Conflicts(s.ongoing[i], u) <==>
              BusBusy(s.now - s.ongoing[i].bank.start)
              || (s.ongoing[i].bankIdx == u.bankIdx && BankBusy(s.now - s.ongoing[i].bank.start))
      ensures s.ongoing[i].data.end <= s.now ==> !Conflicts(s.ongoing[i], u)
    {
      ConflictsByGap(s.ongoing[i], u, s.ongoing[i].bank.start, s.now);
    }
    if IsCandidate(left, u) {
      forall i | 0 <= i < |s.ongoing|
        ensures !Conflicts(s.ongoing[i], u)
      {
        if s.ongoing[i].data.end > s.now {
          assert s.ongoing[i] in left;
        }
      }
    }
    if Free(s, u.bankIdx) {
      forall i | 0 <= i < |left|
        ensures !Conflicts(left[i], u)
      {
        assert left[i] in left;
        assert left[i] in s.ongoing;
      }
    }
  }

  lemma AssessedIsMiss(r: Request, banks: seq<Bank>, now: int)
    requires RequestOk(r) && AllClosed(banks)
    ensures MissFrom(Assessed(r, banks, now), now)
  {
  }

  /** Who is picked, in terms of the starting times. */
  lemma PickIsOldestFree(s: State, banks: seq<Bank>, t: State, pick: int)
    requires Started(s) && AllClosed(banks) && IsCycle(s, banks, t, pick)
    ensures pick < |s.pending|
    ensures pick >= 0 ==> Free(s, s.pending[pick].bankIdx)
    ensures forall j :: 0 <= j < |s.pending| && Free(s, s.pending[j].bankIdx) ==> 0 <= pick <= j
  {
    var left := Unserved(s.ongoing, s.now);
    UnservedContents(s.ongoing, s.now);
    forall j | 0 <= j < |s.pending|
      ensures IsCandidate(left, Assessed(s.pending[j], banks, s.now)) <==> Free(s, s.pending[j].bankIdx)
      ensures Assessed(s.pending[j], banks, s.now).status.Miss?
    {
      AssessedIsMiss(s.pending[j], banks, s.now);
      CandidateIffFree(s, Assessed(s.pending[j], banks, s.now));
    }
  }

  /** The requests of one bank are scheduled in their order of arrival. */
  lemma SameBankInOrder(s: State, banks: seq<Bank>, t: State, pick: int)
    requires Started(s) && AllClosed(banks) && IsCycle(s, banks, t, pick)
    ensures forall j :: 0 <= j < pick ==> s.pending[j].bankIdx != s.pending[pick].bankIdx
  {
    PickIsOldestFree(s, banks, t, pick);
  }

  lemma CycleKeepsStarted(s: State, banks: seq<Bank>, t: State, pick: int)
    requires Started(s) && AllClosed(banks) && IsCycle(s, banks, t, pick)
    ensures Started(t)
    ensures forall i :: 0 <= i < |t.ongoing| ==>
              t.ongoing[i] in s.ongoing || (pick >= 0 && i == |t.ongoing| - 1 && t.ongoing[i].bank.start == s.now
                                            && t.ongoing[i].bankIdx == s.pending[pick].bankIdx)
  {
    UnservedContents(s.ongoing, s.now);
    if pick >= 0 {
      AssessedIsMiss(s.pending[pick], banks, s.now);
    }
    forall i | 0 <= i < |t.ongoing|
      ensures t.ongoing[i] in s.ongoing || (pick >= 0 && i == |t.ongoing| - 1 && t.ongoing[i].bank.start == s.now
                                            && t.ongoing[i].bankIdx == s.pending[pick].bankIdx)
    {
      assert t.ongoing[i] in t.ongoing;
    }
  }

  // ---- the oldest request ----

  /** `r` has been the oldest pending request since cycle `since`: nothing of its bank has started
      from then on, and nothing at all once its bank had to be free. */
  ghost predicate Waiting(s: State, r: Request, since: int) {
    && Started(s)
    && s.pending != [] && SameRequest(s.pending[0], r)
    && forall i :: 0 <= i < |s.ongoing| ==>
         && (s.ongoing[i].bankIdx == r.bankIdx ==> s.ongoing[i].bank.start < since)
         && s.ongoing[i].bank.start < since + 2 * BANK_TIME - 1
  }

  lemma WaitingGoesOn(s: State, banks: seq<Bank>, t: State, pick: int, r: Request, since: int)
    requires Waiting(s, r, since) && AllClosed(banks) && IsCycle(s, banks, t, pick) && pick != 0
    ensures Waiting(t, r, since)
  {
    PickIsOldestFree(s, banks, t, pick);
    CycleKeepsStarted(s, banks, t, pick);
    if pick > 0 {
      OnlyEarlier(s, banks, t, pick, r, since);
    }
  }

  /** Others start before the waiting request only while its bank is busy: afterwards whatever blocks
      it blocks everyone. */
  lemma OnlyEarlier(s: State, banks: seq<Bank>, t: State, pick: int, r: Request, since: int)
    requires Waiting(s, r, since) && AllClosed(banks) && IsCycle(s, banks, t, pick) && pick > 0
    ensures s.pending[pick].bankIdx != r.bankIdx
    ensures s.now < since + 2 * BANK_TIME - 1
  {
    PickIsOldestFree(s, banks, t, pick);
    assert !Free(s, s.pending[0].bankIdx);
  }

  lemma WaitingEnds(s: State, banks: seq<Bank>, t: State, pick: int, r: Request, since: int)
    requires Waiting(s, r, since) && AllClosed(banks) && IsCycle(s, banks, t, pick)
    requires s.now >= since + MAX_WAIT
    ensures pick == 0
  {
    PickIsOldestFree(s, banks, t, pick);
    assert Free(s, s.pending[0].bankIdx);
  }

  // ---- whole runs ----

  /** A run of the controller, with the requests that arrive before each cycle and the one it picks. */
  ghost predicate IsRun(run: nat -> State, arrivals: nat -> seq<Request>, picks: nat -> int, banks: seq<Bank>) {
    && AllClosed(banks)
    && run(0) == State(0, [], [])
    && (forall t: nat :: StateOk(run(t)) && AllOk(arrivals(t)))
    && (forall t: nat, u: nat :: u == t + 1 ==> IsCycle(Arrived(run(t), arrivals(t)), banks, run(u), picks(t)))
  }

  lemma {:induction false} RunIsStarted(run: nat -> State, arrivals: nat -> seq<Request>, picks: nat -> int,
                                        banks: seq<Bank>, t: nat)
    requires IsRun(run, arrivals, picks, banks)
    ensures Started(run(t)) && run(t).now == t
  {
    if t > 0 {
      RunIsStarted(run, arrivals, picks, banks, t - 1);
      CycleKeepsStarted(Arrived(run(t - 1), arrivals(t - 1)), banks, run(t), picks(t - 1));
    }
  }

  lemma {:induction false} WaitsUntil(run: nat -> State, arrivals: nat -> seq<Request>, picks: nat -> int,
                                      banks: seq<Bank>, r: Request, since: nat, now: nat) returns (t: nat)
    requires IsRun(run, arrivals, picks, banks)
    requires since <= now <= since + MAX_WAIT && Waiting(Arrived(run(now), arrivals(now)), r, since)
    requires run(now).now == now
    ensures now <= t <= since + MAX_WAIT && picks(t) == 0
    ensures Arrived(run(t), arrivals(t)).pending != [] && SameRequest(Arrived(run(t), arrivals(t)).pending[0], r)
    decreases since + MAX_WAIT - now
  {
    var s := Arrived(run(now), arrivals(now));
    t := now;
    if picks(now) != 0 {
      if now == since + MAX_WAIT {
        WaitingEnds(s, banks, run(now + 1), picks(now), r, since);
      } else {
        WaitingGoesOn(s, banks, run(now + 1), picks(now), r, since);
        t := WaitsUntil(run, arrivals, picks, banks, r, since, now + 1);
      }
    }
  }

  /** The oldest pending request is scheduled within MAX_WAIT cycles. */
  lemma OldestIsScheduled(run: nat -> State, arrivals: nat -> seq<Request>, picks: nat -> int,
                          banks: seq<Bank>, since: nat) returns (t: nat)
    requires IsRun(run, arrivals, picks, banks) && Arrived(run(since), arrivals(since)).pending != []
    ensures since <= t <= since + MAX_WAIT && picks(t) == 0
    ensures var oldest := Arrived(run(since), arrivals(since)).pending[0];
            && Arrived(run(t), arrivals(t)).pending != []
            && SameRequest(Arrived(run(t), arrivals(t)).pending[0], oldest)
  {
    RunIsStarted(run, arrivals, picks, banks, since);
    var s := Arrived(run(since), arrivals(since));
    t := WaitsUntil(run, arrivals, picks, banks, s.pending[0], since, since);
  }

  /** Every pending request is scheduled: one with `k` older ones waits for at most `k + 1` longest waits. */
  lemma {:induction false} EveryRequestIsScheduled(run: nat -> State, arrivals: nat -> seq<Request>, picks: nat -> int,
                                                   banks: seq<Bank>, since: nat, k: nat) returns (t: nat, i: nat)
    requires IsRun(run, arrivals, picks, banks) && k < |Arrived(run(since), arrivals(since)).pending|
    ensures since <= t < since + (MAX_WAIT + 1) * (k + 1)
    ensures i <= k && picks(t) == i && i < |Arrived(run(t), arrivals(t)).pending|
    ensures SameRequest(Arrived(run(t), arrivals(t)).pending[i], Arrived(run(since), arrivals(since)).pending[k])
    decreases k, 1, 0
  {
    var oldest := OldestIsScheduled(run, arrivals, picks, banks, since);
    t, i := ScheduledBy(run, arrivals, picks, banks, since, k, oldest);
  }

  /** The same, once the oldest request is known to be picked in cycle `oldest`. */
  lemma {:induction false} ScheduledBy(run: nat -> State, arrivals: nat -> seq<Request>, picks: nat -> int,
                                       banks: seq<Bank>, since: nat, k: nat, oldest: nat) returns (t: nat, i: nat)
    requires IsRun(run, arrivals, picks, banks) && k < |Arrived(run(since), arrivals(since)).pending|
    requires since <= oldest && picks(oldest) == 0
    ensures since <= t < oldest + 1 + (MAX_WAIT + 1) * k
    ensures i <= k && picks(t) == i && i < |Arrived(run(t), arrivals(t)).pending|
    ensures SameRequest(Arrived(run(t), arrivals(t)).pending[i], Arrived(run(since), arrivals(since)).pending[k])
    decreases k, 0, oldest - since
  {
    hide IsRun, Arrived, SameRequest;
    var pick := picks(since);
    if pick == k {
      t, i := since, k;
      SameAsItself(Arrived(run(since), arrivals(since)).pending[k]);
    } else {
      var next: nat := since + 1;
      var j := NextPosition(run, arrivals, picks, banks, since, k, next);
      if 0 <= pick < k {
        t, i := EveryRequestIsScheduled(run, arrivals, picks, banks, next, j);
      } else {
        t, i := ScheduledBy(run, arrivals, picks, banks, next, j, oldest);
      }
      StillSame(Arrived(run(since), arrivals(since)).pending[k], Arrived(run(next), arrivals(next)).pending[j],
                Arrived(run(t), arrivals(t)).pending[i]);
    }
  }

  lemma SameAsItself(r: Request)
    ensures SameRequest(r, r)
  {
  }

  lemma StillSame(r: Request, q: Request, p: Request)
    requires SameRequest(q, r) && SameRequest(p, q)
    ensures SameRequest(p, r)
  {
  }

  /** Where a request that is not picked is pending in the next cycle. */
  lemma NextPosition(run: nat -> State, arrivals: nat -> seq<Request>, picks: nat -> int, banks: seq<Bank>, since: nat,
                     k: nat, next: nat) returns (j: nat)
    requires IsRun(run, arrivals, picks, banks) && k < |Arrived(run(since), arrivals(since)).pending|
    requires picks(since) != k && next == since + 1
    ensures j == if 0 <= picks(since) < k then k - 1 else k
    ensures j < |Arrived(run(next), arrivals(next)).pending|
    ensures SameRequest(Arrived(run(next), arrivals(next)).pending[j], Arrived(run(since), arrivals(since)).pending[k])
  {
    j := if 0 <= picks(since) < k then k - 1 else k;
    PositionAfter(Arrived(run(since), arrivals(since)), banks, run(next), picks(since), k);
  }

  /** A request that is not picked moves up by one place or keeps its place. */
  lemma PositionAfter(s: State, banks: seq<Bank>, t: State, pick: int, k: nat)
    requires StateOk(s) && |banks| == NUM_BANKS && IsCycle(s, banks, t, pick) && k < |s.pending| && pick != k
    ensures var j := if 0 <= pick < k then k - 1 else k;
            j < |t.pending| && SameRequest(t.pending[j], s.pending[k])
  {
    if pick >= 0 {
      assert Without(s.pending, pick)[if pick < k then k - 1 else k] == s.pending[k];
    }
  }
}
