/**
 Which refreshes the ledger's operations request, in plain numbers: a bank gets one early when it is seven slots
 behind, its slot may pass as long as it is not eight behind, and every bank refreshes its subarrays in turn.
 */
module RefreshRequests {
  import opened RefreshLedger

  /** How many more refreshes of a bank one state of the books has requested than another. */
  function More(k: Books, t: Books, r: nat, b: nat): int {
    Count(t.targets, r, b) - Count(k.targets, r, b)
  }

  lemma EnteredCounts(k: Books, r: nat, b: nat, subarrays: nat, q: nat, c: nat)
    requires r < |k.backlog| && b < |k.backlog[r]| && r < |k.next| && b < |k.next[r]| && subarrays > 0
    ensures More(k, Entered(k, r, b, subarrays), q, c) == if q == r && c == b then 1 else 0
  {
    CountPush(k.targets, Target(r, b, k.next[r][b]), q, c);
  }

  // ---- early refreshes ----

  /** Bank b is idle and more than six refreshes behind, and no such bank comes before it, looking round from start. */
  ghost predicate IsFirstBehind(row: seq<int>, idle: seq<bool>, start: nat, b: nat)
    requires |row| == |idle| > 0
  {
    exists c :: 0 <= c < |row| && IsFirstAt(row, idle, start, b, c)
  }

  predicate IsLate(row: seq<int>, idle: seq<bool>, b: nat)
    requires b < |row| == |idle|
  {
    idle[b] && row[b] <= -7
  }

  ghost predicate IsFirstAt(row: seq<int>, idle: seq<bool>, start: nat, b: nat, c: nat)
    requires |row| == |idle| > 0
  {
    && (start + c) % |row| == b && IsLate(row, idle, b)
    && forall d :: 0 <= d < c ==> !IsLate(row, idle, Around(start, d, |row|))
  }

  lemma AroundIs(start: nat, c: nat, banks: nat)
    requires banks > 0
    ensures Around(start, c, banks) == (start + c) % banks
  {
  }

  lemma FirstDueIs(row: seq<int>, idle: seq<bool>, start: nat, b: nat)
    requires |row| == |idle| > 0
    ensures
      var c := FirstDue(row, idle, start, 0);
      IsFirstBehind(row, idle, start, b) <==> c < |row| && Around(start, c, |row|) == b
  {
    var c := FirstDue(row, idle, start, 0);
    forall d: nat | d < |row|
      ensures IsDue(row, idle, start, d) <==> IsLate(row, idle, Around(start, d, |row|))
    {
    }
    if c < |row| && Around(start, c, |row|) == b {
      AroundIs(start, c, |row|);
      assert IsFirstAt(row, idle, start, b, c);
    }
    if IsFirstBehind(row, idle, start, b) {
      var d: nat :| d < |row| && IsFirstAt(row, idle, start, b, d);
      AroundIs(start, d, |row|);
      assert IsDue(row, idle, start, d);
      assert !(c < d);
    }
  }

  lemma {:induction false} EarlyElsewhere(k: Books, start: seq<nat>, idle: seq<seq<bool>>, m: nat, r: nat,
                                          ranks: nat, banks: nat, subarrays: nat)
    requires BooksOk(k, ranks, banks, subarrays) && m <= r < ranks == |start| == |idle|
    requires forall q :: 0 <= q < ranks ==> |idle[q]| == banks
    ensures AfterEarly(k, start, idle, m, ranks, banks, subarrays).backlog[r] == k.backlog[r]
  {
    if m > 0 {
      EarlyElsewhere(k, start, idle, m - 1, r, ranks, banks, subarrays);
    }
  }

  /** In read mode a bank gets an early refresh exactly if it is the first idle one of its rank that is seven
      behind, and it gets one. */
  lemma {:induction false} EarlyRequests(k: Books, start: seq<nat>, idle: seq<seq<bool>>, m: nat, r: nat, b: nat,
                                         ranks: nat, banks: nat, subarrays: nat)
    requires BooksOk(k, ranks, banks, subarrays) && m <= ranks == |start| == |idle| && r < ranks && b < banks
    requires forall q :: 0 <= q < ranks ==> |idle[q]| == banks
    ensures More(k, AfterEarly(k, start, idle, m, ranks, banks, subarrays), r, b) ==
            if r < m && IsFirstBehind(k.backlog[r], idle[r], start[r], b) then 1 else 0
  {
    if m > 0 {
      var before, last := AfterEarly(k, start, idle, m - 1, ranks, banks, subarrays), m - 1;
      EarlyRequests(k, start, idle, last, r, b, ranks, banks, subarrays);
      EarlyElsewhere(k, start, idle, last, last, ranks, banks, subarrays);
      FirstDueIs(k.backlog[last], idle[last], start[last], b);
      var c := FirstDue(before.backlog[last], idle[last], start[last], 0);
      if c < banks {
        EnteredCounts(before, last, Around(start[last], c, banks), subarrays, r, b);
      }
    }
  }

  // ---- refreshes behind writes ----

  lemma {:induction false} WritesElsewhere(k: Books, chosen: seq<int>, m: nat, r: nat,
                                           ranks: nat, banks: nat, subarrays: nat)
    requires BooksOk(k, ranks, banks, subarrays) && m <= r < ranks == |chosen|
    requires forall q :: 0 <= q < ranks ==> chosen[q] < banks
    ensures AfterWrites(k, chosen, m, ranks, banks, subarrays).backlog[r] == k.backlog[r]
  {
    if m > 0 {
      WritesElsewhere(k, chosen, m - 1, r, ranks, banks, subarrays);
    }
  }

  /** When write mode begins, the chosen bank of each rank gets a refresh unless it is eight ahead. */
  lemma {:induction false} WritesRequest(k: Books, chosen: seq<int>, m: nat, r: nat, b: nat,
                                         ranks: nat, banks: nat, subarrays: nat)
    requires BooksOk(k, ranks, banks, subarrays) && m <= ranks == |chosen| && r < ranks && b < banks
    requires forall q :: 0 <= q < ranks ==> chosen[q] < banks
    ensures More(k, AfterWrites(k, chosen, m, ranks, banks, subarrays), r, b) ==
            if r < m && chosen[r] == b && k.backlog[r][b] < 8 then 1 else 0
  {
    if m > 0 {
      var before, last := AfterWrites(k, chosen, m - 1, ranks, banks, subarrays), m - 1;
      WritesRequest(k, chosen, last, r, b, ranks, banks, subarrays);
      WritesElsewhere(k, chosen, last, last, ranks, banks, subarrays);
      if chosen[last] >= 0 {
        EnteredCounts(before, last, chosen[last], subarrays, r, b);
      }
    }
  }

  /** What is requested ahead of the slots: early refreshes in read mode, one behind the writes when they begin, and
      nothing as long as they go on. */
  lemma AheadRequests(k: Books, wasWriting: bool, writing: bool, inputs: Inputs, r: nat, b: nat,
                      ranks: nat, banks: nat, subarrays: nat)
    requires BooksOk(k, ranks, banks, subarrays) && InputsOk(inputs, ranks, banks) && r < ranks && b < banks
    ensures
      var more := More(k, AfterAhead(k, wasWriting, writing, inputs, ranks, banks, subarrays), r, b);
      more == if !writing && IsFirstBehind(k.backlog[r], inputs.idle[r], inputs.start[r], b) then 1
              else if writing && !wasWriting && inputs.chosen[r] == b && k.backlog[r][b] < 8 then 1
              else 0
  {
    EarlyRequests(k, inputs.start, inputs.idle, ranks, r, b, ranks, banks, subarrays);
    WritesRequest(k, inputs.chosen, ranks, r, b, ranks, banks, subarrays);
  }

  // ---- slots ----

  lemma {:induction false} SlotsElsewhere(k: Books, mayskip: bool, quiet: seq<bool>, m: nat, r: nat,
                                          ranks: nat, banks: nat, subarrays: nat)
    requires BooksOk(k, ranks, banks, subarrays) && m <= r < ranks == |quiet|
    ensures
      var t := AfterSlot(k, mayskip, quiet, m, ranks, banks, subarrays);
      t.backlog[r] == k.backlog[r] && t.turn[r] == k.turn[r]
  {
    if m > 0 {
      SlotsElsewhere(k, mayskip, quiet, m - 1, r, ranks, banks, subarrays);
    }
  }

  lemma RankSlotRequests(k: Books, mayskip: bool, quiet: bool, q: nat, r: nat, b: nat,
                         ranks: nat, banks: nat, subarrays: nat)
    requires BooksOk(k, ranks, banks, subarrays) && q < ranks && r < ranks && b < banks
    ensures More(k, AfterRankSlot(k, mayskip, quiet, q, banks, subarrays), r, b) ==
            if r == q && b == k.turn[q] && !(mayskip && !quiet && k.backlog[q][b] - 1 > -8) then 1 else 0
  {
    EnteredCounts(SlotPassed(k, q, banks), q, k.turn[q], subarrays, r, b);
    hide Count;
  }

  /** The slot of a bank requests its refresh, unless refreshes may be skipped, there is something else to do, and the
      bank, with this slot, is less than eight behind. */
  lemma {:induction false} SlotRequests(k: Books, mayskip: bool, quiet: seq<bool>, m: nat, r: nat, b: nat,
                                        ranks: nat, banks: nat, subarrays: nat)
    requires BooksOk(k, ranks, banks, subarrays) && m <= ranks == |quiet| && r < ranks && b < banks
    ensures More(k, AfterSlot(k, mayskip, quiet, m, ranks, banks, subarrays), r, b) ==
            if r < m && b == k.turn[r] && !(mayskip && !quiet[r] && k.backlog[r][b] - 1 > -8) then 1 else 0
  {
    if m > 0 {
      var before, last := AfterSlot(k, mayskip, quiet, m - 1, ranks, banks, subarrays), m - 1;
      SlotRequests(k, mayskip, quiet, last, r, b, ranks, banks, subarrays);
      SlotsElsewhere(k, mayskip, quiet, last, last, ranks, banks, subarrays);
      RankSlotRequests(before, mayskip, quiet[last], last, r, b, ranks, banks, subarrays);
      hide AfterRankSlot, BooksOk, Count;
    }
  }
}
