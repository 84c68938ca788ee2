/**
 The per-bank refresh scheduler of DARP and DSARP (lab 3): refreshes may be pulled in early or skipped for
 a while, and a ledger per bank keeps count.  Which banks are idle, which requests wait, and the random
 choices are inputs.  Refreshes are taken to find room in the controller's queue.
 */
module RefreshLedger {

  const BACKLOG_MAX: int := 8
  const BACKLOG_MIN: int := -8
  const EARLY_PULL_THRESHOLD: int := -6

  /** A refresh request for a subarray of a bank. */
  datatype Target = Target(rank: nat, bank: nat, subarray: int)

  /** How many of the refreshes are for a bank. */
  function Count(targets: seq<Target>, rank: nat, bank: nat): nat {
    if targets == [] then 0 else
      var t := targets[|targets| - 1];
      Count(targets[..|targets| - 1], rank, bank) + if t.rank == rank && t.bank == bank then 1 else 0
  }

  /** The bank whose turn it is at slot n: the slots go round the banks. */
  function Turn(n: nat, banks: nat): (b: nat)
    requires banks > 0
    ensures b < banks
  {
    if n == 0 then 0 else (Turn(n - 1, banks) + 1) % banks
  }

  /** How many of the first n refresh slots fall to a bank. */
  function Slots(n: nat, banks: nat, bank: nat): nat
    requires banks > 0
  {
    if n == 0 then 0 else Slots(n - 1, banks, bank) + if Turn(n - 1, banks) == bank then 1 else 0
  }

  lemma CountPush(targets: seq<Target>, t: Target, rank: nat, bank: nat)
    ensures Count(targets + [t], rank, bank) ==
              Count(targets, rank, bank) + if t.rank == rank && t.bank == bank then 1 else 0
  {
    assert (targets + [t])[..|targets|] == targets;
  }

  // ---- what the operations do to the books of all banks ----

  /** For every rank the bank whose turn is next, the ledger, and the next subarray of every bank; and the
      refreshes requested so far. */
  datatype Books = Books(turn: seq<nat>, backlog: seq<seq<int>>, next: seq<seq<int>>, targets: seq<Target>)

  ghost predicate BooksOk(k: Books, ranks: nat, banks: nat, subarrays: nat) {
    && 0 < banks <= subarrays
    && |k.turn| == |k.backlog| == |k.next| == ranks
    && forall r :: 0 <= r < ranks ==> k.turn[r] < banks && |k.backlog[r]| == banks && |k.next[r]| == subarrays
  }

  /** A refresh of the next subarray of a bank is requested. */
  ghost function Entered(k: Books, r: nat, b: nat, subarrays: nat): Books
    requires r < |k.backlog| && b < |k.backlog[r]| && r < |k.next| && b < |k.next[r]| && subarrays > 0
  {
    k.(backlog := k.backlog[r := k.backlog[r][b := k.backlog[r][b] + 1]],
       next := k.next[r := k.next[r][b := (k.next[r][b] + 1) % subarrays]],
       targets := k.targets + [Target(r, b, k.next[r][b])])
  }

  /** The c-th bank from `start` on, round the banks. */
  function Around(start: nat, c: nat, banks: nat): (b: nat)
    requires banks > 0
    ensures b < banks
  {
    (start + c) % banks
  }

  /** It is idle and running out of credit. */
  predicate IsDue(row: seq<int>, idle: seq<bool>, start: nat, c: nat)
    requires c < |row| == |idle|
  {
    idle[Around(start, c, |row|)] && row[Around(start, c, |row|)] < EARLY_PULL_THRESHOLD
  }

  /** How far the first due bank is, looking round the banks; or the number of banks. */
  ghost function FirstDue(row: seq<int>, idle: seq<bool>, start: nat, from: nat): (b: nat)
    requires from <= |row| == |idle|
    ensures from <= b <= |row|
    ensures b < |row| ==> IsDue(row, idle, start, b)
    ensures forall c :: from <= c < b ==> !IsDue(row, idle, start, c)
    decreases |row| - from
  {
    if from == |row| || IsDue(row, idle, start, from) then from else FirstDue(row, idle, start, from + 1)
  }

  /** An early refresh in one rank: its first due bank, if it has one, is entered. */
  ghost function AfterFirstDue(k: Books, r: nat, start: nat, idle: seq<bool>, subarrays: nat): Books
    requires r < |k.backlog| && r < |k.next| && 0 < |k.backlog[r]| == |idle| <= |k.next[r]| && subarrays > 0
  {
    var b := FirstDue(k.backlog[r], idle, start, 0);
    if b == |idle| then k else Entered(k, r, Around(start, b, |idle|), subarrays)
  }

  /** Early refreshes of the first n ranks. */
  ghost function AfterEarly(k: Books, start: seq<nat>, idle: seq<seq<bool>>, n: nat,
                            ranks: nat, banks: nat, subarrays: nat): (t: Books)
    requires BooksOk(k, ranks, banks, subarrays) && n <= ranks == |start| == |idle|
    requires forall r :: 0 <= r < ranks ==> |idle[r]| == banks
    ensures BooksOk(t, ranks, banks, subarrays)
  {
    if n == 0 then k else
      AfterFirstDue(AfterEarly(k, start, idle, n - 1, ranks, banks, subarrays), n - 1, start[n - 1], idle[n - 1],
                    subarrays)
  }

  /** A refresh behind writes in one rank: its chosen bank, if any, is entered, if it has credit left. */
  ghost function AfterWrite(k: Books, r: nat, b: int, ranks: nat, banks: nat, subarrays: nat): (t: Books)
    requires BooksOk(k, ranks, banks, subarrays) && r < ranks && b < banks
    ensures BooksOk(t, ranks, banks, subarrays)
  {
    if b < 0 || k.backlog[r][b] >= BACKLOG_MAX then k else Entered(k, r, b, subarrays)
  }

  /** The same in the first n ranks. */
  ghost function AfterWrites(k: Books, chosen: seq<int>, n: nat, ranks: nat, banks: nat, subarrays: nat): (t: Books)
    requires BooksOk(k, ranks, banks, subarrays) && n <= ranks == |chosen|
    requires forall r :: 0 <= r < ranks ==> chosen[r] < banks
    ensures BooksOk(t, ranks, banks, subarrays)
  {
    if n == 0 then k
    else AfterWrite(AfterWrites(k, chosen, n - 1, ranks, banks, subarrays), n - 1, chosen[n - 1], ranks, banks,
                    subarrays)
  }

  /** What the controller's choices are in a tick: the bank that is refreshed behind the writes of each rank,
      if any; where the search for an idle bank starts; which banks are idle; and which ranks have nothing
      else to do. */
  datatype Inputs = Inputs(chosen: seq<int>, start: seq<nat>, idle: seq<seq<bool>>, quiet: seq<bool>)

  predicate InputsOk(inputs: Inputs, ranks: nat, banks: nat) {
    && |inputs.chosen| == |inputs.start| == |inputs.idle| == |inputs.quiet| == ranks
    && forall r :: 0 <= r < ranks ==> inputs.chosen[r] < banks && |inputs.idle[r]| == banks
  }

  /** Refreshes ahead of their slots: behind the writes when write mode begins, early in read mode. */
  ghost function AfterAhead(k: Books, wasWriting: bool, writing: bool, inputs: Inputs,
                            ranks: nat, banks: nat, subarrays: nat): (t: Books)
    requires BooksOk(k, ranks, banks, subarrays) && InputsOk(inputs, ranks, banks)
    ensures BooksOk(t, ranks, banks, subarrays)
  {
    if !writing then AfterEarly(k, inputs.start, inputs.idle, ranks, ranks, banks, subarrays)
    else if wasWriting then k
    else AfterWrites(k, inputs.chosen, ranks, ranks, banks, subarrays)
  }

  /** A slot of rank r: the bank whose turn it is falls behind by one, and the turn passes on. */
  ghost function SlotPassed(k: Books, r: nat, banks: nat): Books
    requires r < |k.turn| && r < |k.backlog| && k.turn[r] < |k.backlog[r]| && banks > 0
  {
    var b := k.turn[r];
    k.(turn := k.turn[r := (b + 1) % banks], backlog := k.backlog[r := k.backlog[r][b := k.backlog[r][b] - 1]])
  }

  /** ... and gets the refresh, unless it may be skipped; it may not if nothing else is to be done or the
      bank would be at the limit. */
  ghost function AfterRankSlot(k: Books, mayskip: bool, quiet: bool, r: nat, banks: nat, subarrays: nat): Books
    requires r < |k.turn| && r < |k.backlog| && k.turn[r] < |k.backlog[r]| && banks > 0
    requires r < |k.next| && k.turn[r] < |k.next[r]| && subarrays > 0
  {
    var b, p := k.turn[r], SlotPassed(k, r, banks);
    if mayskip && !quiet && p.backlog[r][b] > BACKLOG_MIN then p else Entered(p, r, b, subarrays)
  }

  /** A refresh slot for the first n ranks. */
  ghost function AfterSlot(k: Books, mayskip: bool, quiet: seq<bool>, n: nat,
                           ranks: nat, banks: nat, subarrays: nat): (t: Books)
    requires BooksOk(k, ranks, banks, subarrays) && n <= ranks == |quiet|
    ensures BooksOk(t, ranks, banks, subarrays)
  {
    if n == 0 then k else
      AfterRankSlot(AfterSlot(k, mayskip, quiet, n - 1, ranks, banks, subarrays), mayskip, quiet[n - 1], n - 1,
                    banks, subarrays)
  }

  // ---- the limits ----

  /** The books of a rank after n slots: the subarrays of every bank take turns, and its ledger has refreshes requested
      less slots elapsed.  Of bank `behind`, if
      there is one, a slot has just elapsed, so that it may be one refresh further behind. */
  ghost predicate RankOk(k: Books, r: nat, n: nat, behind: int, banks: nat, subarrays: nat)
    requires r < |k.turn| && r < |k.backlog| && r < |k.next| && 0 < banks <= subarrays
    requires |k.backlog[r]| == banks && |k.next[r]| == subarrays
  {
    && k.turn[r] == Turn(n, banks)
    && forall b :: 0 <= b < banks ==>
         && k.next[r][b] == Turn(Count(k.targets, r, b), subarrays)
         && k.backlog[r][b] == Count(k.targets, r, b) - Slots(n, banks, b)
         && (if b == behind then BACKLOG_MIN <= k.backlog[r][b] < BACKLOG_MAX
             else BACKLOG_MIN < k.backlog[r][b] <= BACKLOG_MAX)
  }

  /** The slots of rank r, when the first m ranks have had n + 1 slots, and the others n. */
  function Elapsed(n: nat, m: nat, r: nat): nat {
    if r < m then n + 1 else n
  }

  ghost predicate LedgerOk(k: Books, n: nat, m: nat, ranks: nat, banks: nat, subarrays: nat) {
    && BooksOk(k, ranks, banks, subarrays)
    && forall r :: 0 <= r < ranks ==> RankOk(k, r, Elapsed(n, m, r), -1, banks, subarrays)
  }

  /** A refresh of a bank is for the subarray whose turn it is. */
  lemma EnteredTarget(k: Books, r: nat, b: nat, n: nat, behind: int, ranks: nat, banks: nat, subarrays: nat)
    requires BooksOk(k, ranks, banks, subarrays) && r < ranks && b < banks
    requires RankOk(k, r, n, behind, banks, subarrays)
    ensures Entered(k, r, b, subarrays).targets ==
            k.targets + [Target(r, b, Turn(Count(k.targets, r, b), subarrays))]
  {
  }

  /** A refresh of one bank changes nothing for the other ranks ... */
  lemma EnteredElsewhere(k: Books, r: nat, b: nat, q: nat, n: nat, ranks: nat, banks: nat, subarrays: nat)
    requires BooksOk(k, ranks, banks, subarrays) && r < ranks && b < banks && q < ranks && q != r
    requires RankOk(k, q, n, -1, banks, subarrays)
    ensures RankOk(Entered(k, r, b, subarrays), q, n, -1, banks, subarrays)
  {
    var t := Target(r, b, k.next[r][b]);
    forall c: nat
      ensures Count(k.targets + [t], q, c) == Count(k.targets, q, c)
    {
      CountPush(k.targets, t, q, c);
    }
  }

  /** ... and lets its own bank catch up, or get ahead if it is not too far ahead. */
  lemma EnteredHere(k: Books, r: nat, b: nat, n: nat, behind: int, ranks: nat, banks: nat, subarrays: nat)
    requires BooksOk(k, ranks, banks, subarrays) && r < ranks && b < banks
    requires RankOk(k, r, n, behind, banks, subarrays)
    requires behind == b || (behind == -1 && k.backlog[r][b] < BACKLOG_MAX)
    ensures RankOk(Entered(k, r, b, subarrays), r, n, -1, banks, subarrays)
  {
    var t, now := Target(r, b, k.next[r][b]), Count(k.targets, r, b);
    var after := Entered(k, r, b, subarrays);
    forall c: nat
      ensures Count(k.targets + [t], r, c) == Count(k.targets, r, c) + if b == c then 1 else 0
    {
      CountPush(k.targets, t, r, c);
    }
    assert after.next[r][b] == Turn(now + 1, subarrays);
    assert Count(after.targets, r, b) == now + 1;
    hide Turn, Count, Slots;
  }

  lemma EnteredKeeps(k: Books, r: nat, b: nat, n: nat, ranks: nat, banks: nat, subarrays: nat)
    requires LedgerOk(k, n, 0, ranks, banks, subarrays) && r < ranks && b < banks && k.backlog[r][b] < BACKLOG_MAX
    ensures LedgerOk(Entered(k, r, b, subarrays), n, 0, ranks, banks, subarrays)
  {
    assert RankOk(k, r, Elapsed(n, 0, r), -1, banks, subarrays);
    EnteredHere(k, r, b, n, -1, ranks, banks, subarrays);
    forall q | 0 <= q < ranks && q != r
      ensures RankOk(Entered(k, r, b, subarrays), q, Elapsed(n, 0, q), -1, banks, subarrays)
    {
      assert RankOk(k, q, Elapsed(n, 0, q), -1, banks, subarrays);
      EnteredElsewhere(k, r, b, q, n, ranks, banks, subarrays);
    }
  }

  lemma FirstDueKeeps(k: Books, r: nat, start: nat, idle: seq<bool>, n: nat, ranks: nat, banks: nat, subarrays: nat)
    requires LedgerOk(k, n, 0, ranks, banks, subarrays) && r < ranks && |idle| == banks
    ensures LedgerOk(AfterFirstDue(k, r, start, idle, subarrays), n, 0, ranks, banks, subarrays)
  {
    var b := FirstDue(k.backlog[r], idle, start, 0);
    if b < banks {
      EnteredKeeps(k, r, Around(start, b, banks), n, ranks, banks, subarrays);
    }
  }

  lemma {:induction false} EarlyKeeps(k: Books, start: seq<nat>, idle: seq<seq<bool>>, m: nat,
                                      n: nat, ranks: nat, banks: nat, subarrays: nat)
    requires LedgerOk(k, n, 0, ranks, banks, subarrays) && m <= ranks == |start| == |idle|
    requires forall r :: 0 <= r < ranks ==> |idle[r]| == banks
    ensures LedgerOk(AfterEarly(k, start, idle, m, ranks, banks, subarrays), n, 0, ranks, banks, subarrays)
  {
    if m > 0 {
      var before := AfterEarly(k, start, idle, m - 1, ranks, banks, subarrays);
      assert AfterEarly(k, start, idle, m, ranks, banks, subarrays) ==
             AfterFirstDue(before, m - 1, start[m - 1], idle[m - 1], subarrays);
      EarlyKeeps(k, start, idle, m - 1, n, ranks, banks, subarrays);
      hide AfterEarly, AfterFirstDue, RankOk;
      FirstDueKeeps(before, m - 1, start[m - 1], idle[m - 1], n, ranks, banks, subarrays);
    }
  }

  lemma WriteKeeps(k: Books, r: nat, b: int, n: nat, ranks: nat, banks: nat, subarrays: nat)
    requires LedgerOk(k, n, 0, ranks, banks, subarrays) && r < ranks && b < banks
    ensures LedgerOk(AfterWrite(k, r, b, ranks, banks, subarrays), n, 0, ranks, banks, subarrays)
  {
    if b >= 0 && k.backlog[r][b] < BACKLOG_MAX {
      EnteredKeeps(k, r, b, n, ranks, banks, subarrays);
    }
  }

  lemma {:induction false} WritesKeep(k: Books, chosen: seq<int>, m: nat, n: nat, ranks: nat, banks: nat,
                                      subarrays: nat)
    requires LedgerOk(k, n, 0, ranks, banks, subarrays) && m <= ranks == |chosen|
    requires forall r :: 0 <= r < ranks ==> chosen[r] < banks
    ensures LedgerOk(AfterWrites(k, chosen, m, ranks, banks, subarrays), n, 0, ranks, banks, subarrays)
  {
    if m > 0 {
      var before := AfterWrites(k, chosen, m - 1, ranks, banks, subarrays);
      assert AfterWrites(k, chosen, m, ranks, banks, subarrays) ==
             AfterWrite(before, m - 1, chosen[m - 1], ranks, banks, subarrays);
      WritesKeep(k, chosen, m - 1, n, ranks, banks, subarrays);
      hide AfterWrites, AfterWrite, RankOk;
      WriteKeeps(before, m - 1, chosen[m - 1], n, ranks, banks, subarrays);
    }
  }

  /** Refreshes ahead of their slots keep within the limits. */
  lemma AheadKeeps(k: Books, wasWriting: bool, writing: bool, inputs: Inputs,
                   n: nat, ranks: nat, banks: nat, subarrays: nat)
    requires LedgerOk(k, n, 0, ranks, banks, subarrays) && InputsOk(inputs, ranks, banks)
    ensures LedgerOk(AfterAhead(k, wasWriting, writing, inputs, ranks, banks, subarrays), n, 0, ranks, banks, subarrays)
  {
    EarlyKeeps(k, inputs.start, inputs.idle, ranks, n, ranks, banks, subarrays);
    WritesKeep(k, inputs.chosen, ranks, n, ranks, banks, subarrays);
  }

  /** After its slot a bank may be too far behind by one. */
  lemma PassedHere(k: Books, r: nat, n: nat, ranks: nat, banks: nat, subarrays: nat)
    requires BooksOk(k, ranks, banks, subarrays) && r < ranks && RankOk(k, r, n, -1, banks, subarrays)
    ensures RankOk(SlotPassed(k, r, banks), r, n + 1, k.turn[r], banks, subarrays)
    ensures k.backlog[r][k.turn[r]] - 1 > BACKLOG_MIN ==>
            RankOk(SlotPassed(k, r, banks), r, n + 1, -1, banks, subarrays)
  {
  }

  lemma PassedElsewhere(k: Books, r: nat, q: nat, n: nat, ranks: nat, banks: nat, subarrays: nat)
    requires BooksOk(k, ranks, banks, subarrays) && r < ranks && q < ranks && q != r
    requires RankOk(k, q, n, -1, banks, subarrays)
    ensures RankOk(SlotPassed(k, r, banks), q, n, -1, banks, subarrays)
  {
  }

  /** The slot of one rank: a skipped refresh leaves the bank within the limit, a refresh restores it. */
  lemma SlotKeeps(k: Books, mayskip: bool, quiet: bool, r: nat, n: nat, ranks: nat, banks: nat, subarrays: nat)
    requires LedgerOk(k, n, r, ranks, banks, subarrays) && r < ranks
    ensures LedgerOk(AfterRankSlot(k, mayskip, quiet, r, banks, subarrays), n, r + 1, ranks, banks, subarrays)
  {
    var b, p, m := k.turn[r], SlotPassed(k, r, banks), r + 1;
    var t := AfterRankSlot(k, mayskip, quiet, r, banks, subarrays);
    assert RankOk(t, r, n + 1, -1, banks, subarrays) by {
      assert RankOk(k, r, Elapsed(n, r, r), -1, banks, subarrays);
      PassedHere(k, r, n, ranks, banks, subarrays);
      EnteredHere(p, r, b, n + 1, b, ranks, banks, subarrays);
    }
    forall q | 0 <= q < ranks && q != r
      ensures RankOk(t, q, Elapsed(n, m, q), -1, banks, subarrays)
    {
      assert RankOk(k, q, Elapsed(n, r, q), -1, banks, subarrays);
      PassedElsewhere(k, r, q, Elapsed(n, r, q), ranks, banks, subarrays);
      EnteredElsewhere(p, r, b, q, Elapsed(n, r, q), ranks, banks, subarrays);
    }
  }

  lemma {:induction false} SlotsKeep(k: Books, mayskip: bool, quiet: seq<bool>, m: nat,
                                     n: nat, ranks: nat, banks: nat, subarrays: nat)
    requires LedgerOk(k, n, 0, ranks, banks, subarrays) && m <= ranks == |quiet|
    ensures LedgerOk(AfterSlot(k, mayskip, quiet, m, ranks, banks, subarrays), n, m, ranks, banks, subarrays)
  {
    if m > 0 {
      SlotsKeep(k, mayskip, quiet, m - 1, n, ranks, banks, subarrays);
      SlotKeeps(AfterSlot(k, mayskip, quiet, m - 1, ranks, banks, subarrays), mayskip, quiet[m - 1], m - 1,
                n, ranks, banks, subarrays);
    }
  }

  class Refresh {
    const ranks: nat
    const banks: nat
    const subarrays: nat
    const interval: nat
    /** Refreshes may be skipped: DARP or DSARP, and not just refreshes by bank. */
    const mayskip: bool
    var clk: nat
    var refreshed: nat
    var writeMode: bool
    var bankRefCounters: seq<nat>
    var backlog: seq<seq<int>>
    var subarrayRefCounters: seq<seq<int>>
    ghost var targets: seq<Target>
    ghost var slots: nat

    ghost function View(): Books
      reads this`bankRefCounters, this`backlog, this`subarrayRefCounters, this`targets
    {
      Books(bankRefCounters, backlog, subarrayRefCounters, targets)
    }

    ghost predicate Shaped()
      reads this`bankRefCounters, this`backlog, this`subarrayRefCounters, this`targets
    {
      BooksOk(View(), ranks, banks, subarrays)
    }

    ghost predicate Valid()
      reads this
    {
      && LedgerOk(View(), slots, 0, ranks, banks, subarrays)
      && interval > 0 && refreshed == slots * interval && refreshed <= clk < refreshed + interval
    }

    /** The vector of subarray counters of a rank is as long as there are subarrays, but it is indexed by
        banks: there must not be fewer subarrays than banks. */
    constructor (ranks: nat, banks: nat, subarrays: nat, interval: nat, mayskip: bool)
      requires 0 < banks <= subarrays && interval > 0
      ensures Valid() && clk == 0 && targets == [] && !writeMode
    {
      this.ranks, this.banks, this.subarrays, this.interval, this.mayskip := ranks, banks, subarrays, interval, mayskip;
      clk, refreshed, writeMode, targets, slots := 0, 0, false, [], 0;
      bankRefCounters := seq(ranks, _ => 0);
      backlog := seq(ranks, _ => seq(banks, _ => 0));
      subarrayRefCounters := seq(ranks, _ => seq(subarrays, _ => 0));
    }

    /** Request the refresh of the next subarray of a bank, and enter it into the ledger. */
    method RefreshBank(r: nat, b: nat)
      requires Shaped() && r < ranks && b < banks
      modifies this`backlog, this`subarrayRefCounters, this`targets
      ensures Shaped() && View() == Entered(old(View()), r, b, subarrays)
    {
      targets := targets + [Target(r, b, subarrayRefCounters[r][b])];
      backlog := backlog[r := backlog[r][b := backlog[r][b] + 1]];
      subarrayRefCounters := subarrayRefCounters[r := subarrayRefCounters[r]
        [b := (subarrayRefCounters[r][b] + 1) % subarrays]];
    }

    method FindDue(row: seq<int>, idle: seq<bool>, start: nat) returns (b: nat)
      requires |row| == |idle|
      ensures b == FirstDue(row, idle, start, 0)
    {
      b := 0;
      while b < |row| && !IsDue(row, idle, start, b)
        invariant b <= |row| && FirstDue(row, idle, start, b) == FirstDue(row, idle, start, 0)
      {
        b := b + 1;
      }
    }

    method EarlyInjectRank(r: nat, start: nat, idle: seq<bool>)
      requires Shaped() && r < ranks && |idle| == banks
      modifies this`backlog, this`subarrayRefCounters, this`targets
      ensures Shaped() && View() == AfterFirstDue(old(View()), r, start, idle, subarrays)
    {
      var b := FindDue(backlog[r], idle, start);
      if b < banks {
        RefreshBank(r, Around(start, b, banks));
      }
    }

    /** Early refreshes: in every rank, from a random bank on, the first idle bank that is running out of
        credit is refreshed. */
    method EarlyInject(writing: bool, start: seq<nat>, idle: seq<seq<bool>>)
      requires Shaped() && |start| == ranks && |idle| == ranks && forall r :: 0 <= r < ranks ==> |idle[r]| == banks
      modifies this`backlog, this`subarrayRefCounters, this`targets
      ensures View() == if writing then old(View())
                        else AfterEarly(old(View()), start, idle, ranks, ranks, banks, subarrays)
    {
      if writing {
        return;
      }
      var r := 0;
      while r < ranks
        invariant 0 <= r <= ranks && Shaped()
        invariant View() == AfterEarly(old(View()), start, idle, r, ranks, banks, subarrays)
      {
        EarlyInjectRank(r, start[r], idle[r]);
        r := r + 1;
      }
    }

    /** Refreshes while writes are drained: in every rank at most one bank, chosen by its demand. */
    method WriteRefreshParallelization(chosen: seq<int>)
      requires Shaped() && |chosen| == ranks && forall r :: 0 <= r < ranks ==> chosen[r] < banks
      modifies this`backlog, this`subarrayRefCounters, this`targets
      ensures Shaped() && View() == AfterWrites(old(View()), chosen, ranks, ranks, banks, subarrays)
    {
      var r := 0;
      while r < ranks
        invariant 0 <= r <= ranks && Shaped()
        invariant View() == AfterWrites(old(View()), chosen, r, ranks, banks, subarrays)
      {
        if chosen[r] >= 0 && backlog[r][chosen[r]] < BACKLOG_MAX {
          RefreshBank(r, chosen[r]);
        }
        r := r + 1;
      }
    }

    /** A slot has come for one rank: its next bank falls behind by one refresh, and gets it unless it may
        be skipped; it may not when the bank would be too far behind. */
    method InjectRank(r: nat, quiet: bool)
      requires Shaped() && r < ranks
      modifies this`bankRefCounters, this`backlog, this`subarrayRefCounters, this`targets
      ensures Shaped() && View() == AfterRankSlot(old(View()), mayskip, quiet, r, banks, subarrays)
    {
      var b := bankRefCounters[r];
      backlog := backlog[r := backlog[r][b := backlog[r][b] - 1]];
      bankRefCounters := bankRefCounters[r := (bankRefCounters[r] + 1) % banks];
      if mayskip {
        var refNow := quiet;
        if backlog[r][b] <= BACKLOG_MIN {
          refNow := true;
        }
        if !refNow {
          return;
        }
      }
      RefreshBank(r, b);
    }

    /** A refresh slot for one bank of every rank. */
    method Inject(quiet: seq<bool>)
      requires Shaped() && |quiet| == ranks
      modifies this`bankRefCounters, this`backlog, this`subarrayRefCounters, this`targets, this`refreshed, this`slots
      ensures slots == old(slots) + 1 && refreshed == clk
      ensures View() == AfterSlot(old(View()), mayskip, quiet, ranks, ranks, banks, subarrays)
    {
      hide AfterRankSlot;
      ghost var before := View();
      var r := 0;
      while r < ranks
        invariant 0 <= r <= ranks && Shaped() && slots == old(slots)
        invariant View() == AfterSlot(before, mayskip, quiet, r, ranks, banks, subarrays)
      {
        InjectRank(r, quiet[r]);
        r := r + 1;
      }
      refreshed := clk;
      slots := slots + 1;
    }

    method InjectAhead(writing: bool, inputs: Inputs)
      requires Shaped() && InputsOk(inputs, ranks, banks)
      modifies this`backlog, this`subarrayRefCounters, this`targets, this`writeMode
      ensures writeMode == writing
      ensures View() == AfterAhead(old(View()), old(writeMode), writing, inputs, ranks, banks, subarrays)
    {
      if !writeMode && writing {
        WriteRefreshParallelization(inputs.chosen);
      }
      writeMode := writing;
      EarlyInject(writing, inputs.start, inputs.idle);
    }

    /** One tick; `writing` is the controller's write mode. */
    method Tick(writing: bool, inputs: Inputs)
      requires Valid() && InputsOk(inputs, ranks, banks)
      modifies this
      ensures Valid() && clk == old(clk) + 1
      ensures writeMode == if mayskip then writing else old(writeMode)
      ensures
        var ahead := if mayskip then AfterAhead(old(View()), old(writeMode), writing, inputs, ranks, banks, subarrays)
                     else old(View());
        if clk - old(refreshed) < interval then View() == ahead && slots == old(slots)
        else
          && View() == AfterSlot(ahead, mayskip, inputs.quiet, ranks, ranks, banks, subarrays)
          && slots == old(slots) + 1
    {
      hide RankOk, AfterAhead, AfterSlot;
      clk := clk + 1;
      if mayskip {
        AheadKeeps(View(), writeMode, writing, inputs, slots, ranks, banks, subarrays);
        InjectAhead(writing, inputs);
      }
      if clk - refreshed >= interval {
        OneMoreTime(slots, interval);
        ghost var k := View();
        SlotsKeep(k, mayskip, inputs.quiet, ranks, slots, ranks, banks, subarrays);
        Inject(inputs.quiet);
        NextSlot(View(), slots - 1, ranks, banks, subarrays);
      }
    }
  }

  /** When all ranks have had their slot, the next round begins. */
  lemma NextSlot(k: Books, n: nat, ranks: nat, banks: nat, subarrays: nat)
    requires LedgerOk(k, n, ranks, ranks, banks, subarrays)
    ensures LedgerOk(k, n + 1, 0, ranks, banks, subarrays)
  {
    var next := n + 1;
    forall r | 0 <= r < ranks
      ensures RankOk(k, r, Elapsed(next, 0, r), -1, banks, subarrays)
    {
      assert RankOk(k, r, Elapsed(n, ranks, r), -1, banks, subarrays);
    }
  }

  /** With every refresh slot that has elapsed counted, no bank ever falls 8 refreshes behind, and none
      gets more than 8 ahead. */
  lemma NeverFarBehind(ledger: Refresh, r: nat, b: nat)
    requires ledger.Valid() && r < ledger.ranks && b < ledger.banks
    ensures ledger.slots * ledger.interval <= ledger.clk < ledger.slots * ledger.interval + ledger.interval
    ensures Slots(ledger.slots, ledger.banks, b) - 8 < Count(ledger.targets, r, b)
    ensures Count(ledger.targets, r, b) <= Slots(ledger.slots, ledger.banks, b) + 8
  {
    assert RankOk(ledger.View(), r, Elapsed(ledger.slots, 0, r), -1, ledger.banks, ledger.subarrays);
  }

  /** How often the slots have gone round all banks. */
  function Rounds(n: nat, banks: nat): nat
    requires banks > 0
  {
    if n == 0 then 0 else Rounds(n - 1, banks) + if Turn(n, banks) == 0 then 1 else 0
  }

  lemma WrapAround(x: nat, d: nat)
    requires x < d
    ensures (x + 1) % d == if x + 1 == d then 0 else x + 1
  {
  }

  lemma TurnNext(n: nat, banks: nat)
    requires banks > 0 && n > 0
    ensures Turn(n, banks) == if Turn(n - 1, banks) + 1 == banks then 0 else Turn(n - 1, banks) + 1
  {
    WrapAround(Turn(n - 1, banks), banks);
  }

  lemma OneMoreTime(k: int, d: int)
    ensures (k + 1) * d == k * d + d
  {
  }

  lemma {:induction false} SlotsInRounds(n: nat, banks: nat)
    requires banks > 0
    ensures n == Rounds(n, banks) * banks + Turn(n, banks)
  {
    if n > 0 {
      SlotsInRounds(n - 1, banks);
      TurnNext(n, banks);
      OneMoreTime(Rounds(n - 1, banks), banks);
    }
  }

  /** Every bank has had one slot in each complete round, and one more when its turn in this round is over. */
  lemma {:induction false} SlotsAreFair(n: nat, banks: nat, bank: nat)
    requires bank < banks
    ensures Slots(n, banks, bank) == Rounds(n, banks) + if bank < Turn(n, banks) then 1 else 0
  {
    if n > 0 {
      SlotsAreFair(n - 1, banks, bank);
      TurnNext(n, banks);
    }
  }
}
