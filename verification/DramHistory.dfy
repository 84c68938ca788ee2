/**
 What `next` and `prev` stand for: the full trace of the commands issued so far.  A node's `next`
 admits exactly the times at which every timing entry, applied to every command of the trace, is met.
 */
module DramHistory {
  import opened DramTiming

  datatype Issue = Issue(cmd: Command, addr: seq<int>, clk: int)

  type Trace = seq<Issue>

  /** When `c` was issued to the node or to something inside it. */
  function TargetTimes(trace: Trace, p: Path, c: Command): seq<int> {
    if trace == [] then [] else
      var last := trace[|trace| - 1];
      TargetTimes(trace[..|trace| - 1], p, c) + if last.cmd == c && IsTarget(p, last.addr) then [last.clk] else []
  }

  /** When `c` was issued to a sibling of the node. */
  function SiblingTimes(trace: Trace, p: Path, c: Command): seq<int> {
    if trace == [] then [] else
      var last := trace[|trace| - 1];
      SiblingTimes(trace[..|trace| - 1], p, c)
        + if last.cmd == c && !IsTarget(p, last.addr) && IsSibling(p, last.addr) then [last.clk] else []
  }

  /** At time `clk` the entry's wait is over, for all the times it applies to: a wait over a distance
      counts from every issue that has at least that many issues from it on, itself included. */
  ghost predicate EntryMet(e: TimingEntry, targets: seq<int>, siblings: seq<int>, clk: int) {
    if e.sibling then forall i :: 0 <= i < |siblings| ==> siblings[i] + e.val <= clk
    else forall i :: 0 <= i < |targets| && i + e.dist <= |targets| ==> targets[i] + e.val <= clk
  }

  ghost predicate EntryMetAt(trace: Trace, p: Path, c: Command, e: TimingEntry, clk: int) {
    EntryMet(e, TargetTimes(trace, p, c), SiblingTimes(trace, p, c), clk)
  }

  /** Issuing `cmd` at time `clk` breaks no timing entry of the node. */
  ghost predicate NodeAdmits(spec: Spec, trace: Trace, p: Path, cmd: Command, clk: int)
    requires p != []
  {
    forall c: Command, e :: e in Timing(spec, LevelOf(p), c) && e.cmd == cmd ==> EntryMetAt(trace, p, c, e, clk)
  }

  /** The most recent times, newest first, with -1 where there are none. */
  ghost predicate IsHistory(times: seq<int>, history: seq<int>) {
    forall i :: 0 <= i < |history| ==> history[i] == if i < |times| then times[|times| - 1 - i] else -1
  }

  /** The node's summary says about the trace what the trace says. */
  ghost predicate Summarises(spec: Spec, trace: Trace, p: Path, n: Node)
    requires p != [] && NodeOk(n)
  {
    && (forall c: Command :: Covers(Timing(spec, LevelOf(p), c), |n.prev[c]|))
    && (forall c: Command :: IsHistory(TargetTimes(trace, p, c), n.prev[c]))
    && (forall c: Command, clk: int :: clk >= 0 ==> (n.next[c] <= clk <==> NodeAdmits(spec, trace, p, c, clk)))
    && (forall c: Command :: n.next[c] >= -1)
  }

  ghost predicate TraceOk(spec: Spec, trace: Trace) {
    forall i :: 0 <= i < |trace| ==> trace[i].clk >= 0 && AddressOk(spec, trace[i].addr)
  }

  lemma TimesOfEmpty(p: Path, c: Command)
    ensures TargetTimes([], p, c) == [] && SiblingTimes([], p, c) == []
  {
  }

  lemma InitialSummary(spec: Spec, p: Path, n: Node)
    requires p != [] && IsInitial(spec, LevelOf(p), n)
    ensures Summarises(spec, [], p, n)
  {
    forall c: Command
      ensures TargetTimes([], p, c) == [] && SiblingTimes([], p, c) == []
      ensures IsHistory(TargetTimes([], p, c), n.prev[c])
    {
      TimesOfEmpty(p, c);
      assert forall i :: 0 <= i < |n.prev[c]| ==> n.prev[c][i] in n.prev[c];
    }
    forall c: Command, clk: int | clk >= 0
      ensures n.next[c] <= clk && NodeAdmits(spec, [], p, c, clk)
    {
    }
  }

  lemma TimesOfExtended(trace: Trace, s: Issue, p: Path, c: Command)
    ensures TargetTimes(trace + [s], p, c) ==
            if s.cmd == c && IsTarget(p, s.addr) then TargetTimes(trace, p, c) + [s.clk] else TargetTimes(trace, p, c)
    ensures SiblingTimes(trace + [s], p, c) ==
            if s.cmd == c && !IsTarget(p, s.addr) && IsSibling(p, s.addr) then SiblingTimes(trace, p, c) + [s.clk]
            else SiblingTimes(trace, p, c)
  {
    assert (trace + [s])[..|trace|] == trace;
  }

  /** `next` after a fold over entries is the least time that meets them all. */
  lemma {:induction false} RaisedTarget(next: map<Command, int>, history: seq<int>, entries: seq<TimingEntry>,
                                        c: Command, clk: int)
    requires Total(next)
    ensures var after := RaiseAllTarget(next, history, entries);
            && (after[c] <= clk <==>
                  next[c] <= clk
                  && forall e :: e in entries && e.cmd == c && !e.sibling && Past(history, e) >= 0 ==>
                       Past(history, e) + e.val <= clk)
            && next[c] <= after[c]
  {
    if entries != [] {
      var most := entries[..|entries| - 1];
      RaisedTarget(next, history, most, c, clk);
      assert entries == most + [entries[|entries| - 1]];
    }
  }

  lemma {:induction false} RaisedSibling(next: map<Command, int>, now: int, entries: seq<TimingEntry>,
                                         c: Command, clk: int)
    requires Total(next)
    ensures var after := RaiseAllSibling(next, now, entries);
            && (after[c] <= clk <==>
                  next[c] <= clk && forall e :: e in entries && e.cmd == c && e.sibling ==> now + e.val <= clk)
            && next[c] <= after[c]
  {
    if entries != [] {
      var most := entries[..|entries| - 1];
      RaisedSibling(next, now, most, c, clk);
      assert entries == most + [entries[|entries| - 1]];
    }
  }

  lemma PushedHistory(times: seq<int>, history: seq<int>, clk: int)
    requires IsHistory(times, history)
    ensures IsHistory(times + [clk], Push(history, clk))
  {
  }

  /** One more issue adds to an entry's demands the one that the entry counts from now. */
  lemma ExtendedTarget(e: TimingEntry, targets: seq<int>, siblings: seq<int>, history: seq<int>, now: int, clk: int)
    requires !e.sibling && 1 <= e.dist <= |history| && now >= 0
    requires forall i :: 0 <= i < |targets| ==> targets[i] >= 0
    requires IsHistory(targets + [now], history)
    ensures EntryMet(e, targets + [now], siblings, clk) <==>
            EntryMet(e, targets, siblings, clk) && (Past(history, e) >= 0 ==> Past(history, e) + e.val <= clk)
  {
    var after := targets + [now];
    assert forall i :: 0 <= i < |targets| ==> after[i] == targets[i];
    if e.dist <= |after| {
      assert Past(history, e) == after[|after| - e.dist] >= 0;
    }
    if EntryMet(e, after, siblings, clk) {
      forall i | 0 <= i < |targets| && i + e.dist <= |targets|
        ensures targets[i] + e.val <= clk
      {
        assert after[i] + e.val <= clk;
      }
    }
  }

  lemma {:induction false} TimesAreNat(spec: Spec, trace: Trace, p: Path, c: Command)
    requires TraceOk(spec, trace)
    ensures forall i :: 0 <= i < |TargetTimes(trace, p, c)| ==> TargetTimes(trace, p, c)[i] >= 0
  {
    if trace != [] {
      TimesAreNat(spec, trace[..|trace| - 1], p, c);
    }
  }

  /** The summary of a target, one command later. */
  lemma TargetSummary(spec: Spec, trace: Trace, p: Path, n: Node, s: Issue)
    requires SpecOk(spec) && TraceOk(spec, trace) && s.clk >= 0 && p != [] && NodeOk(n)
    requires IsTarget(p, s.addr) && Summarises(spec, trace, p, n)
    ensures Summarises(spec, trace + [s], p, TargetNode(n, s.cmd, s.clk, Timing(spec, LevelOf(p), s.cmd)))
  {
    var entries := Timing(spec, LevelOf(p), s.cmd);
    var history := Push(n.prev[s.cmd], s.clk);
    var after := TargetNode(n, s.cmd, s.clk, entries);
    forall c: Command
      ensures Covers(Timing(spec, LevelOf(p), c), |after.prev[c]|)
      ensures IsHistory(TargetTimes(trace + [s], p, c), after.prev[c])
    {
      TimesOfExtended(trace, s, p, c);
      PushedHistory(TargetTimes(trace, p, c), n.prev[c], s.clk);
    }
    forall c: Command, clk: int | clk >= 0
      ensures after.next[c] <= clk <==> NodeAdmits(spec, trace + [s], p, c, clk)
    {
      RaisedTarget(n.next, history, entries, c, clk);
      TargetAdmits(spec, trace, p, s, history, c, clk);
    }
    forall c: Command
      ensures after.next[c] >= -1
    {
      RaisedTarget(n.next, history, entries, c, 0);
    }
  }

  lemma TargetAdmits(spec: Spec, trace: Trace, p: Path, s: Issue, history: seq<int>, cmd: Command, clk: int)
    requires SpecOk(spec) && TraceOk(spec, trace) && s.clk >= 0 && p != [] && IsTarget(p, s.addr)
    requires Covers(Timing(spec, LevelOf(p), s.cmd), |history|)
    requires IsHistory(TargetTimes(trace, p, s.cmd) + [s.clk], history)
    ensures NodeAdmits(spec, trace + [s], p, cmd, clk) <==>
            NodeAdmits(spec, trace, p, cmd, clk)
            && forall e ::
                 e in Timing(spec, LevelOf(p), s.cmd) && e.cmd == cmd && !e.sibling && Past(history, e) >= 0 ==>
                 Past(history, e) + e.val <= clk
  {
    forall c: Command, e | e in Timing(spec, LevelOf(p), c) && e.cmd == cmd
      ensures EntryMetAt(trace + [s], p, c, e, clk) <==>
              EntryMetAt(trace, p, c, e, clk)
              && (c == s.cmd && !e.sibling && Past(history, e) >= 0 ==> Past(history, e) + e.val <= clk)
    {
      TargetEntry(spec, trace, p, s, history, c, e, clk);
    }
  }

  lemma TargetEntry(spec: Spec, trace: Trace, p: Path, s: Issue, history: seq<int>, c: Command, e: TimingEntry,
                    clk: int)
    requires SpecOk(spec) && TraceOk(spec, trace) && s.clk >= 0 && p != [] && IsTarget(p, s.addr)
    requires Covers(Timing(spec, LevelOf(p), s.cmd), |history|)
    requires IsHistory(TargetTimes(trace, p, s.cmd) + [s.clk], history)
    requires e in Timing(spec, LevelOf(p), c)
    ensures EntryMetAt(trace + [s], p, c, e, clk) <==>
            EntryMetAt(trace, p, c, e, clk)
            && (c == s.cmd && !e.sibling && Past(history, e) >= 0 ==> Past(history, e) + e.val <= clk)
  {
    TimesOfExtended(trace, s, p, c);
    if c == s.cmd && !e.sibling {
      TimesAreNat(spec, trace, p, c);
      ExtendedTarget(e, TargetTimes(trace, p, c), SiblingTimes(trace, p, c), history, s.clk, clk);
    }
  }

  /** ... and of a sibling. */
  lemma SiblingSummary(spec: Spec, trace: Trace, p: Path, n: Node, s: Issue)
    requires p != [] && NodeOk(n) && !IsTarget(p, s.addr) && IsSibling(p, s.addr)
    requires Summarises(spec, trace, p, n)
    ensures Summarises(spec, trace + [s], p, SiblingNode(n, s.clk, Timing(spec, LevelOf(p), s.cmd)))
  {
    var entries := Timing(spec, LevelOf(p), s.cmd);
    var after := SiblingNode(n, s.clk, entries);
    forall c: Command
      ensures IsHistory(TargetTimes(trace + [s], p, c), after.prev[c])
    {
      TimesOfExtended(trace, s, p, c);
    }
    forall c: Command, clk: int | clk >= 0
      ensures after.next[c] <= clk <==> NodeAdmits(spec, trace + [s], p, c, clk)
    {
      RaisedSibling(n.next, s.clk, entries, c, clk);
      SiblingAdmits(spec, trace, p, s, c, clk);
    }
    forall c: Command
      ensures after.next[c] >= -1
    {
      RaisedSibling(n.next, s.clk, entries, c, 0);
    }
  }

  lemma SiblingAdmits(spec: Spec, trace: Trace, p: Path, s: Issue, cmd: Command, clk: int)
    requires p != [] && !IsTarget(p, s.addr) && IsSibling(p, s.addr)
    ensures NodeAdmits(spec, trace + [s], p, cmd, clk) <==>
            NodeAdmits(spec, trace, p, cmd, clk)
            && forall e :: e in Timing(spec, LevelOf(p), s.cmd) && e.cmd == cmd && e.sibling ==> s.clk + e.val <= clk
  {
    forall c: Command, e | e in Timing(spec, LevelOf(p), c) && e.cmd == cmd
      ensures EntryMetAt(trace + [s], p, c, e, clk) <==>
              EntryMetAt(trace, p, c, e, clk) && (c == s.cmd && e.sibling ==> s.clk + e.val <= clk)
    {
      TimesOfExtended(trace, s, p, c);
      if c == s.cmd && e.sibling {
        ExtendedSibling(e, TargetTimes(trace, p, c), SiblingTimes(trace, p, c), s.clk, clk);
      }
    }
  }

  lemma ExtendedSibling(e: TimingEntry, targets: seq<int>, siblings: seq<int>, now: int, clk: int)
    requires e.sibling
    ensures EntryMet(e, targets, siblings + [now], clk) <==> EntryMet(e, targets, siblings, clk) && now + e.val <= clk
  {
    var after := siblings + [now];
    if EntryMet(e, targets, after, clk) {
      assert after[|siblings|] + e.val <= clk;
      forall i | 0 <= i < |siblings|
        ensures siblings[i] + e.val <= clk
      {
        assert after[i] + e.val <= clk;
      }
    }
  }

  lemma UntouchedSummary(spec: Spec, trace: Trace, p: Path, n: Node, s: Issue)
    requires p != [] && NodeOk(n) && !IsTarget(p, s.addr) && !IsSibling(p, s.addr)
    requires Summarises(spec, trace, p, n)
    ensures Summarises(spec, trace + [s], p, n)
  {
    forall c: Command
      ensures IsHistory(TargetTimes(trace + [s], p, c), n.prev[c])
    {
      TimesOfExtended(trace, s, p, c);
    }
    forall c: Command, clk: int | clk >= 0
      ensures n.next[c] <= clk <==> NodeAdmits(spec, trace + [s], p, c, clk)
    {
      UntouchedAdmits(spec, trace, p, s, c, clk);
    }
  }

  lemma UntouchedAdmits(spec: Spec, trace: Trace, p: Path, s: Issue, cmd: Command, clk: int)
    requires p != [] && !IsTarget(p, s.addr) && !IsSibling(p, s.addr)
    ensures NodeAdmits(spec, trace + [s], p, cmd, clk) <==> NodeAdmits(spec, trace, p, cmd, clk)
  {
    forall c: Command, e | e in Timing(spec, LevelOf(p), c) && e.cmd == cmd
      ensures EntryMetAt(trace + [s], p, c, e, clk) <==> EntryMetAt(trace, p, c, e, clk)
    {
      TimesOfExtended(trace, s, p, c);
    }
  }

  /** One update of a node, whatever its relation to the address, keeps its summary exact. */
  lemma UpdateKeepsSummary(spec: Spec, trace: Trace, p: Path, n: Node, s: Issue)
    requires SpecOk(spec) && TraceOk(spec, trace) && s.clk >= 0 && p != [] && NodeOk(n)
    requires Summarises(spec, trace, p, n)
    ensures Summarises(spec, trace + [s], p, UpdatedNode(spec, n, p, s.cmd, s.addr, s.clk))
  {
    if IsTarget(p, s.addr) {
      TargetSummary(spec, trace, p, n, s);
    } else if IsSibling(p, s.addr) {
      SiblingSummary(spec, trace, p, n, s);
    } else {
      UntouchedSummary(spec, trace, p, n, s);
    }
  }
}
