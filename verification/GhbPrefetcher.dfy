/**
 The prefetcher: its two tables, updated in place by every access, and the prefetches of an access.
 The tables are always those that the history of accesses leads to.
 */
module GhbPrefetcher {
  import opened Common
  import opened Ghb
  import opened GhbLinks

  class Prefetcher {
    const it: array<ItEntry>
    const ghb: array<GhbEntry>
    var ghbHeadIdx: nat
    var prefetchDistance: nat
    var prefetchDegree: nat
    ghost var history: History
    ghost var run: seq<Tables>

    ghost function View(): Tables
      reads it, ghb
    {
      Tables(it[..], ghb[..])
    }

    ghost predicate Valid()
      reads this, it, ghb
    {
      && |run| == |history| + 1 && IsRun(history, run, |history|)
      && View() == run[|history|] && ghbHeadIdx == EntryOf(|history|)
    }

    constructor ()
      ensures Valid() && history == [] && fresh(it) && fresh(ghb)
      ensures prefetchDistance == 4 && prefetchDegree == 4
    {
      it := new ItEntry[IT_SIZE](_ => ItEntry(0, NULL));
      ghb := new GhbEntry[GHB_SIZE](_ => GhbEntry(0, NULL, NULL, NULL));
      ghbHeadIdx := 0;
      prefetchDistance, prefetchDegree := 4, 4;
      history, run := [], [EmptyTables()];
      new;
      assert View() == EmptyTables();
    }

    /** Give a slot to the instruction, if another one has it. */
    method Reset(ip: nat)
      requires it.Length == IT_SIZE
      modifies it
      ensures it[..] == ResetSlot(old(it[..]), ip % IT_SIZE, ip)
    {
      var s := ip % IT_SIZE;
      if it[s].ip != ip {
        it[s] := ItEntry(ip, NULL);
      }
    }

    /** Follow the links of entry `e`, and cut those that lead back to it from there. */
    method Detach(e: nat)
      requires e < ghb.Length && (ghb[e].next == NULL || 0 <= ghb[e].next < ghb.Length)
      requires ghb[e].it == NULL || 0 <= ghb[e].it < it.Length
      modifies it, ghb
      ensures it[..] == CutSlot(old(it[..]), old(ghb[e].it)) && ghb[..] == CutNewer(old(ghb[..]), e)
    {
      if ghb[e].next != NULL {
        ghb[ghb[e].next] := ghb[ghb[e].next].(prev := NULL);
      }
      assert ghb[..] == CutNewer(old(ghb[..]), e);
      if ghb[e].it != NULL {
        it[ghb[e].it] := it[ghb[e].it].(ghbPtr := NULL);
      }
    }

    /** Fill entry `e` and put it at the head of the chain of slot `s`. */
    method Link(e: nat, line: nat, s: nat)
      requires e < ghb.Length && s < it.Length && (it[s].ghbPtr == NULL || 0 <= it[s].ghbPtr < ghb.Length)
      requires it[s].ghbPtr != e
      modifies it, ghb
      ensures it[..] == LinkIt(old(it[..]), s, e)
      ensures ghb[..] == LinkGhb(old(ghb[..]), e, line, old(it[s].ghbPtr), s)
    {
      ghb[e] := ghb[e].(addr := line, prev := it[s].ghbPtr, it := s);
      it[s] := it[s].(ghbPtr := e);
      if ghb[e].prev != NULL {
        ghb[ghb[e].prev] := ghb[ghb[e].prev].(next := e, it := NULL);
      }
    }

    /** Write an access into entry `e`. */
    method Record(e: nat, line: nat, ip: nat)
      requires IsInsertable(View(), e, ip)
      modifies it, ghb
      ensures View() == Inserted(old(View()), e, line, ip)
    {
      Reset(ip);
      Detach(e);
      Link(e, line, ip % IT_SIZE);
    }

    /** Write the access into the oldest entry and make it the head of its instruction's chain. */
    method Insert(line: nat, ip: nat) returns (e: nat)
      requires Valid()
      modifies this`ghbHeadIdx, this`history, this`run, it, ghb
      ensures Valid() && history == old(history) + [Access(ip, line)]
      ensures e == EntryOf(|old(history)|)
    {
      hide IsStep, Inserted, IsInsertable;
      e := ghbHeadIdx;
      ghost var after := RunGrows(history, run, Access(ip, line));
      Record(e, line, ip);
      ghbHeadIdx := (ghbHeadIdx + 1) % GHB_SIZE;
      history, run := history + [Access(ip, line)], run + [after];
    }

    /** The lines of the first three entries of a chain, or of all if there are fewer. */
    method Traverse(e: nat) returns (lines: seq<nat>)
      requires e < ghb.Length
      requires forall d :: 0 <= d < ghb.Length ==> ghb[d].prev == NULL || 0 <= ghb[d].prev < ghb.Length
      ensures lines == Chain(ghb[..], e, 3)
    {
      lines := [];
      var curr: int := e;
      while curr != NULL && |lines| < 3
        invariant |lines| <= 3 && (curr == NULL || 0 <= curr < ghb.Length)
        invariant lines + Chain(ghb[..], curr, 3 - |lines|) == Chain(ghb[..], e, 3)
        decreases 3 - |lines|
      {
        lines := lines + [ghb[curr].addr];
        curr := ghb[curr].prev;
      }
    }

    /** One access: record it, and prefetch along the stride of its instruction's last three accesses, as far
        as the links that the history has left lead to them. */
    method Operate(addr: nat, ip: nat) returns (prefetches: seq<nat>)
      requires Valid()
      modifies this`ghbHeadIdx, this`history, this`run, it, ghb
      ensures Valid() && history == old(history) + [Access(ip, addr / LINE_SIZE)]
      ensures
        var lines := Lines(history, |history| - 1, |history|, 3);
        && lines <= Recent(history, ip)
        && (|lines| == Min(3, |Recent(history, ip)|) <==> AllPresent(history, |history| - 1, |history|, 2))
        && FollowsStride(lines, prefetchDistance, prefetchDegree, prefetches)
        && prefetches == if HasStride(lines) then
             Prefetches(lines[0], Stride(lines[1], lines[0]), prefetchDistance, prefetchDegree)
           else []
    {
      var line := addr / LINE_SIZE;
      var e := Insert(line, ip);
      prefetches := [];
      PrevsAreEntries(history, run, |history|);
      var lastEntries := Traverse(e);
      NewestLines(history, run, |history| - 1);
      if |lastEntries| == 3 {
        prefetches := PrefetchAlong(line, lastEntries);
      }
      PrefetchesFollow(lastEntries, prefetchDistance, prefetchDegree);
    }

    /** Detect a stride in three lines and prefetch along it. */
    method PrefetchAlong(line: nat, lastEntries: seq<nat>) returns (prefetches: seq<nat>)
      requires |lastEntries| == 3 && lastEntries[0] == line
      ensures prefetches == if HasStride(lastEntries) then
                              Prefetches(line, Stride(lastEntries[1], line), prefetchDistance, prefetchDegree)
                            else []
      ensures FollowsStride(lastEntries, prefetchDistance, prefetchDegree, prefetches)
    {
      hide FollowsStride, Prefetches;
      PrefetchesFollow(lastEntries, prefetchDistance, prefetchDegree);
      prefetches := [];
      var stride := Stride(lastEntries[1], lastEntries[0]);
      var strideBefore := Stride(lastEntries[2], lastEntries[1]);
      if stride == 0 || strideBefore == 0 {
        return;
      }
      if stride == strideBefore {
        prefetches := WalkAhead(line, stride);
      }
    }

    /** Go on along a stride as far as the page and the degree allow. */
    method WalkAhead(line: nat, stride: int) returns (prefetches: seq<nat>)
      ensures prefetches == Prefetches(line, stride, prefetchDistance, prefetchDegree)
    {
      hide LineAhead, SamePage;
      prefetches := [];
      var i := 0;
      while i < prefetchDegree
        invariant i <= prefetchDegree
        invariant prefetches + Prefetches(line, stride, prefetchDistance + i, prefetchDegree - i) ==
                  Prefetches(line, stride, prefetchDistance, prefetchDegree)
      {
        var ahead := LineAhead(line, stride, prefetchDistance + i);
        if !SamePage(ahead, line) {
          break;
        }
        prefetches := prefetches + [ahead * LINE_SIZE];
        i := i + 1;
      }
    }
  }
}
