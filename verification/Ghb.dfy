/**
 The stride prefetcher's global history buffer: a circular buffer of accesses whose entries are linked
 into one chain for each slot of an index table.  This file gives the two tables, the steps of one
 access, and the prefetches that a stride leads to.
 */
module Ghb {

  const IT_SIZE: nat := 256
  const GHB_SIZE: nat := 256
  const LINES_PER_PAGE: nat := 64   // 4 KB pages of 64-byte lines
  const LINE_SIZE: nat := 64
  const LINE_SPACE: nat := 0x400_0000_0000_0000   // 2^58 lines in a 64-bit address space
  const NULL: int := -1

  /** What the prefetcher sees of a memory access: the instruction and the line. */
  datatype Access = Access(ip: nat, line: nat)

  type History = seq<Access>

  datatype ItEntry = ItEntry(ip: nat, ghbPtr: int)

  datatype GhbEntry = GhbEntry(addr: nat, prev: int, next: int, it: int)

  // ---- the history ----

  /** The lines that an instruction accessed, newest first. */
  function Recent(h: History, ip: nat): seq<nat> {
    if h == [] then [] else
      var last := h[|h| - 1];
      (if last.ip == ip then [last.line] else []) + Recent(h[..|h| - 1], ip)
  }

  /** Accesses of other instructions do not count. */
  lemma {:induction false} RecentSkips(h: History, u: nat, t: nat, ip: nat)
    requires u <= t <= |h| && forall v :: u <= v < t ==> h[v].ip != ip
    ensures Recent(h[..t], ip) == Recent(h[..u], ip)
  {
    if u < t {
      RecentSkips(h, u, t - 1, ip);
      assert h[..t][..t - 1] == h[..t - 1];
    }
  }

  /** No other instruction of the history uses the slot of `ip`. */
  ghost predicate Alone(h: History, ip: nat) {
    forall v :: 0 <= v < |h| && h[v].ip % 256 == ip % 256 ==> h[v].ip == ip
  }

  // ---- the steps of an insertion ----

  predicate InBuffer(e: int) {
    0 <= e < GHB_SIZE
  }

  function ResetSlot(it: seq<ItEntry>, s: nat, ip: nat): seq<ItEntry>
    requires s < |it|
  {
    if it[s].ip != ip then it[s := ItEntry(ip, NULL)] else it
  }

  function CutNewer(ghb: seq<GhbEntry>, e: nat): seq<GhbEntry>
    requires e < |ghb| && (ghb[e].next == NULL || 0 <= ghb[e].next < |ghb|)
  {
    if ghb[e].next != NULL then ghb[ghb[e].next := ghb[ghb[e].next].(prev := NULL)] else ghb
  }

  function CutSlot(it: seq<ItEntry>, s: int): seq<ItEntry>
    requires s == NULL || 0 <= s < |it|
  {
    if s != NULL then it[s := it[s].(ghbPtr := NULL)] else it
  }

  /** Write the new access into entry `e` and make it the newest of slot `s`. */
  function LinkIt(it: seq<ItEntry>, s: nat, e: nat): seq<ItEntry>
    requires s < |it|
  {
    it[s := it[s].(ghbPtr := e)]
  }

  function LinkGhb(ghb: seq<GhbEntry>, e: nat, line: nat, p: int, s: nat): seq<GhbEntry>
    requires e < |ghb| && (p == NULL || 0 <= p < |ghb|)
  {
    var ghb' := ghb[e := ghb[e].(addr := line, prev := p, it := s)];
    if p != NULL then ghb'[p := ghb'[p].(next := e, it := NULL)] else ghb'
  }

  datatype Tables = Tables(it: seq<ItEntry>, ghb: seq<GhbEntry>)

  /** The links that the insertion into entry e follows lead to entries and slots. */
  ghost predicate IsInsertable(t: Tables, e: nat, ip: nat) {
    && |t.it| == IT_SIZE && e < |t.ghb|
    && (t.ghb[e].next == NULL || 0 <= t.ghb[e].next < |t.ghb|)
    && (t.ghb[e].it == NULL || 0 <= t.ghb[e].it < IT_SIZE)
    && var p := CutSlot(ResetSlot(t.it, ip % IT_SIZE, ip), t.ghb[e].it)[ip % IT_SIZE].ghbPtr;
    && p != e && (p == NULL || 0 <= p < |t.ghb|)
  }

  /** What an access does to the tables: its slot is reset if another instruction has it, the recycled
      entry e is cut off, and then it becomes the newest of the slot. */
  ghost function Inserted(t: Tables, e: nat, line: nat, ip: nat): Tables
    requires IsInsertable(t, e, ip)
  {
    var s := ip % IT_SIZE;
    var cut := CutSlot(ResetSlot(t.it, s, ip), t.ghb[e].it);
    Tables(LinkIt(cut, s, e), LinkGhb(CutNewer(t.ghb, e), e, line, cut[s].ghbPtr, s))
  }

  // ---- prefetching ----

  /** The line `k` strides ahead; 64-bit addresses wrap around. */
  function LineAhead(line: nat, stride: int, k: nat): (r: nat)
  {
    (line + stride * k) % LINE_SPACE
  }

  predicate SamePage(a: nat, b: nat) {
    a / LINES_PER_PAGE == b / LINES_PER_PAGE
  }

  /** The addresses of at most `degree` lines, from `k` strides ahead on, as long as they stay in the page. */
  function Prefetches(line: nat, stride: int, k: nat, degree: nat): (r: seq<nat>)
    decreases degree
  {
    if degree == 0 || !SamePage(LineAhead(line, stride, k), line) then []
    else [LineAhead(line, stride, k) * LINE_SIZE] + Prefetches(line, stride, k + 1, degree - 1)
  }

  /** What they are: consecutive strides ahead, all in the page, and as many as there can be. */
  lemma {:induction false} PrefetchesAre(line: nat, stride: int, k: nat, degree: nat)
    ensures
      var r := Prefetches(line, stride, k, degree);
      && |r| <= degree
      && (forall i :: 0 <= i < |r| ==>
            r[i] == LineAhead(line, stride, k + i) * LINE_SIZE && SamePage(LineAhead(line, stride, k + i), line))
      && (|r| < degree ==> !SamePage(LineAhead(line, stride, k + |r|), line))
    decreases degree
  {
    if degree > 0 && SamePage(LineAhead(line, stride, k), line) {
      PrefetchesAre(line, stride, k + 1, degree - 1);
      var rest := Prefetches(line, stride, k + 1, degree - 1);
      var r := Prefetches(line, stride, k, degree);
      assert r == [LineAhead(line, stride, k) * LINE_SIZE] + rest;
      hide LineAhead, SamePage, Prefetches;
      forall i | 0 <= i < |r|
        ensures r[i] == LineAhead(line, stride, k + i) * LINE_SIZE && SamePage(LineAhead(line, stride, k + i), line)
      {
        if i > 0 {
          assert r[i] == rest[i - 1] && k + i == k + 1 + (i - 1);
        }
      }
      assert k + |r| == k + 1 + |rest|;
    }
  }

  // ---- what is prefetched, in numbers ----

  /** The line has the number, which wraps around at 2^58. */
  predicate IsLine(line: nat, number: int) {
    line < 0x400_0000_0000_0000 && (line - number) % 0x400_0000_0000_0000 == 0
  }

  /** The addresses in the page of a line that lie so many strides ahead, from `distance` strides on: one after the
      other until `degree` of them have been found or one is outside of the page. */
  ghost predicate AreAhead(line: nat, stride: int, distance: nat, degree: nat, r: seq<nat>) {
    && |r| <= degree
    && (forall i :: 0 <= i < |r| ==>
          r[i] % 64 == 0 && r[i] / 4096 == line / 64 && IsLine(r[i] / 64, line + stride * (distance + i)))
    && (|r| < degree ==>
          forall x: nat :: IsLine(x, line + stride * (distance + |r|)) ==> x / 64 != line / 64)
  }

  /** Only an instruction whose last three lines have one stride is prefetched for, and along that stride. */
  ghost predicate FollowsStride(lines: seq<nat>, distance: nat, degree: nat, r: seq<nat>) {
    if |lines| >= 3 && lines[0] + lines[2] == 2 * lines[1] && lines[0] != lines[1] then
      AreAhead(lines[0], lines[0] as int - lines[1], distance, degree, r)
    else r == []
  }

  lemma LineIs(line: nat, stride: int, k: nat, x: nat)
    ensures IsLine(x, line + stride * k) <==> x == LineAhead(line, stride, k)
  {
  }

  lemma InPage(x: nat, line: nat)
    requires SamePage(x, line)
    ensures (x * LINE_SIZE) % 64 == 0 && (x * LINE_SIZE) / 64 == x && (x * LINE_SIZE) / 4096 == line / 64
  {
  }

  lemma PrefetchesAreAhead(line: nat, stride: int, distance: nat, degree: nat)
    ensures AreAhead(line, stride, distance, degree, Prefetches(line, stride, distance, degree))
  {
    hide LineAhead, SamePage, IsLine;
    var r := Prefetches(line, stride, distance, degree);
    PrefetchesAre(line, stride, distance, degree);
    forall i | 0 <= i < |r|
      ensures r[i] % 64 == 0 && r[i] / 4096 == line / 64 && IsLine(r[i] / 64, line + stride * (distance + i))
    {
      var x := LineAhead(line, stride, distance + i);
      assert r[i] == x * LINE_SIZE;
      InPage(x, line);
      LineIs(line, stride, distance + i, x);
    }
    forall x: nat | |r| < degree && IsLine(x, line + stride * (distance + |r|))
      ensures x / 64 != line / 64
    {
      LineIs(line, stride, distance + |r|, x);
      PageIs(x, line);
    }
  }

  lemma PageIs(x: nat, line: nat)
    ensures SamePage(x, line) <==> x / 64 == line / 64
  {
  }

  lemma PrefetchesFollow(lines: seq<nat>, distance: nat, degree: nat)
    ensures FollowsStride(lines, distance, degree,
                          if HasStride(lines) then Prefetches(lines[0], Stride(lines[1], lines[0]), distance, degree)
                          else [])
  {
    if HasStride(lines) {
      PrefetchesAreAhead(lines[0], lines[0] as int - lines[1], distance, degree);
    }
  }

  /** If an instruction keeps its stride, what it accesses `distance` accesses later has been prefetched, as long as
      that is in the page of the access. */
  lemma StrideIsCovered(lines: seq<nat>, distance: nat, degree: nat, r: seq<nat>, later: nat)
    requires FollowsStride(lines, distance, degree, r) && degree > 0 && |lines| >= 3
    requires lines[0] + lines[2] == 2 * lines[1] && lines[0] != lines[1]
    requires later == lines[0] + (lines[0] as int - lines[1]) * distance && later / 64 == lines[0] / 64
    requires later < 0x400_0000_0000_0000
    ensures later * 64 in r
  {
    assert IsLine(later, lines[0] + (lines[0] as int - lines[1]) * distance);
    if |r| > 0 {
      assert IsLine(r[0] / 64, lines[0] + (lines[0] as int - lines[1]) * (distance + 0));
      SameLine(r[0] / 64, later, lines[0] + (lines[0] as int - lines[1]) * distance);
      assert r[0] == later * 64;
    }
  }

  lemma SameLine(x: nat, y: nat, number: int)
    requires IsLine(x, number) && IsLine(y, number)
    ensures x == y
  {
  }

  /** The last three accesses of an instruction have one common stride other than zero. */
  predicate HasStride(lines: seq<nat>) {
    |lines| >= 3 && lines[0] != lines[1] && Stride(lines[1], lines[0]) == Stride(lines[2], lines[1])
  }

  function Stride(from: int, to: int): int {
    to - from
  }
}
