/**
 Exactly which links the history buffer has after any history.  Links are cut when entries are recycled,
 and not only the right ones: an entry keeps its `next` link when it is written again, and it keeps its
 slot when another instruction takes the slot over, so that recycling it cuts a link, or a slot, of others.
 All of this is told by the history alone; the tables are proved to be as it says.
 */
module GhbLinks {
  import opened Common
  import opened Ghb

  function SlotOf(h: History, t: nat): (s: nat)
    requires t < |h|
    ensures s < IT_SIZE
  {
    h[t].ip % 256
  }

  /** The entry that the access at time t is written into. */
  function EntryOf(t: nat): (e: nat)
    ensures e < GHB_SIZE
  {
    t % 256
  }

  /** The last access before time n that used slot s, or -1. */
  ghost function LastInSlot(h: History, n: nat, s: nat): (p: int)
    requires n <= |h|
    ensures -1 <= p < n
    ensures p >= 0 ==> SlotOf(h, p) == s
    ensures forall v: nat :: p < v < n ==> SlotOf(h, v) != s
  {
    if n == 0 then -1 else if SlotOf(h, n - 1) == s then n - 1 else LastInSlot(h, n - 1, s)
  }

  /** The access before the one at time t in the same slot, or -1. */
  ghost function Before(h: History, t: nat): (p: int)
    requires t < |h|
    ensures -1 <= p < t
    ensures p >= 0 ==> SlotOf(h, p) == SlotOf(h, t)
    ensures forall v: nat :: p < v < t ==> SlotOf(h, v) != SlotOf(h, t)
  {
    LastInSlot(h, t, SlotOf(h, t))
  }

  /** The access at time t is linked to the one before: the slot has not been taken over in between, and
      it still points there. */
  ghost predicate Linked(h: History, t: nat)
    requires t < |h|
    decreases t, 2
  {
    var p := Before(h, t);
    p >= 0 && h[p].ip == h[t].ip && Lives(h, p, t + 1)
  }

  /** The slot of the access at time p points to it until before time n: its entry has not been recycled,
      nor any older entry that kept the slot because nothing was linked to it. */
  ghost predicate Lives(h: History, p: nat, n: nat)
    requires p < |h|
    decreases p + 1, 1
  {
    && n <= p + GHB_SIZE
    && forall q: nat :: q < p < q + GHB_SIZE < n && SlotOf(h, q) == SlotOf(h, p) ==> IsFollowed(h, q, p + 1)
  }

  /** Some access before time n has been linked to the one at time q. */
  ghost predicate IsFollowed(h: History, q: nat, n: nat)
    requires n <= |h|
    decreases n, 0
  {
    exists m: nat :: q < m < n && Linked(h, m) && Before(h, m) == q
  }

  /** The time of the last link ever made to entry e before time n, or -1. */
  ghost function LastLink(h: History, n: nat, e: nat): (u: int)
    requires n <= |h|
    ensures -1 <= u < n
    ensures u >= 0 ==> Linked(h, u) && EntryOf(Before(h, u)) == e
    ensures forall v: nat :: u < v < n && Linked(h, v) ==> EntryOf(Before(h, v)) != e
  {
    if n == 0 then -1
    else if Linked(h, n - 1) && EntryOf(Before(h, n - 1)) == e then n - 1
    else LastLink(h, n - 1, e)
  }

  /** Recycling an entry at time r cuts the link of the access at time t: the last link ever made to the
      recycled entry was made from the entry that this access is in now. */
  ghost predicate Cuts(h: History, r: nat, t: nat)
    requires r < |h|
  {
    var u := LastLink(h, r, EntryOf(r));
    u >= 0 && EntryOf(u) == EntryOf(t)
  }

  /** The link of the access at time t is still there before time n. */
  ghost predicate Present(h: History, t: nat, n: nat)
    requires t < |h| && n <= |h|
  {
    Linked(h, t) && forall r: nat :: t < r < n ==> !Cuts(h, r, t)
  }

  // ---- the tables after a history ----

  ghost function PointerOf(h: History, p: int, there: bool): (e: int)
    ensures e == NULL || InBuffer(e)
  {
    if there && p >= 0 then EntryOf(p) else NULL
  }

  ghost predicate SlotIs(h: History, n: nat, s: nat, x: ItEntry)
    requires n <= |h|
  {
    var p := LastInSlot(h, n, s);
    if p < 0 then x == ItEntry(0, NULL) else x == ItEntry(h[p].ip, PointerOf(h, p, Lives(h, p, n)))
  }

  ghost predicate EntryIs(h: History, n: nat, t: nat, x: GhbEntry)
    requires t < n <= |h|
  {
    && x.addr == h[t].line
    && x.prev == PointerOf(h, Before(h, t), Present(h, t, n))
    && x.it == if IsFollowed(h, t, n) then NULL else SlotOf(h, t)
  }

  ghost predicate NextIs(h: History, n: nat, e: nat, x: GhbEntry)
    requires n <= |h|
  {
    x.next == PointerOf(h, LastLink(h, n, e), true)
  }

  ghost predicate Describes(h: History, n: nat, t: Tables)
    requires n <= |h|
  {
    && |t.it| == IT_SIZE && |t.ghb| == GHB_SIZE
    && (forall s :: 0 <= s < IT_SIZE ==> SlotIs(h, n, s, t.it[s]))
    && (forall e :: 0 <= e < GHB_SIZE ==> NextIs(h, n, e, t.ghb[e]))
    && (forall u: nat :: u < n <= u + GHB_SIZE ==> EntryIs(h, n, u, t.ghb[EntryOf(u)]))
    && (forall e :: n <= e < GHB_SIZE ==> t.ghb[e].prev == NULL && t.ghb[e].it == NULL)
  }

  // ---- one access later ----

  /** Two times within one round of the buffer use different entries. */
  lemma EntriesDiffer(t: nat, u: nat)
    requires t < u < t + GHB_SIZE
    ensures EntryOf(t) != EntryOf(u)
  {
  }

  lemma SameEntry(t: nat)
    ensures EntryOf(t + GHB_SIZE) == EntryOf(t)
  {
  }

  lemma LinkedIsNear(h: History, t: nat)
    requires t < |h| && Linked(h, t)
    ensures 0 <= Before(h, t) < t < Before(h, t) + GHB_SIZE && h[Before(h, t)].ip == h[t].ip
  {
    assert Lives(h, Before(h, t), t + 1);
  }

  /** Nothing can be linked to the last access of a slot yet, and to an older one only up to that. */
  lemma FollowedUpTo(h: History, q: nat, p: nat, n: nat)
    requires q <= p < n <= |h| && SlotOf(h, q) == SlotOf(h, p) && p == LastInSlot(h, n, SlotOf(h, q))
    ensures IsFollowed(h, q, n) <==> IsFollowed(h, q, p + 1)
    ensures q == p ==> !IsFollowed(h, q, n)
  {
  }

  /** Who is followed, one access later. */
  lemma FollowedNext(h: History, q: nat, n: nat)
    requires q < n < |h|
    ensures IsFollowed(h, q, n + 1) <==> IsFollowed(h, q, n) || (Linked(h, n) && Before(h, n) == q)
  {
  }

  /** What recycling at time n does to a slot. */
  lemma LivesNext(h: History, p: nat, n: nat)
    requires p < n < |h| && p == LastInSlot(h, n, SlotOf(h, p))
    ensures Lives(h, p, n + 1) <==>
              && Lives(h, p, n)
              && !(n >= GHB_SIZE && SlotOf(h, n - GHB_SIZE) == SlotOf(h, p) && !IsFollowed(h, n - GHB_SIZE, n))
  {
    if n >= GHB_SIZE && SlotOf(h, n - GHB_SIZE) == SlotOf(h, p) && n - GHB_SIZE <= p {
      FollowedUpTo(h, n - GHB_SIZE, p, n);
    }
  }

  /** A new access is what its slot points to. */
  lemma NewestLives(h: History, n: nat)
    requires n < |h|
    ensures LastInSlot(h, n + 1, SlotOf(h, n)) == n && Lives(h, n, n + 1)
  {
  }

  /** The slot that the recycled entry still has. */
  lemma RecycledSlot(h: History, n: nat, it: seq<ItEntry>, ghb: seq<GhbEntry>)
    requires n < |h| && Describes(h, n, Tables(it, ghb))
    ensures if n >= GHB_SIZE then EntryIs(h, n, n - GHB_SIZE, ghb[EntryOf(n)]) else ghb[EntryOf(n)].it == NULL
    ensures ghb[EntryOf(n)].it == NULL || 0 <= ghb[EntryOf(n)].it < IT_SIZE
  {
    if n >= GHB_SIZE {
      SameEntry(n - GHB_SIZE);
      assert EntryIs(h, n, n - GHB_SIZE, ghb[EntryOf(n)]);
    }
  }

  /** The slot of the new access, once the recycled entry has been cut off. */
  lemma CutOwnSlot(h: History, n: nat, it: seq<ItEntry>, ghb: seq<GhbEntry>)
    requires n < |h| && Describes(h, n, Tables(it, ghb))
    requires ghb[EntryOf(n)].it == NULL || 0 <= ghb[EntryOf(n)].it < IT_SIZE
    requires if n >= GHB_SIZE then EntryIs(h, n, n - GHB_SIZE, ghb[EntryOf(n)]) else ghb[EntryOf(n)].it == NULL
    ensures
      var cut := CutSlot(ResetSlot(it, SlotOf(h, n), h[n].ip), ghb[EntryOf(n)].it);
      && cut[SlotOf(h, n)].ip == h[n].ip
      && cut[SlotOf(h, n)].ghbPtr == PointerOf(h, Before(h, n), Linked(h, n))
  {
    assert SlotIs(h, n, SlotOf(h, n), it[SlotOf(h, n)]);
    var p := Before(h, n);
    if p >= 0 {
      LivesNext(h, p, n);
    } else if n >= GHB_SIZE {
      assert SlotOf(h, n - GHB_SIZE) != SlotOf(h, n);
    }
  }

  /** The other slots. */
  lemma CutOneSlot(h: History, n: nat, it: seq<ItEntry>, ghb: seq<GhbEntry>, s: nat)
    requires n < |h| && Describes(h, n, Tables(it, ghb)) && s < IT_SIZE && s != SlotOf(h, n)
    requires ghb[EntryOf(n)].it == NULL || 0 <= ghb[EntryOf(n)].it < IT_SIZE
    requires if n >= GHB_SIZE then EntryIs(h, n, n - GHB_SIZE, ghb[EntryOf(n)]) else ghb[EntryOf(n)].it == NULL
    ensures SlotIs(h, n + 1, s, CutSlot(ResetSlot(it, SlotOf(h, n), h[n].ip), ghb[EntryOf(n)].it)[s])
  {
    assert SlotIs(h, n, s, it[s]);
    var p := LastInSlot(h, n, s);
    assert LastInSlot(h, n + 1, s) == p;
    if p >= 0 {
      LivesNext(h, p, n);
    } else if n >= GHB_SIZE {
      assert SlotOf(h, n - GHB_SIZE) != s;
    }
  }

  /** The `next` links of the entries. */
  lemma NextLinks(h: History, n: nat, e: nat)
    requires n < |h|
    ensures LastLink(h, n + 1, e) == if Linked(h, n) && EntryOf(Before(h, n)) == e then n else LastLink(h, n, e)
  {
  }

  /** What an insertion does to each entry. */
  lemma LinkedAt(ghb: seq<GhbEntry>, e: nat, line: nat, p: int, s: nat, d: nat)
    requires e < |ghb| && d < |ghb| && p != e && (p == NULL || 0 <= p < |ghb|)
    requires ghb[e].next == NULL || 0 <= ghb[e].next < |ghb|
    ensures
      var x := LinkGhb(CutNewer(ghb, e), e, line, p, s)[d];
      if d == e then x == GhbEntry(line, p, ghb[e].next, s)
      else x == GhbEntry(ghb[d].addr, if d == ghb[e].next then NULL else ghb[d].prev,
                         if d == p then e else ghb[d].next, if d == p then NULL else ghb[d].it)
  {
  }

  /** The new access is not linked to its own entry. */
  lemma LinkedElsewhere(h: History, n: nat)
    requires n < |h|
    ensures PointerOf(h, Before(h, n), Linked(h, n)) != EntryOf(n)
  {
    if Linked(h, n) {
      LinkedIsNear(h, n);
      EntriesDiffer(Before(h, n), n);
    }
  }

  ghost predicate IsLinkedGhb(h: History, n: nat, ghb: seq<GhbEntry>, ghbNow: seq<GhbEntry>)
    requires n < |h|
  {
    && |ghb| == |ghbNow| == GHB_SIZE
    && NextIs(h, n, EntryOf(n), ghb[EntryOf(n)])
    && ghbNow == LinkGhb(CutNewer(ghb, EntryOf(n)), EntryOf(n), h[n].line,
                         PointerOf(h, Before(h, n), Linked(h, n)), SlotOf(h, n))
  }

  lemma LinkedNext(h: History, n: nat, ghb: seq<GhbEntry>, ghbNow: seq<GhbEntry>, d: nat)
    requires n < |h| && IsLinkedGhb(h, n, ghb, ghbNow) && d < GHB_SIZE && NextIs(h, n, d, ghb[d])
    ensures NextIs(h, n + 1, d, ghbNow[d])
  {
    LinkedElsewhere(h, n);
    LinkedAt(ghb, EntryOf(n), h[n].line, PointerOf(h, Before(h, n), Linked(h, n)), SlotOf(h, n), d);
    NextLinks(h, n, d);
  }

  lemma LinkedFresh(h: History, n: nat, ghb: seq<GhbEntry>, ghbNow: seq<GhbEntry>, d: nat)
    requires n < |h| && IsLinkedGhb(h, n, ghb, ghbNow) && n < d < GHB_SIZE && ghb[d].prev == NULL && ghb[d].it == NULL
    ensures ghbNow[d].prev == NULL && ghbNow[d].it == NULL
  {
    LinkedElsewhere(h, n);
    LinkedAt(ghb, EntryOf(n), h[n].line, PointerOf(h, Before(h, n), Linked(h, n)), SlotOf(h, n), d);
  }

  lemma LinkedNewest(h: History, n: nat, ghb: seq<GhbEntry>, ghbNow: seq<GhbEntry>)
    requires n < |h| && IsLinkedGhb(h, n, ghb, ghbNow)
    ensures EntryIs(h, n + 1, n, ghbNow[EntryOf(n)])
  {
    LinkedElsewhere(h, n);
    LinkedAt(ghb, EntryOf(n), h[n].line, PointerOf(h, Before(h, n), Linked(h, n)), SlotOf(h, n), EntryOf(n));
    assert Present(h, n, n + 1) == Linked(h, n);
    assert !IsFollowed(h, n, n + 1);
  }

  /** Whose link is present, one access later. */
  lemma PresentNext(h: History, t: nat, n: nat)
    requires t < n < |h|
    ensures Present(h, t, n + 1) == (Present(h, t, n) && !Cuts(h, n, t))
  {
  }

  lemma LinkedOlder(h: History, n: nat, ghb: seq<GhbEntry>, ghbNow: seq<GhbEntry>, t: nat)
    requires n < |h| && IsLinkedGhb(h, n, ghb, ghbNow) && t < n < t + GHB_SIZE && EntryIs(h, n, t, ghb[EntryOf(t)])
    ensures EntryIs(h, n + 1, t, ghbNow[EntryOf(t)])
  {
    var p := Before(h, n);
    LinkedElsewhere(h, n);
    LinkedAt(ghb, EntryOf(n), h[n].line, PointerOf(h, p, Linked(h, n)), SlotOf(h, n), EntryOf(t));
    EntriesDiffer(t, n);
    FollowedNext(h, t, n);
    PresentNext(h, t, n);
    SamePointer(h, n, t);
  }

  /** The entry that the new access is linked to is only that of the access before. */
  lemma SamePointer(h: History, n: nat, t: nat)
    requires t < n < |h| && n < t + GHB_SIZE
    ensures EntryOf(t) == PointerOf(h, Before(h, n), Linked(h, n)) <==> Linked(h, n) && Before(h, n) == t
  {
    var p := Before(h, n);
    if Linked(h, n) && p != t {
      LinkedIsNear(h, n);
      EntriesDiffer(if p < t then p else t, if p < t then t else p);
    }
  }

  /** An access keeps the tables as the history says. */
  lemma DescribesNext(h: History, n: nat, t: Tables)
    requires n < |h| && Describes(h, n, t)
    ensures IsInsertable(t, EntryOf(n), h[n].ip)
    ensures Describes(h, n + 1, Inserted(t, EntryOf(n), h[n].line, h[n].ip))
  {
    var it, ghb := t.it, t.ghb;
    RecycledSlot(h, n, it, ghb);
    CutOwnSlot(h, n, it, ghb);
    LinkedElsewhere(h, n);
    NewestLives(h, n);
    assert NextIs(h, n, EntryOf(n), ghb[EntryOf(n)]);
    var itNow := Inserted(t, EntryOf(n), h[n].line, h[n].ip).it;
    var ghbNow := Inserted(t, EntryOf(n), h[n].line, h[n].ip).ghb;
    hide LastLink, Linked, Lives, Present, IsFollowed;
    forall s | 0 <= s < IT_SIZE
      ensures SlotIs(h, n + 1, s, itNow[s])
    {
      if s != SlotOf(h, n) {
        CutOneSlot(h, n, it, ghb, s);
      }
    }
    assert IsLinkedGhb(h, n, ghb, ghbNow);
    forall d | 0 <= d < GHB_SIZE
      ensures NextIs(h, n + 1, d, ghbNow[d])
    {
      LinkedNext(h, n, ghb, ghbNow, d);
    }
    forall t: nat | t < n + 1 <= t + GHB_SIZE
      ensures EntryIs(h, n + 1, t, ghbNow[EntryOf(t)])
    {
      if t == n {
        LinkedNewest(h, n, ghb, ghbNow);
      } else {
        LinkedOlder(h, n, ghb, ghbNow, t);
      }
    }
    forall d | n + 1 <= d < GHB_SIZE
      ensures ghbNow[d].prev == NULL && ghbNow[d].it == NULL
    {
      LinkedFresh(h, n, ghb, ghbNow, d);
    }
  }

  // ---- whole histories ----

  function EmptyTables(): (t: Tables)
    ensures |t.it| == IT_SIZE && forall s :: 0 <= s < IT_SIZE ==> t.it[s] == ItEntry(0, NULL)
    ensures |t.ghb| == GHB_SIZE && forall e :: 0 <= e < GHB_SIZE ==> t.ghb[e] == GhbEntry(0, NULL, NULL, NULL)
  {
    Tables(seq(IT_SIZE, _ => ItEntry(0, NULL)), seq(GHB_SIZE, _ => GhbEntry(0, NULL, NULL, NULL)))
  }

  ghost predicate IsStep(h: History, run: seq<Tables>, n: nat)
    requires n < |h| && n + 1 < |run|
  {
    && IsInsertable(run[n], EntryOf(n), h[n].ip)
    && run[n + 1] == Inserted(run[n], EntryOf(n), h[n].line, h[n].ip)
  }

  /** The tables that the first n accesses of a history go through, from empty ones on. */
  ghost predicate IsRun(h: History, run: seq<Tables>, n: nat) {
    n <= |h| && n < |run| && run[0] == EmptyTables() && forall i :: 0 <= i < n ==> IsStep(h, run, i)
  }

  /** They are as the history says. */
  lemma {:induction false} TablesAre(h: History, run: seq<Tables>, n: nat)
    requires IsRun(h, run, n)
    ensures Describes(h, n, run[n])
  {
    if n > 0 {
      TablesAre(h, run, n - 1);
      DescribesNext(h, n - 1, run[n - 1]);
      assert IsStep(h, run, n - 1);
    }
  }

  /** One more access can always be recorded. */
  lemma RunGrows(h: History, run: seq<Tables>, a: Access) returns (after: Tables)
    requires IsRun(h, run, |h|) && |run| == |h| + 1
    ensures IsInsertable(run[|h|], EntryOf(|h|), a.ip)
    ensures after == Inserted(run[|h|], EntryOf(|h|), a.line, a.ip)
    ensures IsRun(h + [a], run + [after], |h| + 1)
  {
    var longer := h + [a];
    assert IsRun(longer, run, |h|) by {
      hide Inserted, IsInsertable;
      forall i | 0 <= i < |h|
        ensures IsStep(longer, run, i)
      {
        assert IsStep(h, run, i);
      }
    }
    TablesAre(longer, run, |h|);
    DescribesNext(longer, |h|, run[|h|]);
    after := Inserted(run[|h|], EntryOf(|h|), a.line, a.ip);
    hide Describes, Inserted, IsInsertable;
    var runLonger := run + [after];
    forall i | 0 <= i < |longer|
      ensures IsStep(longer, runLonger, i)
    {
      assert i < |h| ==> IsStep(longer, run, i);
    }
  }

  /** The link of an access is there exactly if the history says so. */
  lemma LinkIff(h: History, run: seq<Tables>, t: nat, n: nat)
    requires IsRun(h, run, n) && t < n <= t + GHB_SIZE
    ensures |run[n].ghb| == GHB_SIZE && run[n].ghb[EntryOf(t)].addr == h[t].line
    ensures run[n].ghb[EntryOf(t)].prev != NULL <==> Present(h, t, n)
    ensures Present(h, t, n) ==> 0 <= Before(h, t) && run[n].ghb[EntryOf(t)].prev == EntryOf(Before(h, t))
    ensures !Present(h, t, n) ==> run[n].ghb[EntryOf(t)].prev == NULL
  {
    TablesAre(h, run, n);
    assert EntryIs(h, n, t, run[n].ghb[EntryOf(t)]);
    if Linked(h, t) {
      LinkedIsNear(h, t);
    }
  }

  /** Once the entry of the access before has been recycled, the link is gone: nothing leads to an entry
      that holds another access by now. */
  lemma PredecessorIsThere(h: History, t: nat, n: nat)
    requires t < n <= |h| && Present(h, t, n)
    ensures 0 <= Before(h, t) && n <= Before(h, t) + GHB_SIZE
  {
    LinkedIsNear(h, t);
    var p := Before(h, t);
    var r := p + GHB_SIZE;
    if r < n {
      SameEntry(p);
      var u := LastLink(h, r, EntryOf(r));
      if u > t {
        LinkedIsNear(h, u);
        var q := Before(h, u);
        if q < p {
          EntriesDiffer(q, p);
        } else if p < q {
          EntriesDiffer(p, q);
        }
      }
      assert Cuts(h, r, t);
    }
  }

  /** Recycling an entry at time r follows a left-over `next` link to the entry of the access at time t. */
  ghost predicate IsLeftOver(h: History, r: nat, t: nat)
    requires r < |h|
  {
    var u := LastLink(h, r, EntryOf(r));
    0 <= u && u != t && EntryOf(u) == EntryOf(t)
  }

  /** The exact condition for a link, of an access whose entry has not been recycled: the instruction has
      kept its slot since its access before; that one's entry has not been recycled; no older entry that
      had kept the slot was recycled between the two; and no entry that was recycled since had a left-over
      link to this one. */
  lemma PresentIff(h: History, t: nat, n: nat)
    requires t < n <= |h| && n <= t + GHB_SIZE
    ensures
      var p := Before(h, t);
      Present(h, t, n) <==>
        && p >= 0 && h[p].ip == h[t].ip
        && n <= p + GHB_SIZE
        && (forall q: nat :: q < p < q + GHB_SIZE <= t && SlotOf(h, q) == SlotOf(h, t) ==> IsFollowed(h, q, p + 1))
        && (forall r: nat :: t < r < n ==> !IsLeftOver(h, r, t))
  {
    var p := Before(h, t);
    if Present(h, t, n) {
      PredecessorIsThere(h, t, n);
      assert Lives(h, p, t + 1);
      forall r: nat | t < r < n
        ensures !IsLeftOver(h, r, t)
      {
        assert !Cuts(h, r, t);
      }
    } else if p >= 0 && h[p].ip == h[t].ip && n <= p + GHB_SIZE && Lives(h, p, t + 1) {
      var r: nat :| t < r < n && Cuts(h, r, t);
      EntriesDiffer(p, r);
      assert IsLeftOver(h, r, t);
    }
  }

  // ---- chains ----

  /** The lines of the first k entries along `prev`, or of all if there are fewer. */
  ghost function Chain(ghb: seq<GhbEntry>, e: int, k: nat): seq<nat>
    decreases k
  {
    if k == 0 || !(0 <= e < |ghb|) then [] else [ghb[e].addr] + Chain(ghb, ghb[e].prev, k - 1)
  }

  /** What the history says they are. */
  ghost function Lines(h: History, t: nat, n: nat, k: nat): (lines: seq<nat>)
    requires t < n <= |h|
    ensures |lines| <= k && (k > 0 ==> |lines| > 0 && lines[0] == h[t].line)
    decreases k
  {
    if k == 0 then []
    else [h[t].line] + if Present(h, t, n) && Before(h, t) >= 0 then Lines(h, Before(h, t), n, k - 1) else []
  }

  /** One step along a chain. */
  lemma ChainStep(h: History, run: seq<Tables>, t: nat, n: nat, k: nat)
    requires IsRun(h, run, n) && t < n <= t + GHB_SIZE && k > 0
    ensures |run[n].ghb| == GHB_SIZE
    ensures
      var x, p := run[n].ghb[EntryOf(t)], Before(h, t);
      && x.addr == h[t].line
      && if x.prev == NULL then Lines(h, t, n, k) == [x.addr]
         else
           && 0 <= p && n <= p + GHB_SIZE && x.prev == EntryOf(p)
           && Lines(h, t, n, k) == [x.addr] + Lines(h, p, n, k - 1)
  {
    LinkIff(h, run, t, n);
    if Present(h, t, n) {
      PredecessorIsThere(h, t, n);
    }
  }

  lemma {:induction false} ChainIs(h: History, run: seq<Tables>, t: nat, n: nat, k: nat)
    requires IsRun(h, run, n) && t < n <= t + GHB_SIZE
    ensures Chain(run[n].ghb, EntryOf(t), k) == Lines(h, t, n, k)
    decreases k
  {
    if k > 0 {
      ChainStep(h, run, t, n, k);
      if run[n].ghb[EntryOf(t)].prev != NULL {
        ChainIs(h, run, Before(h, t), n, k - 1);
      }
    }
  }

  /** The instruction has not been seen before. */
  ghost predicate IsFirst(h: History, t: nat)
    requires t < |h|
  {
    forall u :: 0 <= u < t ==> h[u].ip != h[t].ip
  }

  lemma RecentNow(h: History, t: nat)
    requires t < |h|
    ensures Recent(h[..t + 1], h[t].ip) == [h[t].line] + Recent(h[..t], h[t].ip)
  {
    assert h[..t + 1][..t] == h[..t];
  }

  /** Before an access come those up to the one before in its slot. */
  lemma RecentEarlier(h: History, t: nat, p: nat)
    requires p < t < |h| && p == Before(h, t) && h[p].ip == h[t].ip
    ensures Recent(h[..t], h[t].ip) == Recent(h[..p + 1], h[p].ip) != []
  {
    forall v | p + 1 <= v < t
      ensures h[v].ip != h[t].ip
    {
      assert SlotOf(h, v) != SlotOf(h, t);
    }
    RecentSkips(h, p + 1, t, h[t].ip);
    RecentNow(h, p);
  }

  lemma {:induction false} RecentIsEmpty(h: History, t: nat, ip: nat)
    requires t <= |h|
    ensures Recent(h[..t], ip) == [] <==> forall u :: 0 <= u < t ==> h[u].ip != ip
  {
    if t > 0 {
      RecentIsEmpty(h, t - 1, ip);
      assert h[..t][..t - 1] == h[..t - 1];
    }
  }

  /** The last time before n at which entry e was written. */
  lemma LastWrite(e: nat, n: nat) returns (t: nat)
    requires e < GHB_SIZE && e < n
    ensures t < n <= t + GHB_SIZE && EntryOf(t) == e
  {
    t := n - 1 - (n - 1 - e) % GHB_SIZE;
    assert t == e + (n - 1 - e) / GHB_SIZE * GHB_SIZE;
  }

  /** Links lead to entries. */
  lemma PrevsAreEntries(h: History, run: seq<Tables>, n: nat)
    requires IsRun(h, run, n)
    ensures |run[n].ghb| == GHB_SIZE
    ensures forall e :: 0 <= e < GHB_SIZE ==> run[n].ghb[e].prev == NULL || InBuffer(run[n].ghb[e].prev)
  {
    TablesAre(h, run, n);
    forall e: nat | e < GHB_SIZE
      ensures run[n].ghb[e].prev == NULL || InBuffer(run[n].ghb[e].prev)
    {
      if e < n {
        var t := LastWrite(e, n);
        LinkIff(h, run, t, n);
      }
    }
  }

  /** A chain lists the most recent lines of its instruction, newest first: it may stop early, but it
      leaves none out and adds none. */
  lemma {:induction false} LinesAreRecent(h: History, t: nat, n: nat, k: nat)
    requires t < n <= |h|
    ensures Lines(h, t, n, k) <= Recent(h[..t + 1], h[t].ip)
    decreases k
  {
    RecentNow(h, t);
    var p := Before(h, t);
    if k > 0 && Present(h, t, n) && p >= 0 {
      LinkedIsNear(h, t);
      RecentEarlier(h, t, p);
      LinesAreRecent(h, p, n, k - 1);
    }
  }

  lemma SlotPointer(h: History, run: seq<Tables>, n: nat, s: nat)
    requires IsRun(h, run, n) && s < IT_SIZE
    ensures |run[n].it| == IT_SIZE
    ensures
      var x, p := run[n].it[s], LastInSlot(h, n, s);
      x.ghbPtr != NULL ==> p >= 0 && n <= p + GHB_SIZE && x == ItEntry(h[p].ip, EntryOf(p))
  {
    TablesAre(h, run, n);
    assert SlotIs(h, n, s, run[n].it[s]);
  }

  /** From a slot of the index table, it starts with the latest access of the slot's current instruction. */
  lemma SlotChainIsRecent(h: History, run: seq<Tables>, n: nat, s: nat, k: nat)
    requires IsRun(h, run, n) && s < IT_SIZE
    ensures |run[n].it| == IT_SIZE
    ensures run[n].it[s].ghbPtr != NULL ==>
              Chain(run[n].ghb, run[n].it[s].ghbPtr, k) <= Recent(h[..n], run[n].it[s].ip)
  {
    SlotPointer(h, run, n, s);
    var p := LastInSlot(h, n, s);
    if run[n].it[s].ghbPtr != NULL {
      ChainIs(h, run, p, n, k);
      LinesAreRecent(h, p, n, k);
      forall v | p + 1 <= v < n
        ensures h[v].ip != h[p].ip
      {
        assert SlotOf(h, v) != s;
      }
      RecentSkips(h, p + 1, n, h[p].ip);
    }
  }

  // ---- when a chain is complete ----

  /** The first k links of the chain are there, as far as the instruction has earlier accesses. */
  ghost predicate AllPresent(h: History, t: nat, n: nat, k: nat)
    requires t < n <= |h|
    decreases k
  {
    k == 0 || IsFirst(h, t) || (Present(h, t, n) && Before(h, t) >= 0 && AllPresent(h, Before(h, t), n, k - 1))
  }

  /** Exactly then it lists as many accesses as asked for, or all that there have been. */
  lemma {:induction false} CompleteIff(h: History, t: nat, n: nat, k: nat)
    requires t < n <= |h|
    ensures |Lines(h, t, n, k + 1)| == Min(k + 1, |Recent(h[..t + 1], h[t].ip)|) <==> AllPresent(h, t, n, k)
    decreases k
  {
    RecentNow(h, t);
    RecentIsEmpty(h, t, h[t].ip);
    var p := Before(h, t);
    if k > 0 && Present(h, t, n) && p >= 0 {
      LinkedIsNear(h, t);
      RecentEarlier(h, t, p);
      CompleteIff(h, p, n, k - 1);
    }
  }

  /** What the chain of the newest access, at time t, lists. */
  lemma NewestLines(h: History, run: seq<Tables>, t: nat)
    requires IsRun(h, run, |h|) && |h| == t + 1
    ensures Chain(run[|h|].ghb, EntryOf(t), 3) == Lines(h, t, |h|, 3) <= Recent(h, h[t].ip)
    ensures |Lines(h, t, |h|, 3)| == Min(3, |Recent(h, h[t].ip)|) <==> AllPresent(h, t, |h|, 2)
  {
    ChainIs(h, run, t, |h|, 3);
    LinesAreRecent(h, t, |h|, 3);
    CompleteIff(h, t, |h|, 2);
    assert h[..t + 1] == h;
  }

  /** So it is, as long as no entry has been recycled, for an instruction that has its slot for itself. */
  lemma {:induction false} FillingIsComplete(h: History, t: nat, n: nat, k: nat)
    requires t < n <= |h| && n <= GHB_SIZE && Alone(h, h[t].ip)
    ensures AllPresent(h, t, n, k)
    decreases k
  {
    var p := Before(h, t);
    if k > 0 && !IsFirst(h, t) {
      var u :| 0 <= u < t && h[u].ip == h[t].ip;
      assert SlotOf(h, u) == SlotOf(h, t);
      FillingIsPresent(h, t, n);
      FillingIsComplete(h, p, n, k - 1);
    }
  }

  lemma FillingIsPresent(h: History, t: nat, n: nat)
    requires t < n <= |h| && n <= GHB_SIZE && Before(h, t) >= 0 && h[Before(h, t)].ip == h[t].ip
    ensures Present(h, t, n)
  {
    assert Lives(h, Before(h, t), t + 1);
    forall r: nat | t < r < n
      ensures !Cuts(h, r, t)
    {
      FreshHasNoLink(h, r);
    }
  }

  /** Nothing has been linked to an entry that has not been written. */
  lemma FreshHasNoLink(h: History, r: nat)
    requires r < |h| && r < GHB_SIZE
    ensures LastLink(h, r, EntryOf(r)) < 0
  {
    var u := LastLink(h, r, EntryOf(r));
    if u >= 0 {
      LinkedIsNear(h, u);
      EntriesDiffer(Before(h, u), r);
    }
  }

  // ---- a left-over link in action ----

  /** Instruction 1 accesses memory at times 0 and 5, instruction 2 at time 256, instruction 3 lines 10, 11
      and 12 at times 258, 261 and 513, and instruction 4 at all other times. */
  function LeftOverHistory(): (h: History)
    ensures |h| == 514
  {
    seq(514, i => if i == 0 || i == 5 then Access(1, 0) else if i == 256 then Access(2, 0)
                  else if i == 258 then Access(3, 10) else if i == 261 then Access(3, 11)
                  else if i == 513 then Access(3, 12) else Access(4, 0))
  }

  lemma LeftOverSlot(h: History, t: nat)
    requires h == LeftOverHistory() && t < 514
    ensures SlotOf(h, t) == h[t].ip
    ensures h[t].ip == if t == 0 || t == 5 then 1 else if t == 256 then 2
                       else if t == 258 || t == 261 || t == 513 then 3 else 4
  {
  }

  lemma BeforeIs(h: History, t: nat, p: int)
    requires -1 <= p < t < |h| && (p >= 0 ==> SlotOf(h, p) == SlotOf(h, t))
    requires forall v: nat :: p < v < t ==> SlotOf(h, v) != SlotOf(h, t)
    ensures Before(h, t) == p
  {
    hide SlotOf, LastInSlot;
  }

  lemma LeftOverLinks(h: History, t0: nat, t1: nat, t2: nat, t3: nat)
    requires h == LeftOverHistory() && t0 == 5 && t1 == 258 && t2 == 261 && t3 == 513
    ensures Before(h, t3) == t2 && Before(h, t2) == t1 && Before(h, t1) == -1
    ensures Linked(h, t3) && Linked(h, t2)
    ensures Linked(h, t0) && Before(h, t0) == 0
  {
    forall v: nat | v < 514
      ensures SlotOf(h, v) == h[v].ip
      ensures h[v].ip == if v == 0 || v == 5 then 1 else if v == 256 then 2
                         else if v == 258 || v == 261 || v == 513 then 3 else 4
    {
      LeftOverSlot(h, v);
    }
    BeforeIs(h, t3, t2);
    BeforeIs(h, t2, t1);
    BeforeIs(h, t1, -1);
    BeforeIs(h, t0, 0);
    assert Lives(h, 0, t0 + 1) && Lives(h, t1, t2 + 1) && Lives(h, t2, t3 + 1);
  }

  /** The last link to entry 0 before time 512 is that of time 5. */
  lemma LeftOverLink(h: History, t0: nat, r: nat)
    requires h == LeftOverHistory() && t0 == 5 && r == 512 && Linked(h, t0) && Before(h, t0) == 0
    ensures LastLink(h, r, EntryOf(r)) == t0
  {
    var u := LastLink(h, r, EntryOf(r));
    assert EntryOf(r) == EntryOf(0) == 0;
    assert u >= t0;
    LeftOverSlot(h, u);
    LeftOverSlot(h, Before(h, u));
    hide LastLink, Linked, LeftOverHistory;
  }

  /** Recycling entry 0 at time 512 follows that link to the entry that time 261 has now. */
  lemma LeftOverPresence(h: History, t0: nat, t2: nat, t3: nat, r: nat)
    requires h == LeftOverHistory() && t0 == 5 && t2 == 261 && t3 == 513 && r == 512
    requires Linked(h, t3) && Linked(h, t2) && LastLink(h, r, EntryOf(r)) == t0
    ensures Present(h, t3, |h|) && !Present(h, t2, |h|) && IsLeftOver(h, r, t2)
  {
    assert EntryOf(t0) == EntryOf(t2) == 5;
    assert Cuts(h, r, t2);
  }

  lemma RecentFirst(h: History, t: nat)
    requires t < |h| && Before(h, t) < 0
    ensures Recent(h[..t + 1], h[t].ip) == [h[t].line]
  {
    forall u | 0 <= u < t
      ensures h[u].ip != h[t].ip
    {
      assert SlotOf(h, u) != SlotOf(h, t);
    }
    RecentIsEmpty(h, t, h[t].ip);
    RecentNow(h, t);
  }

  lemma RecentNext(h: History, t: nat, p: nat)
    requires p < t < |h| && p == Before(h, t) && h[p].ip == h[t].ip
    ensures Recent(h[..t + 1], h[t].ip) == [h[t].line] + Recent(h[..p + 1], h[p].ip)
  {
    RecentNow(h, t);
    RecentEarlier(h, t, p);
  }

  /** An instruction with three accesses, the last of them just now, and with the link between the others
      gone. */
  lemma ShortChain(h: History, t1: nat, t2: nat, t3: nat)
    requires t1 < t2 < t3 < |h| == t3 + 1 && h[t1].ip == h[t2].ip == h[t3].ip
    requires Before(h, t3) == t2 && Before(h, t2) == t1 && Before(h, t1) < 0
    requires Present(h, t3, |h|) && !Present(h, t2, |h|)
    ensures Recent(h, h[t3].ip) == [h[t3].line, h[t2].line, h[t1].line]
    ensures Lines(h, t3, |h|, 3) == [h[t3].line, h[t2].line]
  {
    RecentFirst(h, t1);
    RecentNext(h, t2, t1);
    RecentNext(h, t3, t2);
    assert h[..t3 + 1] == h;
    assert Lines(h, t2, |h|, 2) == [h[t2].line];
  }

  /** Instruction 3 has a stride and all its accesses are in the buffer, but its chain stops early, because
      of a left-over link. */
  lemma LeftOverCuts(h: History, run: seq<Tables>, t1: nat, t2: nat, t3: nat, r: nat)
    requires IsRun(h, run, |h|)
    requires h == LeftOverHistory() && t1 == 258 && t2 == 261 && t3 == 513 && r == 512
    ensures Linked(h, t2) && Before(h, t2) == t1 && |h| <= t1 + GHB_SIZE
    ensures IsLeftOver(h, r, t2) && !Present(h, t2, |h|)
    ensures Recent(h, h[t3].ip) == [12, 11, 10] && HasStride([12, 11, 10])
    ensures Chain(run[|h|].ghb, EntryOf(t3), 3) == [12, 11]
  {
    var t0 := 5;
    LeftOverLinks(h, t0, t1, t2, t3);
    LeftOverLink(h, t0, r);
    LeftOverPresence(h, t0, t2, t3, r);
    ShortChain(h, t1, t2, t3);
    ChainIs(h, run, t3, |h|, 3);
  }
}
