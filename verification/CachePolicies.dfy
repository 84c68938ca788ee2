/**
 The replacement policies as lists: five of them keep a list of tags, whose ends they take from and add to, and
 the sixth gives the block that it brings in the oldest time of the set.
 */
module CachePolicies {
  import opened Common
  import opened Recency
  import opened CacheRuns
  import CacheBlocks
  import C = Cache

  // ---- the lists ----

  predicate Distinct(s: seq<nat>) {
    forall p, q :: 0 <= p < q < |s| ==> s[p] != s[q]
  }

  /** The first position of x, or the length. */
  function Find(s: seq<nat>, x: nat): (p: nat)
    ensures p <= |s| && (p < |s| <==> x in s)
    ensures p < |s| ==> s[p] == x
  {
    if s == [] || s[0] == x then 0 else 1 + Find(s[1..], x)
  }

  function ToEnd(s: seq<nat>, p: nat): seq<nat>
    requires p < |s|
  {
    Without(s, p) + [s[p]]
  }

  /** FIFO and LIFO go by the time of insertion, the others by the time of the last access. */
  predicate CountsInsertions(policy: C.Policy) {
    policy.Fifo? || policy.Lifo?
  }

  /** What an access to a tag does to the list of a set: FIFO is a queue and LIFO a stack, each of limited size;
      the others move a tag that is accessed to the end, and replace the first tag (LRU) or the last one (MRU),
      in its place or at the end. */
  function Next(policy: C.Policy, list: seq<nat>, ways: nat, tag: nat): seq<nat>
    requires ways > 0
  {
    if tag in list then
      if CountsInsertions(policy) then list else ToEnd(list, Find(list, tag))
    else if |list| < ways then list + [tag]
    else match policy
      case Fifo => list[1..] + [tag]
      case Lifo => list[..|list| - 1] + [tag]
      case LruMru => list[1..] + [tag]
      case LruLru => [tag] + list[1..]
      case MruMru => list[..|list| - 1] + [tag]
      case MruLru => list
  }

  // ---- the order of the ways ----

  /** The time that puts the blocks of a set in order. */
  function TimeOf(policy: C.Policy, b: C.Block): int {
    if CountsInsertions(policy) then b.insertTimestamp else b.lastAccess
  }

  /** The valid ways in the order of their times. */
  ghost predicate IsOrder(policy: C.Policy, ways: seq<C.Block>, order: seq<nat>) {
    && AreValid(ways, order)
    && (forall i :: 0 <= i < |ways| && ways[i].valid ==> i in order)
    && AreSorted(policy, ways, order)
  }

  ghost predicate AreValid(ways: seq<C.Block>, order: seq<nat>) {
    forall p :: 0 <= p < |order| ==> order[p] < |ways| && ways[order[p]].valid
  }

  ghost predicate AreSorted(policy: C.Policy, ways: seq<C.Block>, order: seq<nat>)
    requires AreValid(ways, order)
  {
    forall p, q :: 0 <= p < q < |order| ==> TimeOf(policy, ways[order[p]]) < TimeOf(policy, ways[order[q]])
  }

  ghost predicate IsList(ways: seq<C.Block>, order: seq<nat>, list: seq<nat>)
    requires AreValid(ways, order)
  {
    |list| == |order| && forall p :: 0 <= p < |order| ==> list[p] == ways[order[p]].tag
  }

  /** No block has a later time than the next one will get. */
  ghost predicate AreEarlier(policy: C.Policy, ways: seq<C.Block>, now: int, counter: int) {
    forall i :: 0 <= i < |ways| && ways[i].valid ==>
      TimeOf(policy, ways[i]) <= if CountsInsertions(policy) then counter else now
  }

  /** The list of a set. */
  ghost predicate KeepsList(policy: C.Policy, ways: seq<C.Block>, order: seq<nat>, list: seq<nat>) {
    IsOrder(policy, ways, order) && IsList(ways, order, list) && Distinct(list)
  }

  lemma {:induction false} DistinctSize(s: seq<nat>, n: nat)
    requires Distinct(s) && forall p :: 0 <= p < |s| ==> s[p] < n
    ensures |s| <= n
    ensures |s| == n ==> forall k :: 0 <= k < n ==> k in s
  {
    if s != [] {
      assert s[0] < n;
      var p := Find(s, n - 1);
      if p < |s| {
        var left := Without(s, p);
        DistinctSize(left, n - 1);
        hide Distinct;
        forall k | 0 <= k < n - 1 && |s| == n
          ensures k in s
        {
          assert k in left;
        }
      } else {
        DistinctSize(s, n - 1);
      }
    }
  }

  lemma OrderIsDistinct(policy: C.Policy, ways: seq<C.Block>, order: seq<nat>)
    requires IsOrder(policy, ways, order)
    ensures Distinct(order)
  {
    forall p, q | 0 <= p < q < |order|
      ensures order[p] != order[q]
    {
      assert TimeOf(policy, ways[order[p]]) < TimeOf(policy, ways[order[q]]);
    }
  }

  /** The list is full exactly when no way is free. */
  lemma FullIff(policy: C.Policy, ways: seq<C.Block>, order: seq<nat>)
    requires IsOrder(policy, ways, order)
    ensures |order| <= |ways|
    ensures |order| == |ways| <==> C.FindInvalid(ways) == |ways|
  {
    OrderIsDistinct(policy, ways, order);
    hide TimeOf, Distinct;
    DistinctSize(order, |ways|);
    var free := C.FindInvalid(ways);
    if free == |ways| {
      AllAreIn(order, |ways|);
    } else {
      assert free !in order;
    }
  }

  lemma {:induction false} AllAreIn(s: seq<nat>, n: nat)
    requires forall k :: 0 <= k < n ==> k in s
    ensures |s| >= n
  {
    if n > 0 {
      var p := Find(s, n - 1);
      var left := Without(s, p);
      forall k | 0 <= k < n - 1
        ensures k in left
      {
        var q := Find(s, k);
        assert left[if q < p then q else q - 1] == k;
      }
      AllAreIn(left, n - 1);
    }
  }

  lemma HitIffInList(policy: C.Policy, ways: seq<C.Block>, order: seq<nat>, list: seq<nat>, tag: nat)
    requires KeepsList(policy, ways, order, list)
    ensures C.FindHit(ways, tag) < |ways| <==> tag in list
    ensures tag in list ==> order[Find(list, tag)] == C.FindHit(ways, tag)
  {
    var i := C.FindHit(ways, tag);
    if i < |ways| {
      var p := Find(order, i);
      assert list[p] == tag;
    }
    if tag in list {
      var p := Find(list, tag);
      assert C.Holds(ways[order[p]], tag);
    }
  }

  // ---- one access ----

  lemma ToEndAt(s: seq<nat>, p: nat, q: nat)
    requires p < |s| && q < |s|
    ensures ToEnd(s, p)[q] == if q < p then s[q] else if q < |s| - 1 then s[q + 1] else s[p]
  {
  }

  lemma PutLastValid(ways: seq<C.Block>, order: seq<nat>, p: nat, b: C.Block)
    requires AreValid(ways, order) && p < |order| && b.valid
    ensures AreValid(ways[order[p] := b], ToEnd(order, p))
  {
    forall q | 0 <= q < |order|
      ensures ToEnd(order, p)[q] < |ways| && ways[order[p] := b][ToEnd(order, p)[q]].valid
    {
      ToEndAt(order, p, q);
    }
  }

  lemma PutLastSorted(policy: C.Policy, ways: seq<C.Block>, order: seq<nat>, p: nat, b: C.Block)
    requires AreValid(ways, order) && AreSorted(policy, ways, order) && Distinct(order) && p < |order| && b.valid
    requires forall q :: 0 <= q < |order| && q != p ==> TimeOf(policy, ways[order[q]]) < TimeOf(policy, b)
    requires AreValid(ways[order[p] := b], ToEnd(order, p))
    ensures AreSorted(policy, ways[order[p] := b], ToEnd(order, p))
  {
    var after, later := ways[order[p] := b], ToEnd(order, p);
    hide TimeOf;
    forall q, u | 0 <= q < u < |order|
      ensures TimeOf(policy, after[later[q]]) < TimeOf(policy, after[later[u]])
    {
      ToEndAt(order, p, q);
      ToEndAt(order, p, u);
    }
  }

  lemma InToEnd(s: seq<nat>, p: nat, i: nat)
    requires p < |s| && i in s
    ensures i in ToEnd(s, p)
  {
    if i == s[p] {
      ToEndAt(s, p, |s| - 1);
    } else {
      var q := Find(s, i);
      ToEndAt(s, p, if q < p then q else q - 1);
    }
  }

  lemma PutLastLists(ways: seq<C.Block>, order: seq<nat>, list: seq<nat>, p: nat, b: C.Block)
    requires AreValid(ways, order) && IsList(ways, order, list)
    requires Distinct(order) && Distinct(list) && p < |order| && b.valid && b.tag !in Without(list, p)
    requires AreValid(ways[order[p] := b], ToEnd(order, p))
    ensures IsList(ways[order[p] := b], ToEnd(order, p), Without(list, p) + [b.tag])
    ensures Distinct(Without(list, p) + [b.tag])
  {
    forall q | 0 <= q < |order|
      ensures ToEnd(order, p)[q] == if q < p then order[q] else if q < |order| - 1 then order[q + 1] else order[p]
    {
      ToEndAt(order, p, q);
    }
  }

  /** The way at position p gets a block of the latest time. */
  lemma PutLast(policy: C.Policy, ways: seq<C.Block>, order: seq<nat>, list: seq<nat>, p: nat, b: C.Block)
    requires KeepsList(policy, ways, order, list) && p < |order| && b.valid && b.tag !in Without(list, p)
    requires forall q :: 0 <= q < |order| && q != p ==> TimeOf(policy, ways[order[q]]) < TimeOf(policy, b)
    ensures KeepsList(policy, ways[order[p] := b], ToEnd(order, p), Without(list, p) + [b.tag])
  {
    OrderIsDistinct(policy, ways, order);
    PutLastValid(ways, order, p, b);
    PutLastSorted(policy, ways, order, p, b);
    PutLastLists(ways, order, list, p, b);
    hide TimeOf, AreValid, AreSorted, IsList, Distinct, ToEnd, Without;
    forall i | 0 <= i < |ways| && ways[order[p] := b][i].valid
      ensures i in ToEnd(order, p)
    {
      InToEnd(order, p, i);
    }
  }

  lemma PutNewOrders(policy: C.Policy, ways: seq<C.Block>, order: seq<nat>, i: nat, b: C.Block)
    requires IsOrder(policy, ways, order) && i < |ways| && !ways[i].valid && b.valid
    requires forall q :: 0 <= q < |order| ==> TimeOf(policy, ways[order[q]]) < TimeOf(policy, b)
    ensures IsOrder(policy, ways[i := b], order + [i])
  {
    hide TimeOf;
    var after, later := ways[i := b], order + [i];
    assert forall q :: 0 <= q < |order| ==> order[q] != i;
    assert later[|order|] == i;
    forall j | 0 <= j < |after| && after[j].valid && j != i
      ensures j in later
    {
      assert later[Find(order, j)] == j;
    }
  }

  /** A free way gets a block of the latest time. */
  lemma PutNew(policy: C.Policy, ways: seq<C.Block>, order: seq<nat>, list: seq<nat>, i: nat, b: C.Block)
    requires KeepsList(policy, ways, order, list) && i < |ways| && !ways[i].valid && b.valid && b.tag !in list
    requires forall q :: 0 <= q < |order| ==> TimeOf(policy, ways[order[q]]) < TimeOf(policy, b)
    ensures KeepsList(policy, ways[i := b], order + [i], list + [b.tag])
  {
    PutNewOrders(policy, ways, order, i, b);
    assert forall q :: 0 <= q < |order| ==> order[q] != i;
    hide TimeOf, IsOrder, AreSorted;
  }

  /** A way gets a block of the same time. */
  lemma PutInPlace(policy: C.Policy, ways: seq<C.Block>, order: seq<nat>, list: seq<nat>, p: nat, b: C.Block)
    requires KeepsList(policy, ways, order, list) && p < |order| && b.valid && b.tag !in list
    requires TimeOf(policy, b) == TimeOf(policy, ways[order[p]])
    ensures KeepsList(policy, ways[order[p] := b], order, list[p := b.tag])
  {
    OrderIsDistinct(policy, ways, order);
    hide TimeOf;
  }

  /** LRU and FIFO evict the first of the order, MRU and LIFO the last one. */
  predicate EvictsFirst(policy: C.Policy) {
    policy.LruLru? || policy.LruMru? || policy.Fifo?
  }

  lemma EndIsVictim(policy: C.Policy, ways: seq<C.Block>, order: seq<nat>, p: nat)
    requires !policy.MruLru? && AreValid(ways, order) && AreSorted(policy, ways, order) && p < |order|
    ensures
      var e := if EvictsFirst(policy) then 0 else |order| - 1;
      p != e ==> C.EvictionKey(policy, ways[order[e]]) < C.EvictionKey(policy, ways[order[p]])
  {
  }

  lemma VictimIsAtEnd(policy: C.Policy, ways: seq<C.Block>, order: seq<nat>)
    requires !policy.MruLru? && IsOrder(policy, ways, order) && |order| == |ways| > 0
    ensures C.FindVictim(policy, ways) == if EvictsFirst(policy) then order[0] else order[|order| - 1]
  {
    FullIff(policy, ways, order);
    var v := C.FindVictim(policy, ways);
    assert v in order;
    var p := Find(order, v);
    var e := if EvictsFirst(policy) then 0 else |order| - 1;
    EndIsVictim(policy, ways, order, p);
    hide TimeOf, C.EvictionKey, AreSorted, C.FindVictim, EvictsFirst;
    assert C.EvictionKey(policy, ways[v]) <= C.EvictionKey(policy, ways[order[e]]);
  }

  /** A way gets a block of the same tag and time. */
  lemma PutSame(policy: C.Policy, ways: seq<C.Block>, order: seq<nat>, list: seq<nat>, i: nat, b: C.Block)
    requires KeepsList(policy, ways, order, list) && i < |ways| && ways[i].valid && b.valid
    requires b.tag == ways[i].tag && TimeOf(policy, b) == TimeOf(policy, ways[i])
    ensures KeepsList(policy, ways[i := b], order, list)
  {
    hide TimeOf;
  }

  /** The set holds the tags of a list, in the order of their times. */
  ghost predicate HoldsList(policy: C.Policy, ways: seq<C.Block>, list: seq<nat>) {
    exists order :: KeepsList(policy, ways, order, list)
  }

  /** No time that an access gives is later than the clock, or than the counter. */
  lemma AccessKeepsEarlier(policy: C.Policy, ways: seq<C.Block>, tag: nat, now: int, counter: int)
    requires ways != [] && AreEarlier(policy, ways, now - 1, counter)
    requires policy.LruLru? ==> C.FindInvalid(ways) == |ways| ==> ways[C.FindVictim(policy, ways)].valid
    ensures
      var r := C.AccessSet(policy, ways, tag, now, counter);
      !policy.MruLru? ==> AreEarlier(policy, r.ways, now, r.insertCounter)
  {
  }

  lemma HitKeepsList(policy: C.Policy, ways: seq<C.Block>, order: seq<nat>, list: seq<nat>, tag: nat, now: int)
    requires KeepsList(policy, ways, order, list) && tag in list
    requires forall i :: 0 <= i < |ways| && ways[i].valid && !CountsInsertions(policy) ==> ways[i].lastAccess < now
    ensures var i := order[Find(list, tag)];
            HoldsList(policy, ways[i := ways[i].(lastAccess := now)], Next(policy, list, |ways| + 1, tag))
  {
    var p := Find(list, tag);
    var i := order[p];
    if CountsInsertions(policy) {
      PutSame(policy, ways, order, list, i, ways[i].(lastAccess := now));
    } else {
      assert ways[i].tag == list[p];
      DistinctWithout(list, p);
      assert forall q :: 0 <= q < |order| ==> ways[order[q]].valid;
      PutLast(policy, ways, order, list, p, ways[i].(lastAccess := now));
    }
  }

  lemma DistinctWithout(s: seq<nat>, p: nat)
    requires Distinct(s) && p < |s|
    ensures s[p] !in Without(s, p)
  {
  }

  lemma MissKeepsList(policy: C.Policy, ways: seq<C.Block>, order: seq<nat>, list: seq<nat>, v: nat, b: C.Block)
    requires !policy.MruLru? && KeepsList(policy, ways, order, list) && b.tag !in list && b.valid
    requires |order| == |ways| > 0 && v == if EvictsFirst(policy) then order[0] else order[|order| - 1]
    requires if policy.LruLru? then b.lastAccess == ways[v].lastAccess
             else forall i :: 0 <= i < |ways| && ways[i].valid ==> TimeOf(policy, ways[i]) < TimeOf(policy, b)
    ensures HoldsList(policy, ways[v := b], Next(policy, list, |ways|, b.tag))
  {
    if policy.LruLru? {
      PutInPlace(policy, ways, order, list, 0, b);
      assert list[0 := b.tag] == [b.tag] + list[1..];
    } else {
      var p := if EvictsFirst(policy) then 0 else |order| - 1;
      assert Without(list, p) == if EvictsFirst(policy) then list[1..] else list[..|list| - 1];
      hide TimeOf;
      PutLast(policy, ways, order, list, p, b);
    }
  }

  lemma FreeKeepsList(policy: C.Policy, ways: seq<C.Block>, order: seq<nat>, list: seq<nat>, i: nat, b: C.Block)
    requires KeepsList(policy, ways, order, list) && i < |ways| && !ways[i].valid && b.valid && b.tag !in list
    requires |order| < |ways| && AreEarlier(policy, ways, b.lastAccess - 1, b.insertTimestamp - 1)
    ensures HoldsList(policy, ways[i := b], Next(policy, list, |ways|, b.tag))
  {
    PutNew(policy, ways, order, list, i, b);
  }

  /** The block that a policy brings into a full set has the latest time, or with LRU/LRU that of its victim. */
  lemma ReplacementTime(policy: C.Policy, ways: seq<C.Block>, tag: nat, now: int, counter: int, i: nat)
    requires !policy.MruLru? && i < |ways| && ways[i].valid && AreEarlier(policy, ways, now - 1, counter)
    ensures
      var b := C.Replacement(policy, ways, tag, now, counter);
      && b.valid && b.tag == tag
      && if policy.LruLru? then b.lastAccess == ways[C.FindVictim(policy, ways)].lastAccess
         else TimeOf(policy, ways[i]) < TimeOf(policy, b)
  {
  }

  lemma FullKeepsList(policy: C.Policy, ways: seq<C.Block>, order: seq<nat>, list: seq<nat>, tag: nat, now: int,
                      counter: int)
    requires !policy.MruLru? && KeepsList(policy, ways, order, list) && tag !in list && |order| == |ways| > 0
    requires AreEarlier(policy, ways, now - 1, counter)
    ensures HoldsList(policy, ways[C.FindVictim(policy, ways) := C.Replacement(policy, ways, tag, now, counter)],
                      Next(policy, list, |ways|, tag))
  {
    VictimIsAtEnd(policy, ways, order);
    var v, b := C.FindVictim(policy, ways), C.Replacement(policy, ways, tag, now, counter);
    ReplacementTime(policy, ways, tag, now, counter, order[0]);
    forall i | 0 <= i < |ways| && ways[i].valid && !policy.LruLru?
      ensures TimeOf(policy, ways[i]) < TimeOf(policy, b)
    {
      ReplacementTime(policy, ways, tag, now, counter, i);
    }
    hide TimeOf, C.Replacement, C.FindVictim, IsOrder, KeepsList, HoldsList, Next, AreEarlier;
    MissKeepsList(policy, ways, order, list, v, b);
  }

  /** One access: the set goes on to hold the list that the policy makes of it, and it hits exactly on the tags
      of the list. */
  lemma AccessKeepsList(policy: C.Policy, ways: seq<C.Block>, list: seq<nat>, tag: nat, now: int, counter: int)
    requires !policy.MruLru? && ways != [] && HoldsList(policy, ways, list)
    requires AreEarlier(policy, ways, now - 1, counter)
    ensures
      var r := C.AccessSet(policy, ways, tag, now, counter);
      && HoldsList(policy, r.ways, Next(policy, list, |ways|, tag)) && (r.hit <==> tag in list)
  {
    var order :| KeepsList(policy, ways, order, list);
    FullIff(policy, ways, order);
    HitIffInList(policy, ways, order, list, tag);
    hide C.Replacement, C.FindVictim, IsOrder, IsList;
    if tag in list {
      HitKeepsList(policy, ways, order, list, tag, now);
    } else if |order| < |ways| {
      FreeKeepsList(policy, ways, order, list, C.FindInvalid(ways), C.Block(tag, true, now, counter + 1));
    } else {
      FullKeepsList(policy, ways, order, list, tag, now, counter);
    }
  }

  // ---- whole runs ----

  /** The list of a set after a history of accesses. */
  function ListAfter(policy: C.Policy, history: seq<Event>, ways: nat): seq<nat>
    requires ways > 0
  {
    if history == [] then [] else
      Next(policy, ListAfter(policy, history[..|history| - 1], ways), ways, history[|history| - 1].tag)
  }

  lemma EarlierLater(policy: C.Policy, ways: seq<C.Block>, now: int, counter: int, nowLater: int, counterLater: int)
    requires AreEarlier(policy, ways, now, counter) && now <= nowLater && counter <= counterLater
    ensures AreEarlier(policy, ways, nowLater, counterLater)
  {
  }

  /** A set that holds its list, with times that are over. */
  ghost predicate SetKeepsList(c: C.State, i: nat, history: seq<Event>)
    requires IsEnabled(c) && i < c.config.numSets
  {
    && HoldsList(c.config.policy, Ways(c, i), ListAfter(c.config.policy, history, c.config.numWays))
    && AreEarlier(c.config.policy, Ways(c, i), c.timestamp, c.insertCounter)
  }

  lemma CountersAfter(c: C.State, addr: nat)
    requires IsEnabled(c)
    ensures var after := C.Accessed(c, addr).0;
            && after.timestamp == c.timestamp + 1
            && after.insertCounter == Outcome(c, addr).insertCounter >= c.insertCounter
  {
    C.SetInRange(c.config, addr);
  }

  lemma AccessedSetKeepsList(c: C.State, addr: nat, history: seq<Event>, time: int)
    requires IsEnabled(c) && !c.config.policy.MruLru?
    requires SetKeepsList(c, C.SetIndex(c.config, addr), history)
    ensures SetKeepsList(C.Accessed(c, addr).0, C.SetIndex(c.config, addr),
                         history + [Event(C.Tag(c.config, addr), time)])
  {
    var i, tag, policy := C.SetIndex(c.config, addr), C.Tag(c.config, addr), c.config.policy;
    AccessedWays(c, addr, i);
    CountersAfter(c, addr);
    var ways := Ways(c, i);
    var list := ListAfter(policy, history, |ways|);
    AccessKeepsList(policy, ways, list, tag, c.timestamp + 1, c.insertCounter);
    VictimIsValid(policy, ways);
    AccessKeepsEarlier(policy, ways, tag, c.timestamp + 1, c.insertCounter);
    hide C.AccessSet, C.Accessed, Ways, HoldsList, AreEarlier, Next, C.SetIndex, C.Tag;
    assert (history + [Event(tag, time)])[..|history|] == history;
    assert ListAfter(policy, history + [Event(tag, time)], |ways|) == Next(policy, list, |ways|, tag);
  }

  lemma VictimIsValid(policy: C.Policy, ways: seq<C.Block>)
    requires ways != []
    ensures C.FindInvalid(ways) == |ways| ==> ways[C.FindVictim(policy, ways)].valid
  {
  }

  lemma OtherSetKeepsList(c: C.State, addr: nat, i: nat, history: seq<Event>)
    requires IsEnabled(c) && i < c.config.numSets && i != C.SetIndex(c.config, addr) && SetKeepsList(c, i, history)
    ensures SetKeepsList(C.Accessed(c, addr).0, i, history)
  {
    AccessedWays(c, addr, i);
    CountersAfter(c, addr);
    hide C.Accessed, Ways, HoldsList, AreEarlier, C.SetIndex;
    var after := C.Accessed(c, addr).0;
    EarlierLater(c.config.policy, Ways(c, i), c.timestamp, c.insertCounter, after.timestamp, after.insertCounter);
  }

  /** After any accesses every set holds the list that its policy makes of the accesses to that set. */
  lemma {:induction false} SetsKeepLists(c: C.State, addrs: seq<nat>, i: nat)
    requires CacheBlocks.IsFresh(c) && !c.config.policy.MruLru? && i < c.config.numSets
    ensures SetKeepsList(Run(c, addrs), i, SetHistory(c.config, addrs, i))
  {
    if addrs == [] {
      SetFits(c.config, i);
      assert KeepsList(c.config.policy, Ways(c, i), [], []);
    } else {
      var n := |addrs| - 1;
      SetsKeepLists(c, addrs[..n], i);
      var before, history := Run(c, addrs[..n]), SetHistory(c.config, addrs[..n], i);
      hide SetKeepsList, C.Accessed, C.SetIndex, C.Tag;
      if C.SetIndex(c.config, addrs[n]) == i {
        AccessedSetKeepsList(before, addrs[n], history, |addrs|);
      } else {
        OtherSetKeepsList(before, addrs[n], i, history);
        assert SetHistory(c.config, addrs, i) == history;
      }
    }
  }

  /** So it hits exactly on the tags of that list. */
  lemma HitIffListed(c: C.State, addrs: seq<nat>, addr: nat)
    requires CacheBlocks.IsFresh(c) && !c.config.policy.MruLru?
    ensures
      var history := SetHistory(c.config, addrs, C.SetIndex(c.config, addr));
      C.WouldHit(Run(c, addrs), addr) <==>
      C.Tag(c.config, addr) in ListAfter(c.config.policy, history, c.config.numWays)
  {
    var i, t := C.SetIndex(c.config, addr), Run(c, addrs);
    SetsKeepLists(c, addrs, i);
    AccessedBlocks(t, addr, C.SetBase(c.config, addr));
    var list := ListAfter(c.config.policy, SetHistory(c.config, addrs, i), c.config.numWays);
    hide C.Accessed, C.SetIndex, C.Tag, AreEarlier, Ways;
    var order :| KeepsList(c.config.policy, Ways(t, i), order, list);
    HitIffInList(c.config.policy, Ways(t, i), order, list, C.Tag(c.config, addr));
  }

  /** MRU/LRU takes the first of the blocks with the latest time out of a full set, and gives the block that it
      brings in the oldest time of the set. */
  lemma MruLruReplaces(ways: seq<C.Block>, tag: nat, now: int, counter: int) returns (v: nat, b: C.Block)
    requires ways != [] && C.FindHit(ways, tag) == |ways| == C.FindInvalid(ways)
    ensures v < |ways| && b.valid && b.tag == tag
    ensures C.AccessSet(C.MruLru, ways, tag, now, counter) == C.SetOutcome(ways[v := b], counter, false)
    ensures forall i :: 0 <= i < |ways| ==> b.lastAccess <= ways[i].lastAccess <= ways[v].lastAccess
    ensures forall i :: 0 <= i < v ==> ways[i].lastAccess < ways[v].lastAccess
    ensures exists i :: 0 <= i < |ways| && b.lastAccess == ways[i].lastAccess
  {
    v, b := C.FindVictim(C.MruLru, ways), C.Replacement(C.MruLru, ways, tag, now, counter);
    forall i | 0 <= i < |ways|
      ensures ways[i].lastAccess <= ways[v].lastAccess
      ensures i < v ==> ways[i].lastAccess < ways[v].lastAccess
    {
      assert C.EvictionKey(C.MruLru, ways[v]) <= C.EvictionKey(C.MruLru, ways[i]);
      assert i < v ==> C.EvictionKey(C.MruLru, ways[v]) < C.EvictionKey(C.MruLru, ways[i]);
    }
  }
}
