/**
 Whole runs of the cache: each of its sets is accessed by a part of the addresses only, and keeps what is
 least recently used in that part.  So caches with as many sets include one another.
 */
module CacheRuns {
  import opened Recency
  import C = Cache

  /** A cache that is not disabled. */
  predicate IsEnabled(c: C.State) {
    C.WellFormed(c) && c.config.totalSize != 0
  }

  lemma SetFits(c: C.Config, i: nat)
    requires i < c.numSets
    ensures 0 <= i * c.numWays <= i * c.numWays + c.numWays <= c.numSets * c.numWays
  {
    C.MultiplesAreOrdered(i + 1, c.numSets, c.numWays);
    C.MultiplesAreOrdered(0, i, c.numWays);
    assert (i + 1) * c.numWays == i * c.numWays + c.numWays;
  }

  /** The ways of set i. */
  function Ways(c: C.State, i: nat): (ways: seq<C.Block>)
    requires IsEnabled(c) && i < c.config.numSets
    ensures |ways| == c.config.numWays
  {
    SetFits(c.config, i);
    c.blocks[i * c.config.numWays..i * c.config.numWays + c.config.numWays]
  }

  /** The cache after a sequence of accesses. */
  function Run(c: C.State, addrs: seq<nat>): (t: C.State)
    requires C.WellFormed(c)
    ensures C.WellFormed(t) && t.config == c.config
  {
    if addrs == [] then c else C.Accessed(Run(c, addrs[..|addrs| - 1]), addrs[|addrs| - 1]).0
  }

  /** The accesses that go to set i, each at the time that the cache counts for it. */
  function SetHistory(c: C.Config, addrs: seq<nat>, i: nat): seq<Event>
    requires c.numSets > 0
  {
    if addrs == [] then [] else
      var addr := addrs[|addrs| - 1];
      SetHistory(c, addrs[..|addrs| - 1], i)
        + if C.SetIndex(c, addr) == i then [Event(C.Tag(c, addr), |addrs|)] else []
  }

  /** Two slices of a sequence of which one stretch has been replaced. */
  lemma ReplacedSlice<T>(s: seq<T>, base: nat, mid: seq<T>, from: nat)
    requires base + |mid| <= |s|
    ensures (s[..base] + mid + s[base + |mid|..])[base..base + |mid|] == mid
    ensures from + |mid| <= base || base + |mid| <= from <= |s| - |mid| ==>
              (s[..base] + mid + s[base + |mid|..])[from..from + |mid|] == s[from..from + |mid|]
  {
  }

  lemma SetsAreDisjoint(c: C.Config, i: nat, k: nat)
    requires i != k
    ensures i * c.numWays + c.numWays <= k * c.numWays || k * c.numWays + c.numWays <= i * c.numWays
  {
    if i < k {
      C.MultiplesAreOrdered(i + 1, k, c.numWays);
      assert (i + 1) * c.numWays == i * c.numWays + c.numWays;
    } else {
      C.MultiplesAreOrdered(k + 1, i, c.numWays);
      assert (k + 1) * c.numWays == k * c.numWays + c.numWays;
    }
  }

  /** What an access to the set of an address does to that set. */
  function Outcome(c: C.State, addr: nat): (r: C.SetOutcome)
    requires IsEnabled(c)
    ensures |r.ways| == c.config.numWays
  {
    C.AccessSet(c.config.policy, Ways(c, C.SetIndex(c.config, addr)), C.Tag(c.config, addr), c.timestamp + 1,
                c.insertCounter)
  }

  lemma AccessedBlocks(c: C.State, addr: nat, base: nat)
    requires IsEnabled(c) && base == C.SetBase(c.config, addr)
    ensures base + c.config.numWays <= |c.blocks|
    ensures C.Accessed(c, addr).0.blocks == c.blocks[..base] + Outcome(c, addr).ways +
            c.blocks[base + c.config.numWays..]
    ensures C.Accessed(c, addr).1 == Outcome(c, addr).hit
    ensures C.Accessed(c, addr).0.timestamp == c.timestamp + 1
  {
    C.SetInRange(c.config, addr);
  }

  /** An access changes the ways of its own set only, as AccessSet says. */
  lemma AccessedWays(c: C.State, addr: nat, i: nat)
    requires IsEnabled(c) && i < c.config.numSets
    ensures Ways(C.Accessed(c, addr).0, i) ==
              if i == C.SetIndex(c.config, addr) then Outcome(c, addr).ways else Ways(c, i)
  {
    var base, from := C.SetBase(c.config, addr), i * c.config.numWays;
    AccessedBlocks(c, addr, base);
    SetFits(c.config, i);
    if i != C.SetIndex(c.config, addr) {
      SetsAreDisjoint(c.config, i, C.SetIndex(c.config, addr));
    }
    ReplacedSlice(c.blocks, base, Outcome(c, addr).ways, from);
  }

  /** A cache as it is initialised, with the LRU policy. */
  ghost predicate IsFreshLru(c: C.State) {
    && IsEnabled(c) && c.config.policy == C.LruMru && c.timestamp == 0
    && forall k :: 0 <= k < |c.blocks| ==> !c.blocks[k].valid
  }

  /** One access: the history of its set goes on, and time for the others. */
  lemma SetKeepsTimes(ways: seq<C.Block>, waysNow: seq<C.Block>, accessed: bool, tag: nat, counter: int,
                      history: seq<Event>, historyNow: seq<Event>, now: int)
    requires ways != [] && KeepsTimes(ways, history, now)
    requires waysNow == if accessed then C.AccessSet(C.LruMru, ways, tag, now + 1, counter).ways else ways
    requires historyNow == if accessed then history + [Event(tag, now + 1)] else history
    ensures KeepsTimes(waysNow, historyNow, now + 1)
  {
    if accessed {
      TimesRefineLru(ways, history, now, tag, now + 1, counter);
    } else {
      KeepsTimesLater(ways, history, now, now + 1);
    }
  }

  lemma {:induction false} TimePasses(c: C.State, addrs: seq<nat>)
    requires IsFreshLru(c)
    ensures Run(c, addrs).timestamp == |addrs|
  {
    if addrs != [] {
      TimePasses(c, addrs[..|addrs| - 1]);
    }
  }

  /** Every set keeps what is least recently used among the accesses that went to it. */
  lemma {:induction false} SetsKeepTimes(c: C.State, addrs: seq<nat>, i: nat)
    requires IsFreshLru(c) && i < c.config.numSets
    ensures KeepsTimes(Ways(Run(c, addrs), i), SetHistory(c.config, addrs, i), |addrs|)
  {
    if addrs == [] {
      SetFits(c.config, i);
      EmptyKeepsTimes(Ways(c, i), 0);
    } else {
      var n := |addrs| - 1;
      SetsKeepTimes(c, addrs[..n], i);
      TimePasses(c, addrs[..n]);
      assert Run(c, addrs) == C.Accessed(Run(c, addrs[..n]), addrs[n]).0;
      assert SetHistory(c.config, addrs[..n], i) + [] == SetHistory(c.config, addrs[..n], i);
      hide Run, C.Accessed, KeepsTimes, C.SetIndex, C.Tag, Ways;
      NextKeepsTimes(Run(c, addrs[..n]), addrs[n], i, SetHistory(c.config, addrs[..n], i), n);
    }
  }

  lemma NextKeepsTimes(c: C.State, addr: nat, i: nat, history: seq<Event>, now: int)
    requires IsEnabled(c) && i < c.config.numSets && c.config.policy == C.LruMru && c.timestamp == now
    requires KeepsTimes(Ways(c, i), history, now)
    ensures KeepsTimes(Ways(C.Accessed(c, addr).0, i),
                       if C.SetIndex(c.config, addr) == i then history + [Event(C.Tag(c.config, addr), now + 1)]
                       else history, now + 1)
  {
    hide C.Accessed, C.AccessSet, KeepsTimes, C.SetIndex, C.Tag, Ways;
    AccessedWays(c, addr, i);
    var accessed, tag := C.SetIndex(c.config, addr) == i, C.Tag(c.config, addr);
    var ways, waysNow := Ways(c, i), Ways(C.Accessed(c, addr).0, i);
    assert waysNow == if accessed then C.AccessSet(C.LruMru, ways, tag, now + 1, c.insertCounter).ways else ways;
    hide C.ConfigOk, C.WellFormed, Outcome;
    SetKeepsTimes(ways, waysNow, accessed, tag, c.insertCounter, history,
                  if accessed then history + [Event(tag, now + 1)] else history, now);
  }

  /** Caches with the same sets, one of them with at least as many ways. */
  ghost predicate HasMoreWays(few: C.Config, many: C.Config) {
    && few.blockSizeLog2 == many.blockSizeLog2 && few.numSets == many.numSets && few.numSetsLog2 == many.numSetsLog2
    && few.numWays <= many.numWays
  }

  lemma {:induction false} SameHistories(few: C.Config, many: C.Config, addrs: seq<nat>, i: nat)
    requires HasMoreWays(few, many) && few.numSets > 0
    ensures SetHistory(few, addrs, i) == SetHistory(many, addrs, i)
  {
    if addrs != [] {
      SameHistories(few, many, addrs[..|addrs| - 1], i);
    }
  }

  /** The tags that set i holds. */
  function SetContent(c: C.State, i: nat): set<nat>
    requires IsEnabled(c) && i < c.config.numSets
  {
    Content(TagsOf(Ways(c, i)))
  }

  /** A cache hits exactly when the set of the address holds its tag. */
  lemma HitIffHeld(c: C.State, addr: nat)
    requires IsEnabled(c)
    ensures C.WouldHit(c, addr) <==> C.Tag(c.config, addr) in SetContent(c, C.SetIndex(c.config, addr))
  {
    var k := C.SetIndex(c.config, addr);
    AccessedBlocks(c, addr, C.SetBase(c.config, addr));
    HitOrNot(Ways(c, k), C.Tag(c.config, addr));
  }

  /** Inclusion: after any accesses the cache with more ways holds, set by set, everything that the other
      one holds, and hits whenever the other one does. */
  lemma CachesInclude(few: C.State, many: C.State, addrs: seq<nat>, i: nat)
    requires IsFreshLru(few) && IsFreshLru(many) && HasMoreWays(few.config, many.config) && i < few.config.numSets
    ensures SetContent(Run(few, addrs), i) <= SetContent(Run(many, addrs), i)
  {
    SetsKeepTimes(few, addrs, i);
    SetsKeepTimes(many, addrs, i);
    SameHistories(few.config, many.config, addrs, i);
    LruInclusion(SetHistory(few.config, addrs, i), few.config.numWays, many.config.numWays,
                 SetContent(Run(few, addrs), i), SetContent(Run(many, addrs), i));
  }

  lemma MoreWaysHit(few: C.State, many: C.State, addrs: seq<nat>, addr: nat)
    requires IsFreshLru(few) && IsFreshLru(many) && HasMoreWays(few.config, many.config)
    requires C.WouldHit(Run(few, addrs), addr)
    ensures C.WouldHit(Run(many, addrs), addr)
  {
    CachesInclude(few, many, addrs, C.SetIndex(few.config, addr));
    HitIffHeld(Run(few, addrs), addr);
    HitIffHeld(Run(many, addrs), addr);
  }
}
