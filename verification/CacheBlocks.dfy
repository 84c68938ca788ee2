/**
 What a hit means: the set index and the tag of an address stand for its block and for nothing else, so a cache
 hits only on blocks that have been accessed, and with LRU on exactly the most recent ones of each set.
 */
module CacheBlocks {
  import opened Common
  import opened Division
  import opened Recency
  import opened CacheRuns
  import C = Cache

  // ---- shifts and masks ----

  lemma {:induction false} ShiftDivides(x: nat, n: nat)
    ensures C.ShiftRight(x, n) == x / Pow2(n)
  {
    if n > 0 {
      ShiftDivides(x / 2, n - 1);
      HalveFirst(x, Pow2(n - 1));
    }
  }

  lemma HalveMask(p: nat)
    requires p > 0
    ensures (2 * p - 1) % 2 == 1 && (2 * p - 1) / 2 == p - 1
  {
  }

  lemma MaskOdd(x: nat, y: nat, half: nat)
    requires y % 2 == 1 && y / 2 == half
    ensures C.BitAnd(x, y) == x % 2 + 2 * C.BitAnd(x / 2, half)
  {
  }

  lemma MaskStep(x: nat, half: nat, r: nat)
    requires half > 0 && C.BitAnd(x / 2, half - 1) == (x / 2) % half == r
    ensures C.BitAnd(x, 2 * half - 1) == x % (2 * half)
  {
    hide C.BitAnd;
    HalveMask(half);
    MaskOdd(x, 2 * half - 1, half - 1);
    HalveRemainder(x, half);
  }

  /** Masking with ones is the remainder. */
  lemma {:induction false} MaskIsRemainder(x: nat, n: nat)
    ensures C.BitAnd(x, Pow2(n) - 1) == x % Pow2(n)
    decreases n
  {
    if n > 0 {
      var half := Pow2(n - 1);
      MaskIsRemainder(x / 2, n - 1);
      var r := (x / 2) % half;
      hide C.BitAnd;
      MaskStep(x, half, r);
    }
  }

  // ---- blocks ----

  /** The number of sets is the power of two that is configured. */
  predicate IsPower(c: C.Config) {
    c.numSets == Pow2(c.numSetsLog2)
  }

  /** The number of the block of an address. */
  function BlockOf(c: C.Config, addr: nat): nat {
    Over(addr, Pow2(c.blockSizeLog2))
  }

  lemma FieldsAre(c: C.Config, addr: nat)
    requires IsPower(c)
    ensures C.SetIndex(c, addr) == BlockOf(c, addr) % c.numSets && C.Tag(c, addr) == BlockOf(c, addr) / c.numSets
  {
    ShiftDivides(addr, c.blockSizeLog2);
    MaskIsRemainder(BlockOf(c, addr), c.numSetsLog2);
    ShiftTwice(addr, c.blockSizeLog2, c.numSetsLog2);
    ShiftDivides(C.ShiftRight(addr, c.blockSizeLog2), c.numSetsLog2);
  }

  lemma {:induction false} ShiftTwice(x: nat, m: nat, n: nat)
    ensures C.ShiftRight(x, m + n) == C.ShiftRight(C.ShiftRight(x, m), n)
    decreases m
  {
    if m > 0 {
      ShiftTwice(x / 2, m - 1, n);
    }
  }

  /** Set index and tag together are the block. */
  lemma FieldsAreBlock(c: C.Config, a: nat, b: nat)
    requires IsPower(c)
    ensures C.SetIndex(c, a) == C.SetIndex(c, b) && C.Tag(c, a) == C.Tag(c, b) <==> BlockOf(c, a) == BlockOf(c, b)
  {
    FieldsAre(c, a);
    FieldsAre(c, b);
    QuotientAndRemainder(BlockOf(c, a), BlockOf(c, b), c.numSets);
  }

  // ---- what is held has been accessed ----

  /** A cache as it is initialised, with any policy. */
  ghost predicate IsFresh(c: C.State) {
    IsEnabled(c) && forall k :: 0 <= k < |c.blocks| ==> !c.blocks[k].valid
  }

  /** One of the addresses is in set i and has this tag. */
  ghost predicate IsAmong(c: C.Config, addrs: seq<nat>, i: nat, tag: nat)
    requires c.numSets > 0
  {
    exists k :: 0 <= k < |addrs| && C.SetIndex(c, addrs[k]) == i && C.Tag(c, addrs[k]) == tag
  }

  lemma MoreAreAmong(c: C.Config, addrs: seq<nat>, addr: nat, i: nat, tag: nat)
    requires c.numSets > 0
    requires IsAmong(c, addrs, i, tag) || (C.SetIndex(c, addr) == i && C.Tag(c, addr) == tag)
    ensures IsAmong(c, addrs + [addr], i, tag)
  {
    var all := addrs + [addr];
    if IsAmong(c, addrs, i, tag) {
      var k :| 0 <= k < |addrs| && C.SetIndex(c, addrs[k]) == i && C.Tag(c, addrs[k]) == tag;
      assert all[k] == addrs[k];
    } else {
      assert all[|addrs|] == addr;
    }
  }

  /** An access brings in no tag but its own. */
  lemma BringsInItsTag(policy: C.Policy, ways: seq<C.Block>, tag: nat, now: int, counter: int, k: nat)
    requires ways != [] && k < |ways|
    ensures
      var b := C.AccessSet(policy, ways, tag, now, counter).ways[k];
      b.valid ==> b.tag == tag || (ways[k].valid && ways[k].tag == b.tag)
  {
  }

  /** The same for a set of the cache. */
  lemma BringsInItsAddress(c: C.State, addr: nat, i: nat, k: nat)
    requires IsEnabled(c) && i < c.config.numSets && k < c.config.numWays
    ensures
      var b, was := Ways(C.Accessed(c, addr).0, i)[k], Ways(c, i)[k];
      b.valid ==>
        (C.SetIndex(c.config, addr) == i && b.tag == C.Tag(c.config, addr)) || (was.valid && was.tag == b.tag)
  {
    hide C.Accessed, C.SetIndex, Ways, C.Tag;
    AccessedWays(c, addr, i);
    if C.SetIndex(c.config, addr) == i {
      BringsInItsTag(c.config.policy, Ways(c, i), C.Tag(c.config, addr), c.timestamp + 1, c.insertCounter, k);
    }
  }

  /** Everything that set i holds was among the accesses to that set. */
  ghost predicate HoldsAccessed(c: C.State, addrs: seq<nat>, i: nat)
    requires IsEnabled(c) && i < c.config.numSets
  {
    forall k :: 0 <= k < c.config.numWays ==>
      (Ways(c, i)[k].valid ==> IsAmong(c.config, addrs, i, Ways(c, i)[k].tag))
  }

  lemma HoldsOneMore(c: C.State, addrs: seq<nat>, addr: nat, i: nat)
    requires IsEnabled(c) && i < c.config.numSets && HoldsAccessed(c, addrs, i)
    ensures HoldsAccessed(C.Accessed(c, addr).0, addrs + [addr], i)
  {
    var after := C.Accessed(c, addr).0;
    hide C.Accessed, C.SetIndex, Ways, C.Tag, IsAmong;
    forall k | 0 <= k < c.config.numWays && Ways(after, i)[k].valid
      ensures IsAmong(c.config, addrs + [addr], i, Ways(after, i)[k].tag)
    {
      BringsInItsAddress(c, addr, i, k);
      MoreAreAmong(c.config, addrs, addr, i, Ways(after, i)[k].tag);
    }
  }

  /** Whatever the policy, what a set holds was among the accesses to that set. */
  lemma {:induction false} HeldIsAmong(c: C.State, addrs: seq<nat>, i: nat)
    requires IsFresh(c) && i < c.config.numSets
    ensures HoldsAccessed(Run(c, addrs), addrs, i)
  {
    if addrs == [] {
      SetFits(c.config, i);
    } else {
      var n := |addrs| - 1;
      HeldIsAmong(c, addrs[..n], i);
      HoldsOneMore(Run(c, addrs[..n]), addrs[..n], addrs[n], i);
      assert addrs == addrs[..n] + [addrs[n]];
    }
  }

  /** One of the addresses is in this block. */
  ghost predicate WasAccessed(c: C.Config, addrs: seq<nat>, block: nat) {
    exists k :: 0 <= k < |addrs| && BlockOf(c, addrs[k]) == block
  }

  /** A hit on an address means that an address of its block has been accessed: under every policy, after any
      accesses, nothing is found that was not brought in. */
  lemma HitWasAccessed(c: C.State, addrs: seq<nat>, addr: nat)
    requires IsFresh(c) && IsPower(c.config) && C.WouldHit(Run(c, addrs), addr)
    ensures WasAccessed(c.config, addrs, BlockOf(c.config, addr))
  {
    var i := C.SetIndex(c.config, addr);
    AccessedBlocks(Run(c, addrs), addr, C.SetBase(c.config, addr));
    var k := C.FindHit(Ways(Run(c, addrs), i), C.Tag(c.config, addr));
    HeldIsAmong(c, addrs, i);
    var n :| 0 <= n < |addrs| && C.SetIndex(c.config, addrs[n]) == i
             && C.Tag(c.config, addrs[n]) == C.Tag(c.config, addr);
    FieldsAreBlock(c.config, addrs[n], addr);
  }

  // ---- numbers of sets that are no power of two ----

  /** The exponent is the logarithm of the number of sets, rounded down, as it is initialised. */
  predicate IsLog(c: C.Config) {
    Pow2(c.numSetsLog2) <= c.numSets < 2 * Pow2(c.numSetsLog2)
  }

  lemma MaskOfZero(y: nat)
    ensures C.BitAnd(0, y) == 0
  {
  }

  lemma MaskDoubled(x: nat, m: nat)
    ensures C.BitAnd(2 * x, m) == 2 * C.BitAnd(x, m / 2)
  {
    if x > 0 && m > 0 {
      var y := 2 * x;
      assert y % 2 == 0 && y / 2 == x;
      assert C.BitAnd(y, m) == (y % 2) * (m % 2) + 2 * C.BitAnd(y / 2, m / 2);
      hide C.BitAnd;
    } else {
      assert C.BitAnd(2 * x, m) == 0 == C.BitAnd(x, m / 2);
    }
  }

  /** A mask that is not all ones leaves a number of as many bits without any of its bits. */
  lemma {:induction false} FindGap(m: nat, n: nat, p: nat) returns (x: nat)
    requires p == Pow2(n) && p <= m < 2 * p - 1
    ensures 0 < x < p && C.BitAnd(x, m) == 0
    decreases n
  {
    if m % 2 == 0 {
      x := 1;
      assert C.BitAnd(1, m) == 2 * C.BitAnd(0, m / 2);
      MaskOfZero(m / 2);
    } else {
      var half := FindGap(m / 2, n - 1, p / 2);
      MaskDoubled(half, m);
      x := 2 * half;
    }
  }

  lemma {:induction false} ShiftBack(x: nat, n: nat)
    ensures C.ShiftRight(x * Pow2(n), n) == x
  {
    if n > 0 {
      assert x * Pow2(n) == 2 * (x * Pow2(n - 1));
      ShiftBack(x, n - 1);
    }
  }

  lemma SmallQuotient(x: nat, p: nat)
    requires x < p
    ensures x / p == 0
  {
  }

  /** With such a number of sets two blocks have the same set and tag. */
  lemma BlocksClash(c: C.Config) returns (b: nat)
    requires IsLog(c) && !IsPower(c)
    ensures BlockOf(c, 0) != BlockOf(c, b)
    ensures C.SetIndex(c, 0) == C.SetIndex(c, b) && C.Tag(c, 0) == C.Tag(c, b)
  {
    var x := FindGap(c.numSets - 1, c.numSetsLog2, Pow2(c.numSetsLog2));
    b := x * Pow2(c.blockSizeLog2);
    ShiftBack(x, c.blockSizeLog2);
    ShiftDivides(b, c.blockSizeLog2);
    ShiftDivides(0, c.blockSizeLog2);
    MaskOfZero(c.numSets - 1);
    ShiftTwice(b, c.blockSizeLog2, c.numSetsLog2);
    ShiftTwice(0, c.blockSizeLog2, c.numSetsLog2);
    ShiftDivides(x, c.numSetsLog2);
    ShiftDivides(0, c.numSetsLog2);
    SmallQuotient(x, Pow2(c.numSetsLog2));
    SmallQuotient(0, Pow2(c.numSetsLog2));
    SmallQuotient(0, Pow2(c.blockSizeLog2));
  }

  /** After one access the cache hits on every address with the same set and tag. */
  lemma HitsAlias(c: C.State, a: nat, b: nat)
    requires IsFresh(c)
    requires C.SetIndex(c.config, a) == C.SetIndex(c.config, b) && C.Tag(c.config, a) == C.Tag(c.config, b)
    ensures C.WouldHit(Run(c, [a]), b)
  {
    assert [a][..0] == [];
    var k := C.SetIndex(c.config, a);
    HitIffHeld(c, a);
    HitIffHeld(c, b);
    SetFits(c.config, k);
    EmptyKeepsTimes(Ways(c, k), 0);
    C.MissThenHit(c, a);
    var after := Run(c, [a]);
    HitIffHeld(after, a);
    HitIffHeld(after, b);
  }

  /** All that is ever found has been accessed. */
  ghost predicate FindsAccessedOnly(c: C.State)
    requires IsEnabled(c)
  {
    forall addrs, addr ::
      C.WouldHit(Run(c, addrs), addr) ==> WasAccessed(c.config, addrs, BlockOf(c.config, addr))
  }

  /** A cache finds only what has been accessed exactly if the number of its sets is a power of two. */
  lemma FindsAccessedIff(c: C.State)
    requires IsFresh(c) && IsLog(c.config)
    ensures FindsAccessedOnly(c) <==> IsPower(c.config)
  {
    if IsPower(c.config) {
      forall addrs, addr | C.WouldHit(Run(c, addrs), addr)
        ensures WasAccessed(c.config, addrs, BlockOf(c.config, addr))
      {
        HitWasAccessed(c, addrs, addr);
      }
    } else {
      var b := BlocksClash(c.config);
      HitsAlias(c, 0, b);
      assert !WasAccessed(c.config, [0], BlockOf(c.config, b));
    }
  }

  /** A disabled cache hits an address exactly when the access just before was a miss on that address. */
  lemma DisabledHits(c: C.State, before: nat, addr: nat)
    requires C.WellFormed(c) && c.config.totalSize == 0
    ensures C.WouldHit(C.Accessed(c, before).0, addr) <==> before == addr && !C.WouldHit(c, before)
  {
  }

  // ---- what LRU holds ----

  /** The tags of the accesses since the last one to a tag, or of all if there is none. */
  function TagsSince(history: seq<Event>, tag: nat): set<nat> {
    if history == [] || history[|history| - 1].tag == tag then {} else
      TagsSince(history[..|history| - 1], tag) + {history[|history| - 1].tag}
  }

  lemma {:induction false} SinceIsLater(history: seq<Event>, tag: nat, u: nat)
    ensures u in TagsSince(history, tag) <==> LastUse(history, u) > LastUse(history, tag)
  {
    if history != [] {
      SinceIsLater(history[..|history| - 1], tag, u);
    }
  }

  /** The least recently used content holds a tag iff fewer than `ways` others were used since its last use. */
  lemma HeldIff(history: seq<Event>, ways: nat, content: set<nat>, tag: nat)
    requires IsLruContent(history, ways, content)
    ensures tag in content <==> LastUse(history, tag) >= 0 && |TagsSince(history, tag)| < ways
  {
    var since := TagsSince(history, tag);
    forall u
      ensures u in since <==> LastUse(history, u) > LastUse(history, tag)
    {
      SinceIsLater(history, tag, u);
    }
    if tag in content {
      SubsetSize(since + {tag}, content);
    } else if LastUse(history, tag) >= 0 {
      SubsetSize(content, since);
    }
  }

  /** The other blocks of its set that have been accessed since the last access to a block, or at all. */
  function OthersSince(c: C.Config, addrs: seq<nat>, block: nat): set<nat>
    requires c.numSets > 0
  {
    if addrs == [] then {} else
      var last := BlockOf(c, addrs[|addrs| - 1]);
      if last == block then {}
      else OthersSince(c, addrs[..|addrs| - 1], block) + if last % c.numSets == block % c.numSets then {last} else {}
  }

  lemma NoneAccessed(c: C.Config, block: nat)
    ensures !WasAccessed(c, [], block)
  {
  }

  /** The history of the set of an address tells how long ago its block was accessed. */
  lemma {:induction false} UseIsAccess(c: C.Config, addrs: seq<nat>, addr: nat)
    requires IsPower(c)
    ensures LastUse(SetHistory(c, addrs, C.SetIndex(c, addr)), C.Tag(c, addr)) >= 0 <==>
            WasAccessed(c, addrs, BlockOf(c, addr))
  {
    assert c.numSets > 0;
    hide IsPower, BlockOf, C.SetIndex, C.Tag, WasAccessed;
    if addrs != [] {
      var n, i := |addrs| - 1, C.SetIndex(c, addr);
      UseIsAccess(c, addrs[..n], addr);
      FieldsAreBlock(c, addrs[n], addr);
      if C.SetIndex(c, addrs[n]) == i {
        LastUsePush(SetHistory(c, addrs[..n], i), Event(C.Tag(c, addrs[n]), |addrs|), C.Tag(c, addr));
      } else {
        assert SetHistory(c, addrs, i) == SetHistory(c, addrs[..n], i);
      }
      OneMoreAccess(c, addrs, BlockOf(c, addr));
    } else {
      assert !WasAccessed(c, addrs, BlockOf(c, addr)) by {
        NoneAccessed(c, BlockOf(c, addr));
      }
    }
  }

  lemma OneMoreAccess(c: C.Config, addrs: seq<nat>, block: nat)
    requires addrs != []
    ensures var n := |addrs| - 1;
            WasAccessed(c, addrs, block) <==> WasAccessed(c, addrs[..n], block) || BlockOf(c, addrs[n]) == block
  {
    var n := |addrs| - 1;
    if WasAccessed(c, addrs[..n], block) {
      var k :| 0 <= k < n && BlockOf(c, addrs[..n][k]) == block;
      assert BlockOf(c, addrs[k]) == block;
    }
    if WasAccessed(c, addrs, block) && BlockOf(c, addrs[n]) != block {
      var k :| 0 <= k < |addrs| && BlockOf(c, addrs[k]) == block;
      assert BlockOf(c, addrs[..n][k]) == block;
    }
  }

  /** The tags since the last use of a tag are those of the other blocks since the last access to its block. */
  ghost predicate SameBlocks(c: C.Config, i: nat, tags: set<nat>, blocks: set<nat>)
    requires c.numSets > 0
  {
    && |tags| == |blocks|
    && forall a :: C.SetIndex(c, a) == i ==> (C.Tag(c, a) in tags <==> BlockOf(c, a) in blocks)
  }

  lemma AddOne(s: set<nat>, x: nat)
    ensures |s + {x}| == if x in s then |s| else |s| + 1
  {
    if x in s {
      assert s + {x} == s;
    }
  }

  lemma AddSameBlock(c: C.Config, i: nat, tags: set<nat>, blocks: set<nat>, addr: nat)
    requires IsPower(c) && SameBlocks(c, i, tags, blocks) && C.SetIndex(c, addr) == i
    ensures SameBlocks(c, i, tags + {C.Tag(c, addr)}, blocks + {BlockOf(c, addr)})
  {
    AddOne(tags, C.Tag(c, addr));
    AddOne(blocks, BlockOf(c, addr));
    forall a | C.SetIndex(c, a) == i
      ensures C.Tag(c, a) == C.Tag(c, addr) <==> BlockOf(c, a) == BlockOf(c, addr)
    {
      FieldsAreBlock(c, a, addr);
    }
    hide IsPower, BlockOf, C.SetIndex, C.Tag;
  }

  lemma NoBlocks(c: C.Config, i: nat)
    requires c.numSets > 0
    ensures SameBlocks(c, i, {}, {})
  {
  }

  lemma {:induction false} SinceAreOthers(c: C.Config, addrs: seq<nat>, addr: nat)
    requires IsPower(c)
    ensures var i := C.SetIndex(c, addr);
            SameBlocks(c, i, TagsSince(SetHistory(c, addrs, i), C.Tag(c, addr)),
                       OthersSince(c, addrs, BlockOf(c, addr)))
  {
    assert c.numSets > 0;
    hide IsPower, BlockOf, C.SetIndex, C.Tag, SameBlocks;
    if addrs == [] {
      NoBlocks(c, C.SetIndex(c, addr));
    } else {
      var n, i := |addrs| - 1, C.SetIndex(c, addr);
      var before := SetHistory(c, addrs[..n], i);
      FieldsAreBlock(c, addrs[n], addr);
      FieldsAre(c, addrs[n]);
      FieldsAre(c, addr);
      if BlockOf(c, addrs[n]) != BlockOf(c, addr) {
        SinceAreOthers(c, addrs[..n], addr);
        if C.SetIndex(c, addrs[n]) == i {
          AddSameBlock(c, i, TagsSince(before, C.Tag(c, addr)), OthersSince(c, addrs[..n], BlockOf(c, addr)),
                       addrs[n]);
          assert (before + [Event(C.Tag(c, addrs[n]), |addrs|)])[..|before|] == before;
        } else {
          assert SetHistory(c, addrs, i) == before;
        }
      }
    }
  }

  /** With LRU a cache hits exactly on the addresses whose block has been accessed, and since then fewer other
      blocks of its set than there are ways. */
  lemma HitIffRecent(c: C.State, addrs: seq<nat>, addr: nat)
    requires IsFreshLru(c) && IsPower(c.config)
    ensures
      var block := BlockOf(c.config, addr);
      C.WouldHit(Run(c, addrs), addr) <==>
      WasAccessed(c.config, addrs, block) && |OthersSince(c.config, addrs, block)| < c.config.numWays
  {
    var i, tag := C.SetIndex(c.config, addr), C.Tag(c.config, addr);
    SetsKeepTimes(c, addrs, i);
    HitIffHeld(Run(c, addrs), addr);
    HeldIff(SetHistory(c.config, addrs, i), c.config.numWays, SetContent(Run(c, addrs), i), tag);
    UseIsAccess(c.config, addrs, addr);
    SinceAreOthers(c.config, addrs, addr);
  }
}
