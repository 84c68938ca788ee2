/**
 The rank-based LRU replacement of lab 4: every way of a set has a rank, a victim is the way of the last
 rank, and an access moves its way to rank 0; only hits of writebacks leave the ranks alone.
 */
module RankLru {
  import opened Common
  import opened Recency
  import R = CacheRuns
  import C = Cache

  datatype Block = Block(tag: nat, valid: bool, lru: nat)

  function RankedTags(ways: seq<Block>): (tags: seq<Option<nat>>)
    ensures |tags| == |ways|
    ensures forall i :: 0 <= i < |ways| ==> tags[i] == if ways[i].valid then Some(ways[i].tag) else None
  {
    seq(|ways|, i requires 0 <= i < |ways| => if ways[i].valid then Some(ways[i].tag) else None)
  }

  function RanksOf(ways: seq<Block>): (ranks: seq<nat>)
    ensures |ranks| == |ways| && forall i :: 0 <= i < |ways| ==> ranks[i] == ways[i].lru
  {
    seq(|ways|, i requires 0 <= i < |ways| => ways[i].lru)
  }

  /** Every rank is taken; with as many ways as ranks this makes the ranks a permutation. */
  ghost predicate Ranked(ranks: seq<nat>) {
    forall r :: 0 <= r < |ranks| ==> r in ranks
  }

  /** The rank of a way after way k has been promoted to rank 0. */
  function RankAfter(rank: nat, promoted: nat): nat {
    if rank < promoted then rank + 1 else if rank == promoted then 0 else rank
  }

  /** Promote way k: the ways before it move back by one. */
  function Promoted(ways: seq<Block>, k: nat): (after: seq<Block>)
    requires k < |ways|
    ensures |after| == |ways|
  {
    seq(|ways|, i requires 0 <= i < |ways| =>
      if i == k then ways[i].(lru := 0)
      else if ways[i].lru < ways[k].lru then ways[i].(lru := ways[i].lru + 1)
      else ways[i])
  }

  /** So ranks stay a permutation, and a victim always exists. */
  lemma PromotedIsRanked(ways: seq<Block>, k: nat)
    requires k < |ways| && Ranked(RanksOf(ways))
    ensures Ranked(RanksOf(Promoted(ways, k)))
    ensures forall i :: 0 <= i < |ways| ==> Promoted(ways, k)[i].lru == RankAfter(ways[i].lru, ways[k].lru)
  {
    var ranks, after := RanksOf(ways), RanksOf(Promoted(ways, k));
    Pigeonhole(ranks, |ways|);
    forall i | 0 <= i < |ways|
      ensures after[i] == RankAfter(ranks[i], ranks[k])
    {
      if i < k {
        assert ranks[i] != ranks[k];
      } else if k < i {
        assert ranks[k] != ranks[i];
      }
    }
    forall r | 0 <= r < |ways|
      ensures r in after
    {
      var before := if r == 0 then ranks[k] else if r <= ranks[k] then r - 1 else r;
      assert before in ranks;
      var i :| 0 <= i < |ways| && ranks[i] == before;
      assert after[i] == r;
    }
  }

  /** Ranks order the valid ways by their last use, the most recent first. */
  ghost predicate Ordered(ways: seq<Block>, history: seq<Event>) {
    && (forall i :: 0 <= i < |ways| && ways[i].valid ==> LastUse(history, ways[i].tag) >= 0)
    && (forall i, j ::
          0 <= i < |ways| && 0 <= j < |ways| && ways[i].valid && ways[j].valid && ways[i].lru < ways[j].lru ==>
          LastUse(history, ways[j].tag) < LastUse(history, ways[i].tag))
  }

  /** The set of a cache with ranks after a history. */
  ghost predicate KeepsRanks(ways: seq<Block>, history: seq<Event>) {
    && Ranked(RanksOf(ways)) && Ordered(ways, history)
    && Unique(RankedTags(ways)) && IsLruContent(history, |ways|, Content(RankedTags(ways)))
  }

  lemma EmptyKeepsRanks(ways: seq<Block>)
    requires forall i :: 0 <= i < |ways| ==> !ways[i].valid && ways[i].lru == i
    ensures KeepsRanks(ways, [])
  {
    forall t
      ensures t !in Content(RankedTags(ways))
    {
      InContent(RankedTags(ways), t);
    }
    assert Content(RankedTags(ways)) == {};
    forall r | 0 <= r < |ways|
      ensures r in RanksOf(ways)
    {
      assert RanksOf(ways)[r] == r;
    }
  }

  /** Some way has the last rank, and of a full set it holds the least recently used tag. */
  lemma LastRankIsVictim(ways: seq<Block>, history: seq<Event>, v: nat)
    requires KeepsRanks(ways, history) && v < |ways| && ways[v].lru == |ways| - 1
    requires forall i :: 0 <= i < |ways| ==> ways[i].valid
    ensures IsVictim(history, Content(RankedTags(ways)), ways[v].tag)
  {
    var tags, ranks := RankedTags(ways), RanksOf(ways);
    Pigeonhole(ranks, |ways|);
    InContent(tags, ways[v].tag);
    assert tags[v] == Some(ways[v].tag);
    forall t | t in Content(tags) && t != ways[v].tag
      ensures LastUse(history, ways[v].tag) < LastUse(history, t)
    {
      InContent(tags, t);
      var i :| 0 <= i < |tags| && tags[i] == Some(t);
      assert i < v ==> ranks[i] != ranks[v];
      assert v < i ==> ranks[v] != ranks[i];
    }
  }

  /** Way k, which now holds the tag, has been promoted after an access to that tag. */
  lemma OrderedPromoted(ways: seq<Block>, history: seq<Event>, k: nat, b: Block, e: Event)
    requires Ranked(RanksOf(ways)) && Ordered(ways, history) && k < |ways|
    requires b.valid && b.tag == e.tag && b.lru == ways[k].lru
    requires forall j :: 0 <= j < |ways| && j != k && ways[j].valid ==> ways[j].tag != e.tag
    ensures Ordered(Promoted(ways[k := b], k), history + [e])
  {
    var after := Promoted(ways[k := b], k);
    Pigeonhole(RanksOf(ways), |ways|);
    forall j | 0 <= j < |ways| && j != k
      ensures after[j].tag == ways[j].tag && after[j].valid == ways[j].valid
      ensures after[j].lru == RankAfter(ways[j].lru, ways[k].lru) > 0
    {
      var ranks := RanksOf(ways);
      assert j < k ==> ranks[j] != ranks[k];
      assert k < j ==> ranks[k] != ranks[j];
    }
    forall t
      ensures LastUse(history + [e], t) == if t == e.tag then |history| else LastUse(history, t)
    {
      LastUsePush(history, e, t);
    }
  }

  lemma PromotedTags(ways: seq<Block>, k: nat)
    requires k < |ways|
    ensures RankedTags(Promoted(ways, k)) == RankedTags(ways)
  {
  }

  lemma UpdateKeepsRanked(ways: seq<Block>, k: nat, b: Block)
    requires k < |ways| && b.lru == ways[k].lru
    ensures RanksOf(ways[k := b]) == RanksOf(ways)
  {
  }

  lemma KeepsRanksHit(ways: seq<Block>, history: seq<Event>, e: Event, k: nat)
    requires KeepsRanks(ways, history) && k < |ways| && ways[k].valid && ways[k].tag == e.tag
    ensures KeepsRanks(Promoted(ways, k), history + [e])
  {
    var tags := RankedTags(ways);
    assert tags[k] == Some(e.tag);
    InContent(tags, e.tag);
    LruHit(history, |ways|, Content(tags), e);
    PromotedIsRanked(ways, k);
    PromotedTags(ways, k);
    forall j | 0 <= j < |ways| && j != k && ways[j].valid
      ensures ways[j].tag != e.tag
    {
      assert tags[j] == Some(ways[j].tag);
    }
    assert ways[k := ways[k]] == ways;
    OrderedPromoted(ways, history, k, ways[k], e);
  }

  /** A miss fills a free way or, when none is free, the way of the last rank. */
  lemma KeepsRanksMiss(ways: seq<Block>, history: seq<Event>, e: Event, k: nat, b: Block)
    requires KeepsRanks(ways, history) && e.tag !in Content(RankedTags(ways)) && k < |ways|
    requires b.valid && b.tag == e.tag && b.lru == ways[k].lru
    requires ways[k].valid ==> ways[k].lru == |ways| - 1 && forall i :: 0 <= i < |ways| ==> ways[i].valid
    ensures KeepsRanks(Promoted(ways[k := b], k), history + [e])
  {
    var tags := RankedTags(ways);
    var filled := ways[k := b];
    assert RankedTags(filled) == tags[k := Some(e.tag)];
    ContentUpdate(tags, k, e.tag);
    InContent(tags, e.tag);
    ContentSize(tags);
    UpdateKeepsRanked(ways, k, b);
    PromotedIsRanked(filled, k);
    PromotedTags(filled, k);
    forall j | 0 <= j < |ways| && ways[j].valid
      ensures ways[j].tag != e.tag
    {
      assert tags[j] == Some(ways[j].tag);
    }
    OrderedPromoted(ways, history, k, b, e);
    if ways[k].valid {
      LastRankIsVictim(ways, history, k);
      LruReplace(history, |ways|, Content(tags), e, ways[k].tag);
    } else {
      assert tags[k] == None;
      LruFill(history, |ways|, Content(tags), e);
    }
  }

  // ---- one access ----

  predicate Holds(b: Block, tag: nat) {
    b.valid && b.tag == tag
  }

  /** The first way that holds `tag`, or the number of ways. */
  function FindHit(ways: seq<Block>, tag: nat): (i: nat)
    ensures i <= |ways|
    ensures i < |ways| ==> Holds(ways[i], tag)
    ensures forall j :: 0 <= j < i ==> !Holds(ways[j], tag)
  {
    if ways == [] || Holds(ways[0], tag) then 0 else 1 + FindHit(ways[1..], tag)
  }

  /** The first free way, or the number of ways. */
  function FindFree(ways: seq<Block>): (i: nat)
    ensures i <= |ways|
    ensures i < |ways| ==> !ways[i].valid
    ensures forall j :: 0 <= j < i ==> ways[j].valid
  {
    if ways == [] || !ways[0].valid then 0 else 1 + FindFree(ways[1..])
  }

  /** The first way with a rank, or the number of ways. */
  function FindRank(ways: seq<Block>, rank: int): (i: nat)
    ensures i <= |ways|
    ensures i < |ways| ==> ways[i].lru == rank
    ensures forall j :: 0 <= j < i ==> ways[j].lru != rank
  {
    if ways == [] || ways[0].lru == rank then 0 else 1 + FindRank(ways[1..], rank)
  }

  /** The way to fill: a free one, else the one of the last rank. */
  function Victim(ways: seq<Block>): nat {
    if FindFree(ways) < |ways| then FindFree(ways) else FindRank(ways, |ways| - 1)
  }

  /** A victim always exists. */
  lemma VictimExists(ways: seq<Block>)
    requires ways != [] && Ranked(RanksOf(ways))
    ensures Victim(ways) < |ways|
  {
    assert |ways| - 1 in RanksOf(ways);
    var i :| 0 <= i < |ways| && RanksOf(ways)[i] == |ways| - 1;
  }

  datatype Outcome = Outcome(ways: seq<Block>, hit: bool)

  /** One access to a set. */
  function AccessWays(ways: seq<Block>, tag: nat, writeback: bool): (r: Outcome)
    ensures |r.ways| == |ways|
  {
    var i, v := FindHit(ways, tag), Victim(ways);
    if i < |ways| then Outcome(if writeback then ways else Promoted(ways, i), true)
    else if v < |ways| then Outcome(Promoted(ways[v := Block(tag, true, ways[v].lru)], v), false)
    else Outcome(ways, false)
  }

  /** It keeps what is least recently used, and hits exactly when the tag is in there; hits of writebacks
      do not count as uses. */
  lemma AccessKeepsRanks(ways: seq<Block>, history: seq<Event>, e: Event, writeback: bool)
    requires KeepsRanks(ways, history) && ways != []
    ensures
      var r := AccessWays(ways, e.tag, writeback);
      && KeepsRanks(r.ways, if r.hit && writeback then history else history + [e])
      && (r.hit <==> e.tag in Content(RankedTags(ways)))
  {
    var i, tags := FindHit(ways, e.tag), RankedTags(ways);
    InContent(tags, e.tag);
    if i < |ways| {
      assert tags[i] == Some(e.tag);
      KeepsRanksHit(ways, history, e, i);
    } else {
      VictimExists(ways);
      var v := Victim(ways);
      KeepsRanksMiss(ways, history, e, v, Block(e.tag, true, ways[v].lru));
    }
  }

  // ---- whole runs ----

  /** The ways of a set as they are constructed. */
  function FreshWays(ways: nat): (w: seq<Block>)
    ensures |w| == ways && forall i :: 0 <= i < ways ==> w[i] == Block(0, false, i)
  {
    seq(ways, i requires 0 <= i < ways => Block(0, false, i))
  }

  /** The ways of a set after all uses of a history. */
  function WaysAfter(ways: nat, history: seq<Event>): (w: seq<Block>)
    ensures |w| == ways
  {
    if history == [] then FreshWays(ways)
    else AccessWays(WaysAfter(ways, history[..|history| - 1]), history[|history| - 1].tag, false).ways
  }

  lemma UseKeepsRanks(ways: seq<Block>, history: seq<Event>, e: Event,
                      waysNow: seq<Block>, historyNow: seq<Event>)
    requires KeepsRanks(ways, history) && ways != []
    requires waysNow == AccessWays(ways, e.tag, false).ways && historyNow == history + [e]
    ensures KeepsRanks(waysNow, historyNow)
  {
    AccessKeepsRanks(ways, history, e, false);
  }

  lemma {:induction false} RunKeepsRanks(ways: nat, history: seq<Event>)
    requires ways > 0
    ensures KeepsRanks(WaysAfter(ways, history), history)
  {
    if history == [] {
      EmptyKeepsRanks(FreshWays(ways));
    } else {
      var n := |history| - 1;
      var before, after := WaysAfter(ways, history[..n]), WaysAfter(ways, history);
      assert after == AccessWays(before, history[n].tag, false).ways;
      RunKeepsRanks(ways, history[..n]);
      hide WaysAfter, AccessWays, KeepsRanks;
      UseKeepsRanks(before, history[..n], history[n], after, history);
    }
  }

  /** The next access: it hits exactly when the tag is in the set, and a use goes into the history. */
  lemma NextAccess(ways: nat, history: seq<Event>, e: Event, writeback: bool)
    requires ways > 0
    ensures Ranked(RanksOf(WaysAfter(ways, history)))
    ensures
      var w := WaysAfter(ways, history);
      var r := AccessWays(w, e.tag, writeback);
      && (r.hit <==> e.tag in Content(RankedTags(w)))
      && r.ways == WaysAfter(ways, if r.hit && writeback then history else history + [e])
  {
    RunKeepsRanks(ways, history);
    AccessKeepsRanks(WaysAfter(ways, history), history, e, writeback);
    assert (history + [e])[..|history|] == history;
  }

  /** The two implementations of LRU, each run over the same accesses from its initial state, hold the
      same tags in every set. */
  lemma RanksAgreeWithTimes(c: C.State, addrs: seq<nat>, i: nat)
    requires R.IsFreshLru(c) && i < c.config.numSets && c.config.numWays > 0
    ensures
      var history := R.SetHistory(c.config, addrs, i);
      Content(RankedTags(WaysAfter(c.config.numWays, history))) == R.SetContent(R.Run(c, addrs), i)
  {
    var history := R.SetHistory(c.config, addrs, i);
    RunKeepsRanks(c.config.numWays, history);
    R.SetsKeepTimes(c, addrs, i);
    LruUnique(history, c.config.numWays, Content(RankedTags(WaysAfter(c.config.numWays, history))),
              R.SetContent(R.Run(c, addrs), i));
  }

  /** So they hit at the same accesses. */
  lemma RanksHitWithTimes(c: C.State, addrs: seq<nat>, addr: nat)
    requires R.IsFreshLru(c) && c.config.numWays > 0
    ensures
      var history := R.SetHistory(c.config, addrs, C.SetIndex(c.config, addr));
      AccessWays(WaysAfter(c.config.numWays, history), C.Tag(c.config, addr), false).hit ==
      C.WouldHit(R.Run(c, addrs), addr)
  {
    var k := C.SetIndex(c.config, addr);
    var history := R.SetHistory(c.config, addrs, k);
    RanksAgreeWithTimes(c, addrs, k);
    NextAccess(c.config.numWays, history, Event(C.Tag(c.config, addr), 0), false);
    R.HitIffHeld(R.Run(c, addrs), addr);
  }

  // ---- the cache ----

  class RankedCache {
    const block: array2<Block>
    /** The uses of every set, and the number of accesses to the cache. */
    ghost var histories: seq<seq<Event>>
    ghost var accesses: nat

    /** The ways of a set. */
    ghost function Row(set_: nat): (ways: seq<Block>)
      requires set_ < block.Length0
      reads block
      ensures |ways| == block.Length1 && forall way :: 0 <= way < block.Length1 ==> ways[way] == block[set_, way]
    {
      seq(block.Length1, way requires 0 <= way < block.Length1 reads block => block[set_, way])
    }

    /** Every set is as its uses have left it. */
    ghost predicate Valid()
      reads this, block
    {
      && block.Length1 > 0 && |histories| == block.Length0
      && forall s :: 0 <= s < block.Length0 ==> Row(s) == WaysAfter(block.Length1, histories[s])
    }

    constructor (sets: nat, ways: nat)
      requires ways > 0
      ensures Valid() && fresh(block) && block.Length0 == sets && block.Length1 == ways
      ensures accesses == 0 && forall s :: 0 <= s < sets ==> histories[s] == []
    {
      block := new Block[sets, ways]((s, way) => Block(0, false, if way >= 0 then way else 0));
      histories := seq(sets, s => []);
      accesses := 0;
    }

    /** The first free way; when none is free, the way of the last rank, which always exists. */
    method LruVictim(set_: nat) returns (way: nat)
      requires set_ < block.Length0 && block.Length1 > 0 && Ranked(RanksOf(Row(set_)))
      ensures way == Victim(Row(set_)) < block.Length1
    {
      ghost var ways := Row(set_);
      VictimExists(ways);
      way := 0;
      while way < block.Length1 && block[set_, way].valid
        invariant way <= FindFree(ways)
      {
        assert ways[way].valid;
        way := way + 1;
      }
      if way == block.Length1 {
        way := 0;
        while block[set_, way].lru != block.Length1 - 1
          invariant way <= FindRank(ways, |ways| - 1)
          decreases block.Length1 - way
        {
          assert ways[way].lru != |ways| - 1;
          way := way + 1;
        }
      }
    }

    /** Promote a way, in place. */
    method LruUpdate(set_: nat, way: nat)
      requires set_ < block.Length0 && way < block.Length1
      modifies block
      ensures Row(set_) == Promoted(old(Row(set_)), way)
      ensures forall s :: 0 <= s < block.Length0 && s != set_ ==> Row(s) == old(Row(s))
    {
      var i := 0;
      while i < block.Length1
        invariant 0 <= i <= block.Length1 && block[set_, way] == old(block[set_, way])
        invariant forall j :: 0 <= j < i && j != way ==>
                    block[set_, j] == if old(block[set_, j].lru) < old(block[set_, way].lru)
                                      then old(block[set_, j]).(lru := old(block[set_, j].lru) + 1)
                                      else old(block[set_, j])
        invariant forall j :: i <= j < block.Length1 ==> block[set_, j] == old(block[set_, j])
        invariant forall s, j :: 0 <= s < block.Length0 && s != set_ && 0 <= j < block.Length1 ==>
                    block[s, j] == old(block[s, j])
      {
        if block[set_, i].lru < block[set_, way].lru {
          block[set_, i] := block[set_, i].(lru := block[set_, i].lru + 1);
        }
        i := i + 1;
      }
      block[set_, way] := block[set_, way].(lru := 0);
    }

    /** One access.  It hits exactly when the tag is among the least recently used ones that fit. */
    method Access(set_: nat, tag: nat, writeback: bool) returns (hit: bool)
      requires Valid() && set_ < block.Length0
      modifies this, block
      ensures Valid() && accesses == old(accesses) + 1
      ensures hit <==> tag in old(Content(RankedTags(Row(set_))))
      ensures histories == if hit && writeback then old(histories)
                           else old(histories)[set_ := old(histories[set_]) + [Event(tag, accesses)]]
    {
      ghost var e := Event(tag, accesses + 1);
      NextAccess(block.Length1, histories[set_], e, writeback);
      hit := AccessRow(set_, tag, writeback);
      accesses := accesses + 1;
      if !(hit && writeback) {
        histories := histories[set_ := histories[set_] + [e]];
      }
    }

    /** Find the tag, or fill a victim with it; then update the ranks, except for the hit of a writeback. */
    method AccessRow(set_: nat, tag: nat, writeback: bool) returns (hit: bool)
      requires set_ < block.Length0 && block.Length1 > 0 && Ranked(RanksOf(Row(set_)))
      modifies block
      ensures Outcome(Row(set_), hit) == AccessWays(old(Row(set_)), tag, writeback)
      ensures forall s :: 0 <= s < block.Length0 && s != set_ ==> Row(s) == old(Row(s))
    {
      ghost var ways := Row(set_);
      var way := 0;
      while way < block.Length1 && !(block[set_, way].valid && block[set_, way].tag == tag)
        invariant way <= FindHit(ways, tag)
      {
        assert !Holds(ways[way], tag);
        way := way + 1;
      }
      hit := way < block.Length1;
      if hit && writeback {
        return;
      }
      if !hit {
        way := LruVictim(set_);
        block[set_, way] := Block(tag, true, block[set_, way].lru);
        assert Row(set_) == ways[way := Block(tag, true, ways[way].lru)];
      }
      LruUpdate(set_, way);
    }
  }
}
