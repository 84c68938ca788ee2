/**
 The set-associative cache of the pipeline simulator, with its six replacement policies, and with
 the one-block mode that stands for a disabled cache.
 */
module Cache {
  datatype Policy = LruLru | LruMru | MruMru | MruLru | Fifo | Lifo

  datatype Block = Block(tag: nat, valid: bool, lastAccess: int, insertTimestamp: int)

  const EMPTY_BLOCK := Block(0, false, 0, 0)

  datatype Config = Config(totalSize: nat, blockSizeLog2: nat, numSets: nat, numSetsLog2: nat,
                           numWays: nat, policy: Policy)

  datatype State = State(config: Config, timestamp: int, insertCounter: int, blocks: seq<Block>)

  predicate ConfigOk(c: Config) {
    c.totalSize != 0 ==> c.numSets > 0 && c.numWays > 0
  }

  predicate WellFormed(c: State) {
    && ConfigOk(c.config)
    && |c.blocks| == if c.config.totalSize == 0 then 1 else c.config.numSets * c.config.numWays
  }

  // ---- address fields ----

  /** `x >> n`. */
  function ShiftRight(x: nat, n: nat): nat
    decreases n
  {
    if n == 0 then x else ShiftRight(x / 2, n - 1)
  }

  /** Bitwise conjunction. */
  function BitAnd(x: nat, y: nat): (r: nat)
    ensures r <= y
  {
    if x == 0 || y == 0 then 0 else (x % 2) * (y % 2) + 2 * BitAnd(x / 2, y / 2)
  }

  function SetIndex(c: Config, addr: nat): (i: nat)
    requires c.numSets > 0
    ensures i < c.numSets
  {
    BitAnd(ShiftRight(addr, c.blockSizeLog2), c.numSets - 1)
  }

  function Tag(c: Config, addr: nat): nat {
    ShiftRight(addr, c.blockSizeLog2 + c.numSetsLog2)
  }

  // ---- choosing a way ----

  predicate Holds(b: Block, tag: nat) {
    b.valid && b.tag == tag
  }

  /** The first way that holds `tag`, or the number of ways. */
  function FindHit(ways: seq<Block>, tag: nat): (i: nat)
    ensures i <= |ways|
    ensures i < |ways| ==> Holds(ways[i], tag)
    ensures forall j :: 0 <= j < i ==> !Holds(ways[j], tag)
  {
    if ways == [] || Holds(ways[0], tag) then 0 else 1 + FindHit(ways[1..], tag)
  }

  /** The first invalid way, or the number of ways. */
  function FindInvalid(ways: seq<Block>): (i: nat)
    ensures i <= |ways|
    ensures i < |ways| ==> !ways[i].valid
    ensures forall j :: 0 <= j < i ==> ways[j].valid
  {
    if ways == [] || !ways[0].valid then 0 else 1 + FindInvalid(ways[1..])
  }

  /** The number a policy compares: it evicts the first block with the smallest one. */
  function EvictionKey(policy: Policy, b: Block): int {
    match policy
    case LruLru => b.lastAccess
    case LruMru => b.lastAccess
    case MruMru => -b.lastAccess
    case MruLru => -b.lastAccess
    case Fifo => b.insertTimestamp
    case Lifo => -b.insertTimestamp
  }

  function FindVictim(policy: Policy, ways: seq<Block>): (i: nat)
    requires ways != []
    ensures i < |ways|
    ensures forall j :: 0 <= j < |ways| ==> EvictionKey(policy, ways[i]) <= EvictionKey(policy, ways[j])
    ensures forall j :: 0 <= j < i ==> EvictionKey(policy, ways[i]) < EvictionKey(policy, ways[j])
  {
    var last := |ways| - 1;
    if last == 0 then 0
    else
      var i := FindVictim(policy, ways[..last]);
      if EvictionKey(policy, ways[last]) < EvictionKey(policy, ways[i]) then last else i
  }

  function OldestAccess(ways: seq<Block>): (t: int)
    requires ways != []
    ensures forall j :: 0 <= j < |ways| ==> t <= ways[j].lastAccess
    ensures exists j :: 0 <= j < |ways| && t == ways[j].lastAccess
  {
    var last := |ways| - 1;
    if last == 0 then ways[0].lastAccess
    else
      var t := OldestAccess(ways[..last]);
      if ways[last].lastAccess < t then ways[last].lastAccess else t
  }

  lemma OldestOfMore(ways: seq<Block>, n: nat)
    requires 0 < n < |ways|
    ensures
      var t := OldestAccess(ways[..n]);
      OldestAccess(ways[..n + 1]) == if ways[n].lastAccess < t then ways[n].lastAccess else t
  {
    assert ways[..n + 1][..n] == ways[..n] && ways[..n + 1][n] == ways[n];
  }

  /** The access time that a policy gives the block it brings in. */
  function InsertionTime(policy: Policy, ways: seq<Block>, now: int): int
    requires ways != []
  {
    match policy
    case LruLru => ways[FindVictim(policy, ways)].lastAccess
    case MruLru => OldestAccess(ways)
    case _ => now
  }

  predicate CountsInsertions(policy: Policy) {
    policy == Fifo || policy == Lifo
  }

  /** The block that a policy puts in the place of its victim. */
  function Replacement(policy: Policy, ways: seq<Block>, tag: nat, now: int, counter: int): Block
    requires ways != []
  {
    Block(tag, true, InsertionTime(policy, ways, now),
          if CountsInsertions(policy) then counter + 1 else ways[FindVictim(policy, ways)].insertTimestamp)
  }

  datatype SetOutcome = SetOutcome(ways: seq<Block>, insertCounter: int, hit: bool)

  /** One access to the ways of one set, at time `now`. */
  function AccessSet(policy: Policy, ways: seq<Block>, tag: nat, now: int, counter: int): (r: SetOutcome)
    requires ways != []
    ensures |r.ways| == |ways|
  {
    var i := FindHit(ways, tag);
    if i < |ways| then
      SetOutcome(ways[i := ways[i].(lastAccess := now)], counter, true)
    else
      var free := FindInvalid(ways);
      if free < |ways| then
        SetOutcome(ways[free := Block(tag, true, now, counter + 1)], counter + 1, false)
      else
        SetOutcome(ways[FindVictim(policy, ways) := Replacement(policy, ways, tag, now, counter)],
                   if CountsInsertions(policy) then counter + 1 else counter, false)
  }

  /** The first block of the set that `addr` belongs to. */
  function SetBase(c: Config, addr: nat): nat
    requires c.numSets > 0
  {
    SetIndex(c, addr) * c.numWays
  }

  lemma {:induction false} MultiplesAreOrdered(a: nat, b: nat, w: nat)
    requires a <= b
    ensures a * w <= b * w
    decreases b
  {
    if a < b {
      MultiplesAreOrdered(a, b - 1, w);
      assert b * w == (b - 1) * w + w;
    }
  }

  lemma SetInRange(c: Config, addr: nat)
    requires c.numSets > 0
    ensures SetBase(c, addr) + c.numWays <= c.numSets * c.numWays
  {
    var i := SetIndex(c, addr);
    MultiplesAreOrdered(i + 1, c.numSets, c.numWays);
    assert (i + 1) * c.numWays == i * c.numWays + c.numWays;
  }

  function Accessed(c: State, addr: nat): (r: (State, bool))
    requires WellFormed(c)
    ensures WellFormed(r.0) && r.0.config == c.config
  {
    if c.config.totalSize == 0 then
      var b := c.blocks[0];
      if Holds(b, addr) then (c.(blocks := [b.(valid := false)]), true)
      else (c.(blocks := [b.(tag := addr, valid := true)]), false)
    else
      SetInRange(c.config, addr);
      var base := SetBase(c.config, addr);
      var end := base + c.config.numWays;
      var r := AccessSet(c.config.policy, c.blocks[base..end], Tag(c.config, addr), c.timestamp + 1, c.insertCounter);
      (State(c.config, c.timestamp + 1, r.insertCounter, c.blocks[..base] + r.ways + c.blocks[end..]), r.hit)
  }

  /** `addr` would be found. */
  predicate WouldHit(c: State, addr: nat)
    requires WellFormed(c)
  {
    Accessed(c, addr).1
  }

  lemma MissFillsSet(policy: Policy, ways: seq<Block>, tag: nat, now: int, counter: int)
    requires ways != []
    requires !AccessSet(policy, ways, tag, now, counter).hit
    ensures exists i :: 0 <= i < |ways| && Holds(AccessSet(policy, ways, tag, now, counter).ways[i], tag)
  {
    var free := FindInvalid(ways);
    var i := if free < |ways| then free else FindVictim(policy, ways);
    assert Holds(AccessSet(policy, ways, tag, now, counter).ways[i], tag);
  }

  /** Under every policy, and with the cache disabled, an address that missed hits when it is asked
      for again before anything else. */
  lemma MissThenHit(c: State, addr: nat)
    requires WellFormed(c) && !WouldHit(c, addr)
    ensures WouldHit(Accessed(c, addr).0, addr)
  {
    if c.config.totalSize != 0 {
      SetInRange(c.config, addr);
      var base := SetBase(c.config, addr);
      var end := base + c.config.numWays;
      var ways := c.blocks[base..end];
      MissFillsSet(c.config.policy, ways, Tag(c.config, addr), c.timestamp + 1, c.insertCounter);
      var r := AccessSet(c.config.policy, ways, Tag(c.config, addr), c.timestamp + 1, c.insertCounter);
      assert Accessed(c, addr).0.blocks[base..end] == r.ways;
    }
  }

  lemma UpdateInSlice<T>(s: seq<T>, base: nat, length: nat, i: nat, x: T)
    requires i < length && base + length <= |s|
    ensures s[base + i := x] == s[..base] + s[base..base + length][i := x] + s[base + length..]
  {
  }

  /** The cache as the simulator keeps it. */
  class CacheState {
    const config: Config
    const blocks: array<Block>
    var timestamp: int
    var insertCounter: int

    ghost predicate Valid()
      reads this, blocks
    {
      WellFormed(State(config, timestamp, insertCounter, blocks[..]))
    }

    ghost function View(): State
      reads this, blocks
    {
      State(config, timestamp, insertCounter, blocks[..])
    }

    constructor (config: Config)
      requires ConfigOk(config)
      ensures Valid() && fresh(blocks)
      ensures this.config == config && View() == State(config, 0, 0, blocks[..])
      ensures forall k :: 0 <= k < blocks.Length ==> blocks[k] == Block(0, false, 0, 0)
    {
      this.config := config;
      blocks := new Block[if config.totalSize == 0 then 1 else config.numSets * config.numWays](i => EMPTY_BLOCK);
      timestamp, insertCounter := 0, 0;
    }

    /** The way that a replacement policy evicts from the set that starts at `base`. */
    method PickVictim(base: nat) returns (victim: nat)
      requires config.numWays > 0 && base + config.numWays <= blocks.Length
      ensures victim == FindVictim(config.policy, blocks[base..base + config.numWays])
    {
      ghost var ways := blocks[base..base + config.numWays];
      victim := 0;
      var way := 1;
      assert ways[..1] == [ways[0]];
      while way < config.numWays
        invariant 1 <= way <= config.numWays
        invariant victim == FindVictim(config.policy, ways[..way])
      {
        assert ways[..way + 1][..way] == ways[..way] && ways[..way + 1][way] == ways[way];
        assert ways[way] == blocks[base + way] && ways[victim] == blocks[base + victim];
        if EvictionKey(config.policy, blocks[base + way]) < EvictionKey(config.policy, blocks[base + victim]) {
          victim := way;
        }
        way := way + 1;
      }
      assert ways[..way] == ways;
    }

    method LeastRecentTime(base: nat) returns (time: int)
      requires config.numWays > 0 && base + config.numWays <= blocks.Length
      ensures time == OldestAccess(blocks[base..base + config.numWays])
    {
      time := blocks[base].lastAccess;
      var way := 1;
      assert blocks[base..base + config.numWays][..1] == [blocks[base]];
      while way < config.numWays
        invariant 1 <= way <= config.numWays
        invariant time == OldestAccess(blocks[base..base + config.numWays][..way])
      {
        ghost var ways := blocks[base..base + config.numWays];
        OldestOfMore(ways, way);
        if time > blocks[base + way].lastAccess {
          time := blocks[base + way].lastAccess;
        }
        way := way + 1;
      }
      assert blocks[base..base + config.numWays][..way] == blocks[base..base + config.numWays];
    }

    /** Overwrite one way of the set that starts at `base`. */
    method WriteBlock(base: nat, way: nat, b: Block)
      requires way < config.numWays && base + config.numWays <= blocks.Length
      modifies blocks
      ensures var end := base + config.numWays;
              blocks[..] == old(blocks[..base]) + old(blocks[base..end])[way := b] + old(blocks[end..])
    {
      blocks[base + way] := b;
      UpdateInSlice(old(blocks[..]), base, config.numWays, way, b);
    }

    /** The set is full: evict by policy and insert. */
    method Replace(base: nat, tag: nat)
      requires config.numWays > 0 && base + config.numWays <= blocks.Length
      requires FindHit(blocks[base..base + config.numWays], tag) == config.numWays
      requires FindInvalid(blocks[base..base + config.numWays]) == config.numWays
      modifies this`insertCounter, blocks
      ensures
        var end := base + config.numWays;
        var r := AccessSet(config.policy, old(blocks[base..end]), tag, timestamp, old(insertCounter));
        && blocks[..] == old(blocks[..base]) + r.ways + old(blocks[end..])
        && insertCounter == r.insertCounter && !r.hit
    {
      ghost var ways := blocks[base..base + config.numWays];
      var way := PickVictim(base);
      assert blocks[base + way] == ways[way];
      var time := timestamp;
      if config.policy == LruLru {
        time := blocks[base + way].lastAccess;
      } else if config.policy == MruLru {
        time := LeastRecentTime(base);
      }
      var inserted := blocks[base + way].insertTimestamp;
      if config.policy == Fifo || config.policy == Lifo {
        insertCounter := insertCounter + 1;
        inserted := insertCounter;
      }
      assert Block(tag, true, time, inserted) ==
             Replacement(config.policy, ways, tag, timestamp, old(insertCounter));
      WriteBlock(base, way, Block(tag, true, time, inserted));
    }

    /** One access; the answer says whether it hit. */
    method Access(addr: nat) returns (hit: bool)
      requires Valid()
      modifies this, blocks
      ensures Valid()
      ensures (View(), hit) == Accessed(old(View()), addr)
    {
      if config.totalSize == 0 {
        var block := blocks[0];
        if block.valid && block.tag == addr {
          blocks[0] := block.(valid := false);
          hit := true;
        } else {
          blocks[0] := block.(tag := addr, valid := true);
          hit := false;
        }
        assert blocks[..] == [blocks[0]];
        return;
      }
      timestamp := timestamp + 1;
      SetInRange(config, addr);
      var base := SetIndex(config, addr) * config.numWays;
      hit := AccessWays(base, Tag(config, addr));
    }

    /** One access to the ways of the set that starts at `base`. */
    method AccessWays(base: nat, tag: nat) returns (hit: bool)
      requires config.numWays > 0 && base + config.numWays <= blocks.Length
      modifies this`insertCounter, blocks
      ensures
        var end := base + config.numWays;
        var r := AccessSet(config.policy, old(blocks[base..end]), tag, timestamp, old(insertCounter));
        && blocks[..] == old(blocks[..base]) + r.ways + old(blocks[end..])
        && insertCounter == r.insertCounter && hit == r.hit
    {
      ghost var ways := blocks[base..base + config.numWays];
      var way := 0;
      while way < config.numWays
        invariant way <= FindHit(ways, tag)
      {
        if blocks[base + way].valid && blocks[base + way].tag == tag {
          WriteBlock(base, way, blocks[base + way].(lastAccess := timestamp));
          return true;
        }
        assert ways[way] == blocks[base + way];
        way := way + 1;
      }
      way := 0;
      while way < config.numWays
        invariant way <= FindInvalid(ways)
      {
        if !blocks[base + way].valid {
          insertCounter := insertCounter + 1;
          WriteBlock(base, way, Block(tag, true, timestamp, insertCounter));
          return false;
        }
        assert ways[way] == blocks[base + way];
        way := way + 1;
      }
      Replace(base, tag);
      return false;
    }
  }
}
