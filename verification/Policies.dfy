/**
 The scheduling policies of the DRAM controller of lab 3: a queue is folded from the front with a
 pairwise comparison that keeps one of two requests.  The fold finds the best request of the queue.
 */
module Policies {
  import opened RowTable
  import opened Controller

  const CAP: int := 16
  const THRESHOLD: int := 100000

  datatype Policy = Fcfs | FrFcfs | FrFcfsCap | FrFcfsPriorHit | Atlas | Bliss

  /** What the policies know of a request: its arrival, whether its next command is ready and its row open,
      how often that row has been accessed, and of its core the attained service and the blacklisting.
      Of the attained service only the order matters. */
  datatype Item = Item(arrive: int, ready: bool, rowHit: bool, rowHits: int, attained: int, blacklisted: bool)

  predicate IsOverdue(x: Item, clk: int) {
    x.arrive + THRESHOLD <= clk
  }

  predicate ReadyHit(x: Item) {
    x.ready && x.rowHit
  }

  /** Ready, and not one of too many accesses to the same row. */
  predicate ReadyCapped(x: Item) {
    x.ready && x.rowHits <= CAP
  }

  /** The comparison: does the policy keep the first of two requests? */
  predicate KeepsFirst(policy: Policy, clk: int, x: Item, y: Item) {
    match policy
    case Fcfs => x.arrive <= y.arrive
    case FrFcfs => if x.ready != y.ready then x.ready else x.arrive <= y.arrive
    case FrFcfsCap => if ReadyCapped(x) != ReadyCapped(y) then ReadyCapped(x) else x.arrive <= y.arrive
    case FrFcfsPriorHit => if ReadyHit(x) != ReadyHit(y) then ReadyHit(x) else x.arrive <= y.arrive
    case Atlas =>
      if IsOverdue(x, clk) then true
      else if IsOverdue(y, clk) then false
      else if x.attained < y.attained then true
      else if y.attained < x.attained then false
      else if ReadyHit(x) != ReadyHit(y) then ReadyHit(x)
      else x.arrive <= y.arrive
    case Bliss =>
      if x.blacklisted != y.blacklisted then !x.blacklisted
      else if ReadyHit(x) != ReadyHit(y) then ReadyHit(x)
      else x.arrive <= y.arrive
  }

  // ---- the order behind a policy ----

  /** A policy minimises three numbers, the first of them first. */
  datatype Key = Key(major: int, minor: int, arrive: int)

  function Bit(b: bool): int {
    if b then 1 else 0
  }

  function KeyOf(policy: Policy, x: Item): Key {
    match policy
    case Fcfs => Key(0, 0, x.arrive)
    case FrFcfs => Key(0, Bit(!x.ready), x.arrive)
    case FrFcfsCap => Key(0, Bit(!ReadyCapped(x)), x.arrive)
    case FrFcfsPriorHit => Key(0, Bit(!ReadyHit(x)), x.arrive)
    case Atlas => Key(x.attained, Bit(!ReadyHit(x)), x.arrive)
    case Bliss => Key(Bit(x.blacklisted), Bit(!ReadyHit(x)), x.arrive)
  }

  predicate Below(a: Key, b: Key) {
    a.major < b.major || (a.major == b.major && (a.minor < b.minor || (a.minor == b.minor && a.arrive < b.arrive)))
  }

  /** The comparison keeps the first of two requests unless the second has the smaller key. */
  lemma ComparesKeys(policy: Policy, clk: int, x: Item, y: Item)
    requires policy.Atlas? ==> !IsOverdue(x, clk) && !IsOverdue(y, clk)
    ensures KeepsFirst(policy, clk, x, y) <==> !Below(KeyOf(policy, y), KeyOf(policy, x))
  {
  }

  /** No request is better, and none that is as good is nearer to the front. */
  ghost predicate IsBest(policy: Policy, q: seq<Item>, head: int) {
    && 0 <= head < |q|
    && (forall j :: 0 <= j < |q| ==> !Below(KeyOf(policy, q[j]), KeyOf(policy, q[head])))
    && (forall j :: 0 <= j < head ==> Below(KeyOf(policy, q[head]), KeyOf(policy, q[j])))
  }

  /** Some request has waited for too long. */
  ghost predicate AnyOverdue(q: seq<Item>, clk: int) {
    exists i :: 0 <= i < |q| && IsOverdue(q[i], clk)
  }

  /** The one nearest to the front that has waited for too long. */
  ghost predicate IsFirstOverdue(q: seq<Item>, clk: int, head: int) {
    && 0 <= head < |q| && IsOverdue(q[head], clk)
    && (forall j :: 0 <= j < head ==> !IsOverdue(q[j], clk))
  }

  /** The pick of a policy in a queue, or -1 when it is empty: with ATLAS an overdue request if there is
      one, and otherwise the best one. */
  ghost predicate IsPick(policy: Policy, clk: int, q: seq<Item>, head: int) {
    if q == [] then head == -1
    else if policy.Atlas? && AnyOverdue(q, clk) then IsFirstOverdue(q, clk, head)
    else IsBest(policy, q, head)
  }

  /** A queue has one pick. */
  lemma PickIsUnique(policy: Policy, clk: int, q: seq<Item>, head: int, other: int)
    requires IsPick(policy, clk, q, head)
    ensures IsPick(policy, clk, q, other) <==> other == head
  {
    if other != head && 0 <= other < |q| {
      NoOtherPick(policy, clk, q, head, other);
    }
  }

  lemma NoOtherPick(policy: Policy, clk: int, q: seq<Item>, head: int, other: int)
    requires IsPick(policy, clk, q, head) && 0 <= other < |q| && other != head
    ensures !IsPick(policy, clk, q, other)
  {
    var first, second := if head < other then head else other, if head < other then other else head;
    if policy.Atlas? && AnyOverdue(q, clk) {
      assert first == head ==> IsOverdue(q[first], clk);
    } else {
      assert second == head ==> Below(KeyOf(policy, q[second]), KeyOf(policy, q[first]));
      assert first == head ==> !Below(KeyOf(policy, q[second]), KeyOf(policy, q[first]));
    }
  }

  /** One comparison of the fold. */
  lemma BestGoesOn(policy: Policy, clk: int, q: seq<Item>, head: int, i: int)
    requires 0 <= head < i < |q| && IsBest(policy, q[..i], head)
    requires policy.Atlas? ==> !IsOverdue(q[head], clk) && !IsOverdue(q[i], clk)
    ensures IsBest(policy, q[..i + 1], if KeepsFirst(policy, clk, q[head], q[i]) then head else i)
  {
    ComparesKeys(policy, clk, q[head], q[i]);
  }

  lemma AnyGoesOn(q: seq<Item>, clk: int, i: int)
    requires 0 <= i < |q|
    ensures AnyOverdue(q[..i + 1], clk) <==> AnyOverdue(q[..i], clk) || IsOverdue(q[i], clk)
    ensures !AnyOverdue(q[..i], clk) ==> forall j :: 0 <= j < i ==> !IsOverdue(q[j], clk)
  {
    var less, more := q[..i], q[..i + 1];
    assert more[i] == q[i] && forall j :: 0 <= j < i ==> less[j] == q[j] && more[j] == q[j];
  }

  lemma PickGoesOn(policy: Policy, clk: int, q: seq<Item>, head: int, i: nat)
    requires 0 < i < |q| && IsPick(policy, clk, q[..i], head)
    ensures IsPick(policy, clk, q[..i + 1], if KeepsFirst(policy, clk, q[head], q[i]) then head else i)
  {
    AnyGoesOn(q, clk, i);
    if !policy.Atlas? || !AnyOverdue(q[..i + 1], clk) {
      BestGoesOn(policy, clk, q, head, i);
    }
  }

  /** The pick, as the fold finds it. */
  function PickOf(policy: Policy, clk: int, q: seq<Item>): (head: int)
    ensures IsPick(policy, clk, q, head)
  {
    if |q| == 0 then -1
    else if |q| == 1 then 0
    else
      var last := |q| - 1;
      var head := PickOf(policy, clk, q[..last]);
      PickGoesOn(policy, clk, q, head, last);
      assert q[..last + 1] == q;
      if KeepsFirst(policy, clk, q[head], q[last]) then head else last
  }

  /** Fold a queue with the comparison. */
  method GetHead(policy: Policy, clk: int, q: seq<Item>) returns (head: int)
    ensures head == PickOf(policy, clk, q) && IsPick(policy, clk, q, head)
  {
    if |q| == 0 {
      return -1;
    }
    head := 0;
    var i := 1;
    while i < |q|
      invariant 0 <= head < i <= |q| && head == PickOf(policy, clk, q[..i])
    {
      assert q[..i + 1][..i] == q[..i];
      if !KeepsFirst(policy, clk, q[head], q[i]) {
        head := i;
      }
      i := i + 1;
    }
    assert q[..i] == q;
  }

  // ---- the requests of the controller ----

  /** What the controller knows of the cores that the requests come from. */
  datatype Cores = Cores(attained: Request -> int, blacklisted: Request -> bool)

  /** Is the row of a read or write open? */
  predicate IsRowHit(banks: Banks, r: Request) {
    !r.kind.RefreshRequest? && r.path in banks && banks[r.path].isOpen && r.row in banks[r.path].rows
  }

  function ItemOf(r: Request, timing: Timing, banks: Banks, table: Table, cores: Cores): Item
    requires IsAddressed(r, banks)
  {
    Item(r.arrive, RequestReady(timing, banks, r), IsRowHit(banks, r), HitsOf(table, r.path, r.row, false),
         cores.attained(r), cores.blacklisted(r))
  }

  ghost predicate AllAddressed(q: seq<Request>, banks: Banks) {
    forall i :: 0 <= i < |q| ==> IsAddressed(q[i], banks)
  }

  function ItemsOf(q: seq<Request>, timing: Timing, banks: Banks, table: Table, cores: Cores): (items: seq<Item>)
    requires AllAddressed(q, banks)
    ensures |items| == |q| && forall i :: 0 <= i < |q| ==> items[i] == ItemOf(q[i], timing, banks, table, cores)
  {
    seq(|q|, i requires 0 <= i < |q| => ItemOf(q[i], timing, banks, table, cores))
  }

  lemma QueueAddressed(c: Channel, clk: int, source: Source)
    requires ChannelOk(c, clk)
    ensures AllAddressed(Queue(c.qs, source), c.dram.banks)
  {
    TypedAddressed(c.qs, clk, c.dram.banks);
  }

  /** The pick of the policy in the queue whose turn it is. */
  ghost predicate IsPolicyPick(policy: Policy, c: Channel, clk: int, writeMode: bool, timing: Timing, cores: Cores,
                               pick: int) {
    var q := Queue(c.qs, Turn(c.qs, writeMode));
    AllAddressed(q, c.dram.banks) && IsPick(policy, clk, ItemsOf(q, timing, c.dram.banks, c.dram.table, cores), pick)
  }

  /** The request waits for too long. */
  predicate IsLate(r: Request, clk: int) {
    clk - r.arrive >= 100000
  }

  /** Whenever a request of the queue whose turn it is waits for too long, ATLAS picks one that does, and none
      in the queue is older: because the queues of every reachable channel are in the order of arrival. */
  lemma AtlasPicksOldestOverdue(c: Channel, clk: int, writeMode: bool, timing: Timing, cores: Cores, i: nat, pick: int)
    requires ChannelOk(c, clk) && IsPolicyPick(Atlas, c, clk, writeMode, timing, cores, pick)
    requires
      var q := Queue(c.qs, Turn(c.qs, writeMode));
      i < |q| && IsLate(q[i], clk)
    ensures
      var q := Queue(c.qs, Turn(c.qs, writeMode));
      pick == 0 && IsLate(q[pick], clk) && forall j :: 0 <= j < |q| ==> q[pick].arrive <= q[j].arrive
  {
    var q := Queue(c.qs, Turn(c.qs, writeMode));
    var items := ItemsOf(q, timing, c.dram.banks, c.dram.table, cores);
    assert InArrivalOrder(q);
    assert IsOverdue(items[i], clk);
    assert AnyOverdue(items, clk);
    assert q[0].arrive <= q[i].arrive;
    assert IsOverdue(items[0], clk);
  }
}
