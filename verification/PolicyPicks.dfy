/**
 What each scheduling policy of lab 3 picks, in its own words: the oldest request of the best group that is not
 empty.
 */
module PolicyPicks {
  import opened Controller
  import opened Policies
  import opened RowTable

  /** The oldest of a group of requests, and of the oldest ones the nearest to the front. */
  ghost predicate IsOldest(q: seq<Item>, group: Item -> bool, i: int) {
    && 0 <= i < |q| && group(q[i])
    && (forall j :: 0 <= j < |q| && group(q[j]) ==> q[i].arrive <= q[j].arrive)
    && (forall j :: 0 <= j < i && group(q[j]) ==> q[i].arrive < q[j].arrive)
  }

  ghost predicate AnyIn(q: seq<Item>, group: Item -> bool) {
    exists j :: 0 <= j < |q| && group(q[j])
  }

  /** The oldest of the first group, or if it is empty of the second one. */
  ghost predicate IsOldestOf(q: seq<Item>, first: Item -> bool, second: Item -> bool, i: int) {
    if AnyIn(q, first) then IsOldest(q, first, i) else IsOldest(q, second, i)
  }

  ghost predicate HasLeast(q: seq<Item>, attained: int) {
    && (exists j :: 0 <= j < |q| && q[j].attained == attained)
    && (forall j :: 0 <= j < |q| ==> attained <= q[j].attained)
  }

  /** A request that has waited for 100000 cycles, before any other such request. */
  ghost predicate IsFirstLate(q: seq<Item>, clk: int, i: int) {
    0 <= i < |q| && clk - q[i].arrive >= 100000 && forall j :: 0 <= j < i ==> clk - q[j].arrive < 100000
  }

  /** Of the requests whose core has attained this service, the oldest ready hit, or else the oldest one. */
  ghost predicate IsOldestAt(q: seq<Item>, least: int, i: int) {
    IsOldestOf(q, (x: Item) => x.attained == least && x.ready && x.rowHit, (x: Item) => x.attained == least, i)
  }

  /** - FCFS: the oldest request.
      - FR-FCFS: the oldest one whose next command is ready, or else the oldest one.
      - FR-FCFS with a cap: the same, but a request is passed over when its row has had more than 16 accesses.
      - FR-FCFS with prior hits: the oldest one that is ready and whose row is open, or else the oldest one.
      - ATLAS: the first one that waits for too long, or else, of those whose core has attained the least service,
        the oldest ready hit, or else the oldest one.
      - BLISS: of those whose core is not blacklisted, or else of all, the oldest ready hit, or else the oldest one. */
  ghost predicate Picks(policy: Policy, clk: int, q: seq<Item>, i: int) {
    match policy
    case Fcfs => IsOldest(q, x => true, i)
    case FrFcfs => IsOldestOf(q, (x: Item) => x.ready, x => true, i)
    case FrFcfsCap => IsOldestOf(q, (x: Item) => x.ready && x.rowHits <= 16, x => true, i)
    case FrFcfsPriorHit => IsOldestOf(q, (x: Item) => x.ready && x.rowHit, x => true, i)
    case Atlas =>
      if exists j :: IsFirstLate(q, clk, j) then IsFirstLate(q, clk, i)
      else exists least :: HasLeast(q, least) && IsOldestAt(q, least, i)
    case Bliss =>
      if AnyIn(q, (x: Item) => !x.blacklisted) then
        IsOldestOf(q, (x: Item) => !x.blacklisted && x.ready && x.rowHit, (x: Item) => !x.blacklisted, i)
      else
        IsOldestOf(q, (x: Item) => x.ready && x.rowHit, x => true, i)
  }

  /** A best request is an oldest one of the group of the least numbers. */
  lemma BestIsOldest(policy: Policy, q: seq<Item>, i: int, group: Item -> bool)
    requires IsBest(policy, q, i) && group(q[i])
    requires forall j :: 0 <= j < |q| && group(q[j]) ==>
               KeyOf(policy, q[j]).major == KeyOf(policy, q[i]).major
               && KeyOf(policy, q[j]).minor == KeyOf(policy, q[i]).minor
    ensures IsOldest(q, group, i)
  {
    forall j | 0 <= j < |q| && group(q[j])
      ensures q[i].arrive <= q[j].arrive && (j < i ==> q[i].arrive < q[j].arrive)
    {
      assert !Below(KeyOf(policy, q[j]), KeyOf(policy, q[i]));
      assert j < i ==> Below(KeyOf(policy, q[i]), KeyOf(policy, q[j]));
    }
  }

  lemma FcfsPicks(clk: int, q: seq<Item>, i: int)
    requires IsBest(Fcfs, q, i)
    ensures Picks(Fcfs, clk, q, i)
  {
    BestIsOldest(Fcfs, q, i, x => true);
  }

  /** The policies with one preferred group. */
  lemma GroupPicks(policy: Policy, q: seq<Item>, i: int, group: Item -> bool)
    requires IsBest(policy, q, i)
    requires forall j :: 0 <= j < |q| ==>
               KeyOf(policy, q[j]) == Key(0, if group(q[j]) then 0 else 1, q[j].arrive)
    ensures IsOldestOf(q, group, x => true, i)
  {
    if AnyIn(q, group) {
      var j :| 0 <= j < |q| && group(q[j]);
      assert !Below(KeyOf(policy, q[j]), KeyOf(policy, q[i]));
      BestIsOldest(policy, q, i, group);
    } else {
      BestIsOldest(policy, q, i, x => true);
    }
  }

  lemma AtlasPicks(clk: int, q: seq<Item>, i: int)
    requires IsPick(Atlas, clk, q, i) && q != []
    ensures Picks(Atlas, clk, q, i)
  {
    if j :| 0 <= j < |q| && IsOverdue(q[j], clk) {
      assert IsFirstLate(q, clk, i);
    } else {
      assert forall j :: 0 <= j < |q| ==> !IsOverdue(q[j], clk);
      LeastPicks(q, i);
    }
  }

  lemma LeastPicks(q: seq<Item>, i: int)
    requires IsBest(Atlas, q, i)
    ensures HasLeast(q, q[i].attained) && IsOldestAt(q, q[i].attained, i)
  {
    var least := q[i].attained;
    forall j | 0 <= j < |q|
      ensures least <= q[j].attained
      ensures q[j].attained == least && q[j].ready && q[j].rowHit ==> q[i].ready && q[i].rowHit
    {
      assert !Below(KeyOf(Atlas, q[j]), KeyOf(Atlas, q[i]));
    }
    if q[i].ready && q[i].rowHit {
      BestIsOldest(Atlas, q, i, (x: Item) => x.attained == least && x.ready && x.rowHit);
    } else {
      BestIsOldest(Atlas, q, i, (x: Item) => x.attained == least);
    }
  }

  lemma BlissPicks(clk: int, q: seq<Item>, i: int)
    requires IsBest(Bliss, q, i)
    ensures Picks(Bliss, clk, q, i)
  {
    forall j | 0 <= j < |q|
      ensures q[i].blacklisted ==> q[j].blacklisted
      ensures q[j].blacklisted == q[i].blacklisted && q[j].ready && q[j].rowHit ==> q[i].ready && q[i].rowHit
    {
      assert !Below(KeyOf(Bliss, q[j]), KeyOf(Bliss, q[i]));
    }
    var hit := q[i].ready && q[i].rowHit;
    if q[i].blacklisted {
      if hit {
        BestIsOldest(Bliss, q, i, (x: Item) => x.ready && x.rowHit);
      } else {
        BestIsOldest(Bliss, q, i, x => true);
      }
    } else if hit {
      BestIsOldest(Bliss, q, i, (x: Item) => !x.blacklisted && x.ready && x.rowHit);
    } else {
      BestIsOldest(Bliss, q, i, (x: Item) => !x.blacklisted);
    }
  }

  /** The pick of every policy is what the policy says. */
  lemma PickMeans(policy: Policy, clk: int, q: seq<Item>, i: int)
    requires IsPick(policy, clk, q, i) && q != []
    ensures Picks(policy, clk, q, i)
  {
    match policy
    case Fcfs => FcfsPicks(clk, q, i);
    case FrFcfs => GroupPicks(policy, q, i, (x: Item) => x.ready);
    case FrFcfsCap => GroupPicks(policy, q, i, (x: Item) => x.ready && x.rowHits <= 16);
    case FrFcfsPriorHit => GroupPicks(policy, q, i, (x: Item) => x.ready && x.rowHit);
    case Atlas => AtlasPicks(clk, q, i);
    case Bliss => BlissPicks(clk, q, i);
  }

  /** What the policies know of a read or write: when it arrived, whether its next command may go now, whether its row
      is open in its bank, and how often it has been accessed since it was opened. */
  lemma ItemMeans(r: Request, timing: Timing, d: Dram, cores: Cores)
    requires RecordsUse(d) && !r.kind.RefreshRequest? && r.path in d.banks
    ensures
      var x, use := ItemOf(r, timing, d.banks, d.table, cores), UseOf(d.issued, r.path);
      var next := if use.Unused? then Activate else if use.row != r.row then Precharge
                  else if r.kind.ReadRequest? then Read else Write;
      && x.arrive == r.arrive && x.ready == timing.allows(next, r.path, r.row)
      && (x.rowHit <==> use.Used? && use.row == r.row)
      && x.rowHits == (if use.Used? && use.row == r.row then use.accesses else 0)
      && x.attained == cores.attained(r) && x.blacklisted == cores.blacklisted(r)
  {
    FirstForUse(d, r.path, r.row, Access(r.kind));
    HitsForUse(d, r.path, r.row);
  }
}
