/**
 The pipeline with its two caches makes progress: every running state retires an instruction within
 a fixed number of cycles, whatever the policies and sizes of the caches.
 */
module PipelineProgress {
  import opened Common
  import opened MipsOps
  import opened Pipeline
  import opened PipelineRefinement
  import opened PipelineRuns
  import C = Cache

  datatype System<Mem> = System(pipe: State<Mem>, inst: C.State, data: C.State)

  /** The data cache's answer in this cycle. */
  function DataAnswer<Mem>(y: System<Mem>): (r: (C.State, bool))
    requires C.WellFormed(y.data)
    ensures C.WellFormed(r.0)
  {
    if AccessesData(y.pipe) then C.Accessed(y.data, y.pipe.memOp.value.memAddr as nat) else (y.data, false)
  }

  /** The instruction cache's answer in this cycle. */
  function InstAnswer<Mem>(y: System<Mem>, dataHit: bool): (r: (C.State, bool))
    requires C.WellFormed(y.inst)
    ensures C.WellFormed(r.0)
  {
    if Fetches(y.pipe, dataHit) then C.Accessed(y.inst, FetchPc(y.pipe) as nat) else (y.inst, false)
  }

  ghost predicate CachesOk<Mem>(y: System<Mem>) {
    C.WellFormed(y.inst) && C.WellFormed(y.data) && WellFormed(y.pipe)
  }

  function Cycle<Mem>(isa: Isa<Mem>, y: System<Mem>): (z: System<Mem>)
    requires CachesOk(y)
    ensures CachesOk(z)
  {
    var data := DataAnswer(y);
    var inst := InstAnswer(y, data.1);
    System(Tick(isa, y.pipe, data.1, inst.1), inst.0, data.0)
  }

  /** The stall counters are bounded, and a data stall is one that the next access ends. */
  ghost predicate StallsOk<Mem>(s: State<Mem>, data: C.State)
    requires C.WellFormed(data)
  {
    && s.mulStall <= 32 && s.instStall <= MISS_STALL && s.dataStall <= MISS_STALL
    && (s.dataStall > 0 ==>
          s.memOp.Some? && s.memOp.value.isMem && C.WouldHit(data, s.memOp.value.memAddr as nat))
  }

  ghost predicate Valid<Mem>(y: System<Mem>) {
    CachesOk(y) && StallsOk(y.pipe, y.data)
  }

  // ---- a count that falls in every cycle without retirement ----

  function MemRank(op: Op, stall: nat, data: C.State): (r: nat)
    requires C.WellFormed(data)
  {
    if stall > 0 then stall + 1
    else if !op.isMem || C.WouldHit(data, op.memAddr as nat) then 1
    else MISS_STALL + 2
  }

  const MEM_RANK: nat := MISS_STALL + 2

  function ExecuteRank(op: Op, stall: nat): nat {
    MEM_RANK + 1 + if WaitsForMultiplier(op) && stall > 1 then stall - 1 else 0
  }

  const DECODE_RANK: nat := MEM_RANK + 33

  function FetchRank(pc: Word, stall: nat, inst: C.State): nat
    requires C.WellFormed(inst)
  {
    DECODE_RANK + 1 + stall + if C.WouldHit(inst, pc as nat) then 0 else MISS_STALL + 1
  }

  /** How many cycles the oldest occupied stage is at most away from retiring. */
  function Rank<Mem>(s: State<Mem>, inst: C.State, data: C.State): nat
    requires C.WellFormed(inst) && C.WellFormed(data)
  {
    if s.wbOp.Some? then 0
    else if s.memOp.Some? then MemRank(s.memOp.value, s.dataStall, data)
    else if s.executeOp.Some? then ExecuteRank(s.executeOp.value, s.mulStall)
    else if s.decodeOp.Some? then DECODE_RANK
    else FetchRank(s.pc, s.instStall, inst)
  }

  lemma RankIsBounded<Mem>(y: System<Mem>)
    requires Valid(y)
    ensures Rank(y.pipe, y.inst, y.data) < 182
  {
  }

  /** The parts of a tick that the rank depends on. */
  ghost predicate Follows<Mem>(s: State<Mem>, dataHit: bool, instHit: bool, t: State<Mem>) {
    && t.wbOp.Some? == MemFires(s, dataHit)
    && t.dataStall == NextMissStall(s.dataStall, AccessesData(s) && !dataHit)
    && t.instStall == NextMissStall(s.instStall, Fetches(s, dataHit) && !instHit)
    && (s.mulStall <= 32 ==> t.mulStall <= 32)
    && (s.memOp.Some? && !MemFires(s, dataHit) ==> t.memOp == s.memOp)
    && (ExecuteFires(s, dataHit) ==> t.memOp.Some?)
    && (s.memOp.None? && !ExecuteFires(s, dataHit) ==> t.memOp.None? && t.mulStall == NextMulStall(s.mulStall, 0))
    && (s.memOp.None? && s.executeOp.Some? && !ExecuteFires(s, dataHit) ==>
          t.executeOp.Some? && WaitsForMultiplier(t.executeOp.value))
    && (s.memOp.None? && s.executeOp.None? && s.decodeOp.Some? ==> t.executeOp.Some?)
    && (s.memOp.None? && s.executeOp.None? && s.decodeOp.None? ==>
          && t.executeOp.None?
          && t.decodeOp.Some? == Fetched(s, dataHit, instHit)
          && (t.decodeOp.None? ==> t.pc == FetchPc(s)))
  }

  lemma TickFollows<Mem>(isa: Isa<Mem>, s: State<Mem>, dataHit: bool, instHit: bool)
    requires WellFormed(s)
    ensures Follows(s, dataHit, instHit, Tick(isa, s, dataHit, instHit))
  {
  }

  /** Every data stall is ended by a hit: the miss brought the block in and nothing else comes between. */
  lemma StallsStayOk<Mem>(y: System<Mem>, instHit: bool, t: State<Mem>)
    requires Valid(y) && Follows(y.pipe, DataAnswer(y).1, instHit, t)
    ensures StallsOk(t, DataAnswer(y).0)
  {
    if AccessesData(y.pipe) && !DataAnswer(y).1 {
      C.MissThenHit(y.data, y.pipe.memOp.value.memAddr as nat);
    }
  }

  lemma RankFallsInMem<Mem>(y: System<Mem>, instHit: bool, t: State<Mem>, inst: C.State)
    requires Valid(y) && Follows(y.pipe, DataAnswer(y).1, instHit, t) && C.WellFormed(inst)
    requires y.pipe.wbOp.None? && y.pipe.memOp.Some?
    ensures Rank(t, inst, DataAnswer(y).0) < Rank(y.pipe, y.inst, y.data)
  {
    if AccessesData(y.pipe) && !DataAnswer(y).1 {
      C.MissThenHit(y.data, y.pipe.memOp.value.memAddr as nat);
    }
  }

  lemma RankFallsInExecute<Mem>(y: System<Mem>, instHit: bool, t: State<Mem>, inst: C.State)
    requires Valid(y) && Follows(y.pipe, DataAnswer(y).1, instHit, t) && C.WellFormed(inst)
    requires y.pipe.wbOp.None? && y.pipe.memOp.None? && (y.pipe.executeOp.Some? || y.pipe.decodeOp.Some?)
    ensures Rank(t, inst, DataAnswer(y).0) < Rank(y.pipe, y.inst, y.data)
  {
    StallsStayOk(y, instHit, t);
  }

  lemma RankFallsInFetch<Mem>(y: System<Mem>, t: State<Mem>)
    requires Valid(y)
    requires Follows(y.pipe, DataAnswer(y).1, InstAnswer(y, DataAnswer(y).1).1, t)
    requires y.pipe.wbOp.None? && y.pipe.memOp.None? && y.pipe.executeOp.None? && y.pipe.decodeOp.None?
    ensures Rank(t, InstAnswer(y, DataAnswer(y).1).0, DataAnswer(y).0) < Rank(y.pipe, y.inst, y.data)
  {
    if Fetches(y.pipe, DataAnswer(y).1) && !InstAnswer(y, DataAnswer(y).1).1 {
      C.MissThenHit(y.inst, y.pipe.pc as nat);
    }
  }

  lemma CycleKeepsValid<Mem>(isa: Isa<Mem>, y: System<Mem>)
    requires Valid(y)
    ensures Valid(Cycle(isa, y))
  {
    var dataHit, instHit := DataAnswer(y).1, InstAnswer(y, DataAnswer(y).1).1;
    TickFollows(isa, y.pipe, dataHit, instHit);
    StallsStayOk(y, instHit, Tick(isa, y.pipe, dataHit, instHit));
  }

  /** A cycle that retires nothing brings the oldest instruction nearer to retirement. */
  lemma RankFalls<Mem>(isa: Isa<Mem>, y: System<Mem>)
    requires Valid(y) && y.pipe.wbOp.None?
    ensures var z := Cycle(isa, y);
            Rank(z.pipe, z.inst, z.data) < Rank(y.pipe, y.inst, y.data)
  {
    var dataHit, instHit := DataAnswer(y).1, InstAnswer(y, DataAnswer(y).1).1;
    var t := Tick(isa, y.pipe, dataHit, instHit);
    TickFollows(isa, y.pipe, dataHit, instHit);
    if y.pipe.memOp.Some? {
      RankFallsInMem(y, instHit, t, InstAnswer(y, dataHit).0);
    } else if y.pipe.executeOp.Some? || y.pipe.decodeOp.Some? {
      RankFallsInExecute(y, instHit, t, InstAnswer(y, dataHit).0);
    } else {
      RankFallsInFetch(y, t);
    }
  }

  lemma CycleCounts<Mem>(isa: Isa<Mem>, y: System<Mem>)
    requires Valid(y)
    ensures Cycle(isa, y).pipe.retired == y.pipe.retired + Occupied(y.pipe.wbOp)
    ensures Cycle(isa, y).pipe.running == (y.pipe.running && !Exits(y.pipe))
  {
    TickCounts(isa, y.pipe, DataAnswer(y).1, InstAnswer(y, DataAnswer(y).1).1);
  }

  // ---- whole simulations ----

  /** `sim(n)` is the state after `n` cycles of the main loop, which stops when the run bit is clear. */
  ghost predicate IsSimulation<Mem>(isa: Isa<Mem>, sim: nat -> System<Mem>) {
    && (forall n: nat :: CachesOk(sim(n)))
    && (forall n: nat, m: nat :: m == n + 1 ==>
          sim(m) == if sim(n).pipe.running then Cycle(isa, sim(n)) else sim(n))
    && Valid(sim(0))
  }

  lemma {:induction false} SimulationStaysValid<Mem>(isa: Isa<Mem>, sim: nat -> System<Mem>, n: nat)
    requires IsSimulation(isa, sim)
    ensures Valid(sim(n))
  {
    if n > 0 {
      SimulationStaysValid(isa, sim, n - 1);
      if sim(n - 1).pipe.running {
        CycleKeepsValid(isa, sim(n - 1));
      }
    }
  }

  function RankOf<Mem>(y: System<Mem>): nat
    requires CachesOk(y)
  {
    Rank(y.pipe, y.inst, y.data)
  }

  /** What one cycle does to the two numbers that progress is about. */
  lemma CycleProgress<Mem>(isa: Isa<Mem>, y: System<Mem>, z: System<Mem>)
    requires Valid(y) && y.pipe.running && z == Cycle(isa, y)
    ensures Valid(z)
    ensures y.pipe.wbOp.Some? ==> z.pipe.retired == y.pipe.retired + 1
    ensures y.pipe.wbOp.None? ==> z.pipe.running && z.pipe.retired == y.pipe.retired && RankOf(z) < RankOf(y)
  {
    CycleKeepsValid(isa, y);
    CycleCounts(isa, y);
    if y.pipe.wbOp.None? {
      RankFalls(isa, y);
    }
  }

  /** Progress: from every running state one more instruction retires within 182 cycles. */
  lemma {:induction false} RetiresWithin<Mem>(isa: Isa<Mem>, sim: nat -> System<Mem>, n: nat) returns (m: nat)
    requires IsSimulation(isa, sim) && sim(n).pipe.running
    ensures n < m <= n + RankOf(sim(n)) + 1 <= n + 182
    ensures sim(m).pipe.retired == sim(n).pipe.retired + 1
    decreases RankOf(sim(n))
  {
    SimulationStaysValid(isa, sim, n);
    RankIsBounded(sim(n));
    m := n + 1;
    CycleProgress(isa, sim(n), sim(m));
    if sim(n).pipe.wbOp.None? {
      m := RetiresWithin(isa, sim, m);
    }
  }

  /** A running pipeline that tracks the sequential run goes on tracking it until it stops. */
  lemma {:induction false} SimulationTracks<Mem>(isa: Isa<Mem>, run: nat -> Arch<Mem>, sim: nat -> System<Mem>, n: nat)
    requires IsSimulation(isa, sim) && Tracks(isa, run, sim(0).pipe)
    ensures if sim(n).pipe.running then Tracks(isa, run, sim(n).pipe) else Stopped(isa, run, sim(n).pipe)
    decreases n
  {
    if n > 0 {
      SimulationTracks(isa, run, sim, n - 1);
      CycleTracks(isa, run, sim(n - 1), sim(n));
    }
  }

  lemma CycleTracks<Mem>(isa: Isa<Mem>, run: nat -> Arch<Mem>, y: System<Mem>, z: System<Mem>)
    requires CachesOk(y) && z == if y.pipe.running then Cycle(isa, y) else y
    requires if y.pipe.running then Tracks(isa, run, y.pipe) else Stopped(isa, run, y.pipe)
    ensures if z.pipe.running then Tracks(isa, run, z.pipe) else Stopped(isa, run, z.pipe)
  {
    if y.pipe.running {
      TickTracks(isa, run, y.pipe, DataAnswer(y).1, InstAnswer(y, DataAnswer(y).1).1);
    }
  }

  /** The next instruction retires in time, and the simulation stops with instruction `k` and only then. */
  lemma RetiresOnTrack<Mem>(isa: Isa<Mem>, run: nat -> Arch<Mem>, sim: nat -> System<Mem>, n: nat, k: nat)
      returns (m: nat)
    requires IsSimulation(isa, sim) && Tracks(isa, run, sim(0).pipe)
    requires ExitsAt(isa, run, k) && NoExitBefore(isa, run, k)
    requires sim(n).pipe.running && sim(n).pipe.retired <= k
    ensures n < m <= n + 182 && sim(m).pipe.retired == sim(n).pipe.retired + 1
    ensures if sim(m).pipe.running then sim(m).pipe.retired <= k else sim(m).pipe.retired == k + 1
  {
    m := RetiresWithin(isa, sim, n);
    SimulationTracks(isa, run, sim, m);
    TrackAgainstExit(isa, run, sim(m).pipe, k);
  }

  lemma TrackAgainstExit<Mem>(isa: Isa<Mem>, run: nat -> Arch<Mem>, s: State<Mem>, k: nat)
    requires if s.running then Tracks(isa, run, s) else Stopped(isa, run, s)
    requires ExitsAt(isa, run, k) && NoExitBefore(isa, run, k)
    ensures if s.running then s.retired <= k else s.retired == k + 1
  {
    if !s.running {
      FirstExitIsUnique(isa, run, s.retired - 1, k);
    }
  }

  /** If instruction `k` of the sequential run is its first exit call, the simulation has stopped
      after 182 cycles for every instruction left. */
  lemma {:induction false} StopsAtExit<Mem>(isa: Isa<Mem>, run: nat -> Arch<Mem>, sim: nat -> System<Mem>, n: nat,
                                            k: nat)
      returns (m: nat)
    requires IsSimulation(isa, sim) && Tracks(isa, run, sim(0).pipe)
    requires ExitsAt(isa, run, k) && NoExitBefore(isa, run, k)
    requires sim(n).pipe.running && sim(n).pipe.retired <= k
    ensures n <= m <= n + 182 * (k + 1 - sim(n).pipe.retired)
    ensures !sim(m).pipe.running && sim(m).pipe.retired == k + 1
    decreases k - sim(n).pipe.retired
  {
    m := RetiresOnTrack(isa, run, sim, n, k);
    if sim(m).pipe.running {
      m := StopsAtExit(isa, run, sim, m, k);
    }
  }

  /** The main loop ends exactly when the sequential run has an exit call, and then the registers are
      those after the first one, for all sizes and policies of the caches. */
  lemma SimulationEndsIffRunExits<Mem>(isa: Isa<Mem>, run: nat -> Arch<Mem>, sim: nat -> System<Mem>)
    requires IsRun(isa, run) && IsSimulation(isa, sim) && sim(0).pipe == Reset(run)
    ensures (exists n: nat :: !sim(n).pipe.running) <==> (exists k: nat :: ExitsAt(isa, run, k))
    ensures forall n: nat :: !sim(n).pipe.running ==>
              var retired := sim(n).pipe.retired;
              && retired > 0 && ExitsAt(isa, run, retired - 1) && NoExitBefore(isa, run, retired - 1)
              && sim(n).pipe.regs == run(retired).regs
  {
    ResetTracks(isa, run);
    forall n: nat
      ensures !sim(n).pipe.running ==> Stopped(isa, run, sim(n).pipe)
    {
      SimulationTracks(isa, run, sim, n);
    }
    if k: nat :| ExitsAt(isa, run, k) {
      var first := FirstExit(isa, run, k);
      var n := StopsAtExit(isa, run, sim, 0, first);
    }
  }

  lemma FirstExit<Mem>(isa: Isa<Mem>, run: nat -> Arch<Mem>, k: nat) returns (first: nat)
    requires IsRun(isa, run) && ExitsAt(isa, run, k)
    ensures first <= k && ExitsAt(isa, run, first) && NoExitBefore(isa, run, first)
  {
    first := 0;
    while !ExitsAt(isa, run, first)
      invariant first <= k && NoExitBefore(isa, run, first)
      decreases k - first
    {
      first := first + 1;
    }
  }
}
