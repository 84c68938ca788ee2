/**
 Whole runs of the pipeline against the numbered instructions of the sequential run: the registers
 at the exit call do not depend on the caches.
 */
module PipelineRuns {
  import opened Common
  import opened MipsOps
  import opened Pipeline
  import opened PipelineRefinement
  import Seq = Sequential

  function Occupied<T>(slot: Option<T>): nat {
    if slot.Some? then 1 else 0
  }

  /** The number of the instruction that the execute stage takes next. */
  function Executing<Mem>(s: State<Mem>): nat {
    s.retired + Occupied(s.wbOp) + Occupied(s.memOp)
  }

  /** `run(n)` is the sequential machine's state after `n` instructions. */
  ghost predicate IsRun<Mem>(isa: Isa<Mem>, run: nat -> Arch<Mem>) {
    && (forall n: nat :: Seq.WellFormed(run(n)))
    && (forall n: nat, m: nat :: m == n + 1 ==> run(m) == Seq.Step(isa, run(n)))
  }

  ghost predicate ExitsAt<Mem>(isa: Isa<Mem>, run: nat -> Arch<Mem>, n: nat)
    requires IsRun(isa, run)
  {
    IsExit(Seq.CompletedOp(isa, run(n)).0)
  }

  ghost predicate NoExitBefore<Mem>(isa: Isa<Mem>, run: nat -> Arch<Mem>, n: nat)
    requires IsRun(isa, run)
  {
    forall i: nat | i < n :: !ExitsAt(isa, run, i)
  }

  /** The points of a pipeline that carries out `run`. */
  ghost function PointsOf<Mem>(run: nat -> Arch<Mem>, s: State<Mem>): (p: Points<Mem>) {
    Points(run(s.retired), run(s.retired + Occupied(s.wbOp)), run(Executing(s)))
  }

  /** The state of a running pipeline between two cycles. */
  ghost predicate Tracks<Mem>(isa: Isa<Mem>, run: nat -> Arch<Mem>, s: State<Mem>) {
    && IsRun(isa, run)
    && s.running
    && Link(isa, PointsOf(run, s), s)
    && NoExitBefore(isa, run, s.retired)
  }

  /** The state that the simulator stops in: the last retired instruction is the first exit call. */
  ghost predicate Stopped<Mem>(isa: Isa<Mem>, run: nat -> Arch<Mem>, s: State<Mem>) {
    && IsRun(isa, run)
    && !s.running
    && LinkBackEnd(isa, PointsOf(run, s), s)
    && s.retired > 0
    && ExitsAt(isa, run, s.retired - 1)
    && NoExitBefore(isa, run, s.retired - 1)
  }

  /** `t` numbers its instructions one cycle later than `s`. */
  ghost predicate CountsFollow<Mem>(s: State<Mem>, dataHit: bool, t: State<Mem>) {
    && t.retired == s.retired + Occupied(s.wbOp)
    && t.retired + Occupied(t.wbOp) == (if MemFires(s, dataHit) then Executing(s) else t.retired)
    && Executing(t) == Executing(s) + if ExecuteFires(s, dataHit) then 1 else 0
  }

  lemma TickCounts<Mem>(isa: Isa<Mem>, s: State<Mem>, dataHit: bool, instHit: bool)
    requires WellFormed(s)
    ensures CountsFollow(s, dataHit, Tick(isa, s, dataHit, instHit))
    ensures Tick(isa, s, dataHit, instHit).running == (s.running && !Exits(s))
  {
  }

  /** The points of the stages move along the sequential run. */
  lemma PointsAdvance<Mem>(isa: Isa<Mem>, run: nat -> Arch<Mem>, s: State<Mem>, dataHit: bool, t: State<Mem>)
    requires IsRun(isa, run) && CountsFollow(s, dataHit, t)
    ensures PointsOf(run, t) == Advance(isa, PointsOf(run, s), s, dataHit)
  {
  }

  lemma TracksOn<Mem>(isa: Isa<Mem>, run: nat -> Arch<Mem>, s: State<Mem>, dataHit: bool, t: State<Mem>)
    requires Tracks(isa, run, s) && CountsFollow(s, dataHit, t)
    requires LinkBackEnd(isa, PointsOf(run, t), t)
    requires !Exits(s) ==> Link(isa, PointsOf(run, t), t)
    requires t.running == !Exits(s)
    ensures if t.running then Tracks(isa, run, t) else Stopped(isa, run, t)
    ensures Exits(s) == (s.wbOp.Some? && ExitsAt(isa, run, s.retired))
  {
  }

  /** Every cycle of a running pipeline, for every answer of the two caches: the instructions in
      flight stay those of the sequential run, and the run stops exactly at the first exit call. */
  lemma TickTracks<Mem>(isa: Isa<Mem>, run: nat -> Arch<Mem>, s: State<Mem>, dataHit: bool, instHit: bool)
    requires Tracks(isa, run, s)
    ensures var t := Tick(isa, s, dataHit, instHit);
            && t.running == !(s.wbOp.Some? && ExitsAt(isa, run, s.retired))
            && if t.running then Tracks(isa, run, t) else Stopped(isa, run, t)
  {
    var t := Tick(isa, s, dataHit, instHit);
    TickCounts(isa, s, dataHit, instHit);
    PointsAdvance(isa, run, s, dataHit, t);
    TickLinks(isa, PointsOf(run, s), s, dataHit, instHit);
    TracksOn(isa, run, s, dataHit, t);
  }

  /** The simulator's main loop under given cache answers, one pair for each cycle. */
  function Go<Mem>(isa: Isa<Mem>, s: State<Mem>, hits: seq<(bool, bool)>): (t: State<Mem>)
    requires WellFormed(s)
    ensures WellFormed(t)
    decreases |hits|
  {
    if hits == [] || !s.running then s else Go(isa, Tick(isa, s, hits[0].0, hits[0].1), hits[1..])
  }

  lemma {:induction false} GoTracks<Mem>(isa: Isa<Mem>, run: nat -> Arch<Mem>, s: State<Mem>, hits: seq<(bool, bool)>)
    requires Tracks(isa, run, s)
    ensures var t := Go(isa, s, hits); if t.running then Tracks(isa, run, t) else Stopped(isa, run, t)
    decreases |hits|
  {
    if hits != [] {
      TickTracks(isa, run, s, hits[0].0, hits[0].1);
      var t := Tick(isa, s, hits[0].0, hits[0].1);
      if t.running {
        GoTracks(isa, run, t, hits[1..]);
      }
    }
  }

  /** The sequential machine has a run from every state ... */
  lemma RunFrom<Mem>(isa: Isa<Mem>, a: Arch<Mem>) returns (run: nat -> Arch<Mem>)
    requires Seq.WellFormed(a)
    ensures IsRun(isa, run) && run(0) == a
  {
    run := (n: nat) => if Seq.WellFormed(a) then Seq.Run(isa, a, n) else a;
  }

  /** ... and only one. */
  lemma {:induction false} RunsAgree<Mem>(isa: Isa<Mem>, run: nat -> Arch<Mem>, other: nat -> Arch<Mem>, n: nat)
    requires IsRun(isa, run) && IsRun(isa, other) && run(0) == other(0)
    ensures run(n) == other(n)
  {
    if n > 0 {
      RunsAgree(isa, run, other, n - 1);
    }
  }

  /** The pipeline as initialised in the first state of `run`. */
  function Reset<Mem>(run: nat -> Arch<Mem>): State<Mem> {
    Initial(run(0).pc, run(0).regs, run(0).hi, run(0).lo, run(0).mem)
  }

  lemma ResetTracks<Mem>(isa: Isa<Mem>, run: nat -> Arch<Mem>)
    requires IsRun(isa, run)
    ensures Tracks(isa, run, Reset(run))
  {
  }

  /** What a finished simulation leaves, whatever the caches answered.  The registers are those after
      the first exit call.  Memory and HI/LO may already show instructions behind it: as many as the
      write-back slot, respectively the write-back and memory slots, still hold. */
  lemma FinishedRun<Mem>(isa: Isa<Mem>, run: nat -> Arch<Mem>, hits: seq<(bool, bool)>)
    requires IsRun(isa, run) && !Go(isa, Reset(run), hits).running
    ensures
      var t := Go(isa, Reset(run), hits);
      && t.retired > 0 && ExitsAt(isa, run, t.retired - 1) && NoExitBefore(isa, run, t.retired - 1)
      && t.regs == run(t.retired).regs
      && t.mem == run(t.retired + Occupied(t.wbOp)).mem
      && t.hi == run(Executing(t)).hi && t.lo == run(Executing(t)).lo
  {
    ResetTracks(isa, run);
    GoTracks(isa, run, Reset(run), hits);
  }

  lemma FirstExitIsUnique<Mem>(isa: Isa<Mem>, run: nat -> Arch<Mem>, m: nat, n: nat)
    requires IsRun(isa, run)
    requires ExitsAt(isa, run, m) && NoExitBefore(isa, run, m)
    requires ExitsAt(isa, run, n) && NoExitBefore(isa, run, n)
    ensures m == n
  {
  }

  /** The caches decide when a simulation ends, never with which registers. */
  lemma RegistersAreCacheIndependent<Mem>(isa: Isa<Mem>, run: nat -> Arch<Mem>,
                                          hits1: seq<(bool, bool)>, hits2: seq<(bool, bool)>)
    requires IsRun(isa, run)
    requires !Go(isa, Reset(run), hits1).running && !Go(isa, Reset(run), hits2).running
    ensures Go(isa, Reset(run), hits1).regs == Go(isa, Reset(run), hits2).regs
    ensures Go(isa, Reset(run), hits1).retired == Go(isa, Reset(run), hits2).retired
  {
    FinishedRun(isa, run, hits1);
    FinishedRun(isa, run, hits2);
    FirstExitIsUnique(isa, run, Go(isa, Reset(run), hits1).retired - 1, Go(isa, Reset(run), hits2).retired - 1);
  }
}
