/**
 The pipeline results for the MIPS instruction set: a program text and an initial memory have one
 sequential run, and the pipeline follows it.
 */
module MipsRuns {
  import Seq = Sequential
  import opened MipsOps
  import opened Mips32
  import opened Pipeline
  import opened PipelineRuns
  import opened PipelineProgress
  import I = MipsInstructions
  import S = MipsSteps

  const TEXT_START: Word := 0x0040_0000

  /** The machine before its first instruction. */
  function Start(memory: Memory): (a: Seq.Arch<Memory>)
    ensures Seq.WellFormed(a)
  {
    Seq.Arch(TEXT_START, seq(32, _ => 0), 0, 0, memory)
  }

  /** `run` is what the program in `text` does, one instruction at a time. */
  ghost predicate IsProgramRun(text: Memory, memory: Memory, run: nat -> Seq.Arch<Memory>) {
    IsRun(Isa32(text), run) && run(0) == Start(memory)
  }

  /** Instruction number `n` of the program is an exit call, and none before it is. */
  ghost predicate ExitsFirstAt(text: Memory, memory: Memory, run: nat -> Seq.Arch<Memory>, n: nat)
    requires IsProgramRun(text, memory, run)
  {
    ExitsAt(Isa32(text), run, n) && NoExitBefore(Isa32(text), run, n)
  }

  /** The pipeline before its first cycle. */
  function PipeStart(memory: Memory): (s: State<Memory>)
    ensures Pipeline.WellFormed(s)
  {
    Initial(TEXT_START, seq(32, _ => 0), 0, 0, memory)
  }

  /** A program has one run. */
  lemma ProgramHasRun(text: Memory, memory: Memory) returns (run: nat -> Seq.Arch<Memory>)
    ensures IsProgramRun(text, memory, run)
    ensures forall other: nat -> Seq.Arch<Memory>, n: nat :: IsProgramRun(text, memory, other) ==> other(n) == run(n)
  {
    run := RunFrom(Isa32(text), Start(memory));
    forall other: nat -> Seq.Arch<Memory>, n: nat | IsProgramRun(text, memory, other)
      ensures other(n) == run(n)
    {
      RunsAgree(Isa32(text), run, other, n);
    }
  }

  /** In it every instruction does what it means. */
  lemma ProgramMeans(text: Memory, memory: Memory, run: nat -> Seq.Arch<Memory>, n: nat, i: I.Instruction)
    requires IsProgramRun(text, memory, run) && I.IsInstruction(i)
    requires Read32(text, run(n).pc) == S.WordOf(i)
    ensures I.Means(i, run(n), run(n + 1))
  {
    S.StepMeans(text, run(n), i);
  }

  /** However the caches answer, a program that has stopped has the registers that its instructions up
      to and including the first exit call leave when they are carried out one at a time. */
  lemma ProgramRegisters(text: Memory, memory: Memory, run: nat -> Seq.Arch<Memory>, hits: seq<(bool, bool)>)
    requires IsProgramRun(text, memory, run) && !Go(Isa32(text), PipeStart(memory), hits).running
    ensures
      var t := Go(Isa32(text), PipeStart(memory), hits);
      t.retired > 0 && ExitsFirstAt(text, memory, run, t.retired - 1) && t.regs == run(t.retired).regs
  {
    FinishedRun(Isa32(text), run, hits);
  }

  /** Two simulations of a program that stop agree, whatever their caches. */
  lemma ProgramIsCacheIndependent(text: Memory, memory: Memory, hits1: seq<(bool, bool)>, hits2: seq<(bool, bool)>)
    requires !Go(Isa32(text), PipeStart(memory), hits1).running && !Go(Isa32(text), PipeStart(memory), hits2).running
    ensures
      var t1, t2 := Go(Isa32(text), PipeStart(memory), hits1), Go(Isa32(text), PipeStart(memory), hits2);
      t1.regs == t2.regs && t1.retired == t2.retired
  {
    var run := ProgramHasRun(text, memory);
    RegistersAreCacheIndependent(Isa32(text), run, hits1, hits2);
  }

  /** With its caches the simulator stops on a program exactly when the program makes an exit call. */
  lemma ProgramEndsIffItExits(text: Memory, memory: Memory, run: nat -> Seq.Arch<Memory>, sim: nat -> System<Memory>)
    requires IsProgramRun(text, memory, run) && IsSimulation(Isa32(text), sim) && sim(0).pipe == PipeStart(memory)
    ensures (exists n: nat :: !sim(n).pipe.running) <==> (exists k: nat :: ExitsAt(Isa32(text), run, k))
    ensures forall n: nat :: !sim(n).pipe.running ==>
              var retired := sim(n).pipe.retired;
              && retired > 0 && ExitsFirstAt(text, memory, run, retired - 1)
              && sim(n).pipe.regs == run(retired).regs
  {
    SimulationEndsIffRunExits(Isa32(text), run, sim);
  }
}
