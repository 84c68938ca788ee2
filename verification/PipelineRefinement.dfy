/**
 The pipeline implements the sequential machine.  Each slot of the pipeline is linked to a state of
 the sequential machine, its point; every cycle keeps the links, whatever the caches answer.
 */
module PipelineRefinement {
  import opened Common
  import opened MipsOps
  import opened Pipeline
  import Seq = Sequential

  type Arch<Mem> = Seq.Arch<Mem>

  /** The sequential states at which the write-back, memory and execute stages stand. */
  datatype Points<Mem> = Points(wb: Arch<Mem>, mem: Arch<Mem>, exec: Arch<Mem>)

  ghost predicate WellFormedPoints<Mem>(p: Points<Mem>) {
    Seq.WellFormed(p.wb) && Seq.WellFormed(p.mem) && Seq.WellFormed(p.exec)
  }

  ghost predicate LinkWb<Mem>(isa: Isa<Mem>, p: Points<Mem>, regs: seq<Word>, wbOp: Option<Op>)
    requires WellFormedPoints(p)
  {
    && regs == p.wb.regs
    && (wbOp.Some? ==> wbOp.value == Seq.CompletedOp(isa, p.wb).0)
    && p.mem == if wbOp.Some? then Seq.Step(isa, p.wb) else p.wb
  }

  ghost predicate LinkMem<Mem>(isa: Isa<Mem>, p: Points<Mem>, mem: Mem, memOp: Option<Op>)
    requires WellFormedPoints(p)
  {
    && mem == p.mem.mem
    && (memOp.Some? ==> memOp.value == Seq.ExecutedOp(isa, p.mem).op)
    && p.exec == if memOp.Some? then Seq.Step(isa, p.mem) else p.mem
  }

  /** `x` is `y` but for operand fields that the execute stage is going to overwrite. */
  predicate SameBeforeOperands(x: Op, y: Op) {
    && x.(value1 := y.value1, value2 := y.value2) == y
    && (y.src1 == -1 ==> x.value1 == y.value1)
    && (y.src2 == -1 ==> x.value2 == y.value2)
  }

  ghost predicate LinkExecute<Mem>(isa: Isa<Mem>, p: Points<Mem>, hi: Word, lo: Word, executeOp: Option<Op>) {
    && hi == p.exec.hi
    && lo == p.exec.lo
    && (executeOp.Some? ==> SameBeforeOperands(executeOp.value, Seq.DecodedOp(isa, p.exec)))
  }

  /** The undecoded operation and the fetch pc follow the execute slot in sequence. */
  ghost predicate LinkFetch<Mem>(isa: Isa<Mem>, p: Points<Mem>, executing: bool, decodeOp: Option<Op>, pc: Word) {
    var next := if executing then Following(p.exec.pc) else p.exec.pc;
    && (decodeOp.Some? ==> decodeOp.value == RawOp(next, Fetch(isa, next)))
    && pc == if decodeOp.Some? then Following(next) else next
  }

  ghost predicate LinkBackEnd<Mem>(isa: Isa<Mem>, p: Points<Mem>, s: State<Mem>) {
    && WellFormed(s)
    && WellFormedPoints(p)
    && LinkWb(isa, p, s.regs, s.wbOp)
    && LinkMem(isa, p, s.mem, s.memOp)
    && LinkExecute(isa, p, s.hi, s.lo, s.executeOp)
  }

  ghost predicate Link<Mem>(isa: Isa<Mem>, p: Points<Mem>, s: State<Mem>) {
    && LinkBackEnd(isa, p, s)
    && LinkFetch(isa, p, s.executeOp.Some?, s.decodeOp, s.pc)
  }

  /** Where the stages stand after a cycle: the execute point makes one step or none. */
  ghost function Advance<Mem>(isa: Isa<Mem>, p: Points<Mem>, s: State<Mem>, dataHit: bool): (q: Points<Mem>)
    requires WellFormedPoints(p)
    ensures WellFormedPoints(q)
  {
    Points(p.mem,
           if MemFires(s, dataHit) then p.exec else p.mem,
           if ExecuteFires(s, dataHit) then Seq.Step(isa, p.exec) else p.exec)
  }

  lemma OperandsAgree(x: Op, y: Op, regs: seq<Word>)
    requires SameBeforeOperands(x, y) && IsRegisterFile(regs)
    ensures WithOperands(x, regs) == WithOperands(y, regs)
    ensures SameBeforeOperands(WithOperands(x, regs), y)
  {
  }

  /** Write-back presents the registers of the memory stage's point. */
  lemma WbIsSequential<Mem>(isa: Isa<Mem>, p: Points<Mem>, s: State<Mem>)
    requires LinkBackEnd(isa, p, s)
    ensures RegsAfterWb(s) == p.mem.regs
  {
  }

  /** ... and with the bypass, those of the execute stage's point. */
  lemma MemIsSequential<Mem>(isa: Isa<Mem>, p: Points<Mem>, s: State<Mem>, dataHit: bool)
    requires LinkBackEnd(isa, p, s)
    requires MemFires(s, dataHit) || s.memOp.None?
    ensures Forwarded(RegsAfterWb(s), NextWb(isa, s, dataHit)) == p.exec.regs
    ensures NextMem(isa, s, dataHit) == p.exec.mem
    ensures MemFires(s, dataHit) ==> NextWb(isa, s, dataHit).value == Seq.CompletedOp(isa, p.mem).0
  {
    WbIsSequential(isa, p, s);
  }

  /** Hence the execute stage computes what the sequential machine computes. */
  lemma ExecuteIsSequential<Mem>(isa: Isa<Mem>, p: Points<Mem>, s: State<Mem>, dataHit: bool)
    requires LinkBackEnd(isa, p, s) && ExecuteReached(s, dataHit)
    ensures AfterExecute(isa, s, dataHit) == Seq.ExecutedOp(isa, p.exec)
    ensures SameBeforeOperands(WithBypass(isa, s, dataHit), Seq.DecodedOp(isa, p.exec))
  {
    MemIsSequential(isa, p, s, dataHit);
    OperandsAgree(s.executeOp.value, Seq.DecodedOp(isa, p.exec), p.exec.regs);
  }

  lemma TickLinksWb<Mem>(isa: Isa<Mem>, p: Points<Mem>, s: State<Mem>, dataHit: bool)
    requires LinkBackEnd(isa, p, s)
    ensures LinkWb(isa, Advance(isa, p, s, dataHit), RegsAfterWb(s), NextWb(isa, s, dataHit))
  {
    WbIsSequential(isa, p, s);
    if MemFires(s, dataHit) {
      MemIsSequential(isa, p, s, dataHit);
    }
  }

  lemma TickLinksMem<Mem>(isa: Isa<Mem>, p: Points<Mem>, s: State<Mem>, dataHit: bool)
    requires LinkBackEnd(isa, p, s)
    ensures LinkMem(isa, Advance(isa, p, s, dataHit), NextMem(isa, s, dataHit), NextMemOp(isa, s, dataHit))
  {
    if MemFires(s, dataHit) || s.memOp.None? {
      MemIsSequential(isa, p, s, dataHit);
    }
    if ExecuteReached(s, dataHit) {
      ExecuteIsSequential(isa, p, s, dataHit);
    }
  }

  lemma TickLinksExecute<Mem>(isa: Isa<Mem>, p: Points<Mem>, s: State<Mem>, dataHit: bool)
    requires Link(isa, p, s)
    ensures
      var outcome := ExecuteOutcome(isa, s, dataHit);
      LinkExecute(isa, Advance(isa, p, s, dataHit), outcome.hi, outcome.lo,
                  if Recovers(isa, s, dataHit) then None else NextExecuteOp(isa, s, dataHit))
  {
    if ExecuteReached(s, dataHit) {
      ExecuteIsSequential(isa, p, s, dataHit);
    }
  }

  /** A taken branch restarts fetching at the point's new pc; otherwise fetching goes on in sequence. */
  lemma TickLinksFetch<Mem>(isa: Isa<Mem>, p: Points<Mem>, s: State<Mem>, dataHit: bool, instHit: bool)
    requires Link(isa, p, s) && s.running && !Exits(s)
    ensures
      var q := Advance(isa, p, s, dataHit);
      if Recovers(isa, s, dataHit) then
        LinkFetch(isa, q, false, None, ExecuteOutcome(isa, s, dataHit).op.branchDest)
      else
        LinkFetch(isa, q, NextExecuteOp(isa, s, dataHit).Some?,
                  NextDecodeOp(isa, s, dataHit, instHit), NextFetchPc(s, dataHit, instHit))
  {
    if ExecuteReached(s, dataHit) {
      ExecuteIsSequential(isa, p, s, dataHit);
    }
  }

  /** One cycle of a running pipeline, for every answer of the two caches.  When the cycle retires an
      exit call the pc is not claimed: the call and a recovery may both overwrite it. */
  lemma TickLinks<Mem>(isa: Isa<Mem>, p: Points<Mem>, s: State<Mem>, dataHit: bool, instHit: bool)
    requires Link(isa, p, s) && s.running
    ensures LinkBackEnd(isa, Advance(isa, p, s, dataHit), Tick(isa, s, dataHit, instHit))
    ensures !Exits(s) ==> Link(isa, Advance(isa, p, s, dataHit), Tick(isa, s, dataHit, instHit))
  {
    TickLinksWb(isa, p, s, dataHit);
    TickLinksMem(isa, p, s, dataHit);
    TickLinksExecute(isa, p, s, dataHit);
    if !Exits(s) {
      TickLinksFetch(isa, p, s, dataHit, instHit);
    }
  }
}
