/**
 The reference machine: one operation at a time runs through decode, execute, memory and write-back
 before the next one is fetched.  It has no pipeline, no caches and no stalls.
 */
module Sequential {
  import opened MipsOps

  datatype Arch<Mem> = Arch(pc: Word, regs: seq<Word>, hi: Word, lo: Word, mem: Mem)

  ghost predicate WellFormed<Mem>(a: Arch<Mem>) {
    IsRegisterFile(a.regs)
  }

  /** The operation at the machine's pc, decoded. */
  function DecodedOp<Mem>(isa: Isa<Mem>, a: Arch<Mem>): Op {
    Decode(isa, RawOp(a.pc, Fetch(isa, a.pc)))
  }

  /** ... after the execute stage ... */
  function ExecutedOp<Mem>(isa: Isa<Mem>, a: Arch<Mem>): Executed
    requires WellFormed(a)
  {
    Execute(isa, WithOperands(DecodedOp(isa, a), a.regs), a.hi, a.lo)
  }

  /** ... and after its memory access, with the memory it leaves behind. */
  function CompletedOp<Mem>(isa: Isa<Mem>, a: Arch<Mem>): (Op, Mem)
    requires WellFormed(a)
  {
    Access(isa, ExecutedOp(isa, a).op, a.mem)
  }

  function NextPc(pc: Word, op: Op): Word {
    if op.branchTaken then op.branchDest else Following(pc)
  }

  function Step<Mem>(isa: Isa<Mem>, a: Arch<Mem>): (next: Arch<Mem>)
    requires WellFormed(a)
    ensures WellFormed(next)
  {
    var executed := ExecutedOp(isa, a);
    var (op, mem) := CompletedOp(isa, a);
    Arch(NextPc(a.pc, executed.op), WriteBack(a.regs, op), executed.hi, executed.lo, mem)
  }

  /** The state after `n` instructions.  Exit system calls do not stop this machine: see ExitsAt. */
  function Run<Mem>(isa: Isa<Mem>, a: Arch<Mem>, n: nat): (after: Arch<Mem>)
    requires WellFormed(a)
    ensures WellFormed(after)
  {
    if n == 0 then a else Step(isa, Run(isa, a, n - 1))
  }

  /** Instruction number `n` of the run is an exit system call. */
  predicate ExitsAt<Mem>(isa: Isa<Mem>, a: Arch<Mem>, n: nat)
    requires WellFormed(a)
  {
    IsExit(CompletedOp(isa, Run(isa, a, n)).0)
  }
}
