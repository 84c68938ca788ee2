/**
 The pipeline operation record and what the stages need to know of an instruction set.

 An `Isa` value collects the four pure parts of an instruction's life: fetching its word, decoding
 it, computing its result, and accessing data memory.  The pipeline and the one-instruction-at-a-time
 machine share them; `Mips32.dfy` gives the concrete ones.
 */
module MipsOps {
  newtype Word = x: int | 0 <= x < 0x1_0000_0000
  type RegId = r: int | -1 <= r < 32
  type Latency = n: nat | n <= 32

  /** The address of the following instruction; it wraps around at 2^32. */
  function Following(pc: Word): Word {
    if pc < 0xFFFF_FFFC then pc + 4 else pc - 0xFFFF_FFFC
  }

  const OP_SPECIAL: Word := 0x00
  const SUBOP_SYSCALL: Word := 0x0c
  const SUBOP_MFHI: Word := 0x10
  const SUBOP_MTHI: Word := 0x11
  const SUBOP_MFLO: Word := 0x12
  const SUBOP_MTLO: Word := 0x13

  /** One instruction in flight; -1 in a register field means that the register is not used. */
  datatype Op = Op(
    pc: Word, instruction: Word,
    opcode: Word, subop: Word, imm16: Word, seImm16: Word, shamt: Word,
    src1: RegId, src2: RegId, value1: Word, value2: Word,
    isMem: bool, memAddr: Word, memValue: Word,
    dst: RegId, dstValue: Word,
    branchDest: Word, branchTaken: bool)

  /** The outcome of the execute stage; a latency above zero restarts the multiplier's countdown. */
  datatype Executed = Executed(op: Op, hi: Word, lo: Word, latency: Latency)

  datatype Isa<!Mem> = Isa(
    fetch: Word -> Word,
    decode: Op -> Op,
    execute: (Op, Word, Word) -> Executed,
    access: (Op, Mem) -> (Op, Mem))

  function Fetch<Mem>(isa: Isa<Mem>, pc: Word): Word {
    isa.fetch(pc)
  }

  function Decode<Mem>(isa: Isa<Mem>, op: Op): Op {
    isa.decode(op)
  }

  function Execute<Mem>(isa: Isa<Mem>, op: Op, hi: Word, lo: Word): Executed {
    isa.execute(op, hi, lo)
  }

  function Access<Mem>(isa: Isa<Mem>, op: Op, mem: Mem): (Op, Mem) {
    isa.access(op, mem)
  }

  /** A zeroed operation whose register fields are unused, as the fetch stage allocates it. */
  function RawOp(pc: Word, instruction: Word): Op {
    Op(pc, instruction, 0, 0, 0, 0, 0, -1, -1, 0, 0, false, 0, 0, -1, 0, 0, false)
  }

  /** The operations that must find the multiplier idle: they read or overwrite HI or LO. */
  predicate WaitsForMultiplier(op: Op) {
    op.opcode == OP_SPECIAL && op.subop in {SUBOP_MFHI, SUBOP_MTHI, SUBOP_MFLO, SUBOP_MTLO}
  }

  /** The system call that ends the simulation: v0 holds 10. */
  predicate IsExit(op: Op) {
    op.opcode == OP_SPECIAL && op.subop == SUBOP_SYSCALL && op.value1 == 0xA
  }

  predicate IsRegisterFile(regs: seq<Word>) {
    |regs| == 32
  }

  function ReadReg(regs: seq<Word>, r: RegId, unused: Word): Word
    requires IsRegisterFile(regs)
  {
    if r == -1 then unused else if r == 0 then 0 else regs[r]
  }

  /** `op` with its operands taken from a register file. */
  function WithOperands(op: Op, regs: seq<Word>): Op
    requires IsRegisterFile(regs)
  {
    op.(value1 := ReadReg(regs, op.src1, op.value1), value2 := ReadReg(regs, op.src2, op.value2))
  }

  function WriteBack(regs: seq<Word>, op: Op): (after: seq<Word>)
    requires IsRegisterFile(regs)
    ensures IsRegisterFile(after)
  {
    if op.dst != -1 && op.dst != 0 then regs[op.dst := op.dstValue] else regs
  }
}
