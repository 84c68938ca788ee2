/**
 Decoding, execution and memory access do what the instructions mean: a step of the sequential machine at an
 encoded instruction leads to the state that its meaning describes.
 */
module MipsSteps {
  import opened Common
  import opened MipsOps
  import opened Mips32
  import opened MipsInstructions
  import opened MipsNumbers
  import opened Sequential
  import L = MipsLaws

  // ---- fields ----

  lemma TopFields(w: nat, o: nat, rs: nat, rt: nat, low: nat)
    requires rs < 32 && rt < 32 && low < 0x1_0000 && w == o * 0x400_0000 + rs * 0x20_0000 + rt * 0x1_0000 + low
    ensures w / 0x400_0000 == o && (w / 0x20_0000) % 32 == rs && (w / 0x1_0000) % 32 == rt && w % 0x1_0000 == low
  {
    assert w / 0x1_0000 == o * 1024 + rs * 32 + rt;
    assert w / 0x20_0000 == o * 32 + rs;
  }

  lemma LowFields(w: nat, o: nat, rs: nat, rt: nat, rd: nat, shamt: nat, funct: nat)
    requires rs < 32 && rt < 32 && rd < 32 && shamt < 32 && funct < 64
    requires w == o * 0x400_0000 + rs * 0x20_0000 + rt * 0x1_0000 + rd * 0x800 + shamt * 0x40 + funct
    ensures (w / 0x800) % 32 == rd && (w / 0x40) % 32 == shamt && w % 0x40 == funct
  {
    var top := o * 0x400 + rs * 0x20 + rt;
    var high := top * 32 + rd;
    LowSix(w, high * 32 + shamt, funct);
    LowFive(high * 32 + shamt, high, shamt);
    LowFive(high, top, rd);
    DividedTwice(w);
  }

  lemma LowSix(w: nat, high: nat, f: nat)
    requires f < 64 && w == high * 64 + f
    ensures w / 64 == high && w % 64 == f
  {
  }

  lemma LowFive(w: nat, high: nat, f: nat)
    requires f < 32 && w == high * 32 + f
    ensures w / 32 == high && w % 32 == f
  {
  }

  lemma DividedTwice(w: nat)
    ensures w / 0x800 == (w / 0x40) / 32
  {
  }

  lemma JumpFields(w: nat, o: nat, target: nat)
    requires target < 0x400_0000 && w == o * 0x400_0000 + target
    ensures w / 0x400_0000 == o && w % 0x400_0000 == target
  {
  }

  // ---- decoding ----

  function WordOf(i: Instruction): Word
    requires IsInstruction(i)
  {
    Encode(i) as Word
  }

  /** The immediate, extended to a word by its sign. */
  function Extended(imm: nat): Word {
    Wrap(SignedHalf(imm))
  }

  function Relative(pc: Word, imm: nat): Word {
    Wrap(pc as int + 4 + 4 * SignedHalf(imm))
  }

  /** What the decoder has to find in an instruction: the fields that execution looks at. */
  ghost predicate IsDecoded(i: Instruction, pc: Word, op: Op)
    requires IsInstruction(i)
  {
    && op.pc == pc && op.value1 == 0 && op.value2 == 0 && op.memAddr == 0 && op.memValue == 0
    && match i
       case OnRegisters(r, rs, rt, rd, shamt) =>
         && op.opcode == 0 && op.subop == Funct(r) as Word && op.shamt == shamt as Word && op.dst == rd
         && (if r.Syscall? then op.src1 == 2 && op.src2 == 3 else op.src1 == rs && op.src2 == rt)
         && op.dstValue == 0 && !op.branchTaken
       case OnImmediate(o, rs, rt, imm) =>
         && op.opcode == Opcode(o) as Word && op.imm16 == imm as Word && op.seImm16 == Extended(imm) && op.src1 == rs
         && (if IsBranch(o) || IsStore(o) then op.src2 == rt && op.dst == -1 else op.src2 == -1 && op.dst == rt)
         && (IsBranch(o) ==> op.branchDest == Relative(pc, imm)) && !op.branchTaken
       case OnZero(z, rs, imm) =>
         && op.opcode == 1 && op.subop == ZeroCode(z) as Word && op.src1 == rs
         && op.branchDest == Relative(pc, imm) && !op.branchTaken
         && (if z.Bltzal? || z.Bgezal? then op.dst == 31 && op.dstValue == Following(pc) else op.dst == -1)
       case Jump(links, target) =>
         && op.opcode == (if links then 3 else 2) && op.src1 == -1 && op.src2 == -1 && op.branchTaken
         && op.branchDest as int == (pc as int / 0x1000_0000) * 0x1000_0000 + 4 * target
         && (if links then op.dst == 31 && op.dstValue == Following(pc) else op.dst == -1)
  }

  lemma ExtendedIs(imm: nat)
    requires imm < 0x1_0000
    ensures Extended(imm) as int == if imm >= 0x8000 then imm + 0xFFFF_0000 else imm
  {
  }

  lemma RelativeIs(pc: Word, imm: nat)
    requires imm < 0x1_0000
    ensures Relative(pc, imm) == Wrap(pc as int + 4 + Extended(imm) as int * 4)
  {
    ExtendedIs(imm);
  }

  lemma DecodesRegisters(i: Instruction, pc: Word)
    requires i.OnRegisters? && IsInstruction(i)
    ensures IsDecoded(i, pc, DecodeOp(RawOp(pc, WordOf(i))))
  {
    var w := Encode(i);
    TopFields(w, 0, i.rs, i.rt, i.rd * 0x800 + i.shamt * 0x40 + Funct(i.r));
    LowFields(w, 0, i.rs, i.rt, i.rd, i.shamt, Funct(i.r));
  }

  lemma DecodesImmediate(i: Instruction, pc: Word)
    requires i.OnImmediate? && IsInstruction(i)
    ensures IsDecoded(i, pc, DecodeOp(RawOp(pc, WordOf(i))))
  {
    hide Wrap, Relative, Extended;
    var w := Encode(i);
    TopFields(w, Opcode(i.i), i.rs, i.rt, i.imm);
    ExtendedIs(i.imm);
    RelativeIs(pc, i.imm);
  }

  lemma DecodesZero(i: Instruction, pc: Word)
    requires i.OnZero? && IsInstruction(i)
    ensures IsDecoded(i, pc, DecodeOp(RawOp(pc, WordOf(i))))
  {
    var w := Encode(i);
    TopFields(w, 1, i.rs, ZeroCode(i.z), i.imm);
    ExtendedIs(i.imm);
    RelativeIs(pc, i.imm);
  }

  lemma DecodesJump(i: Instruction, pc: Word)
    requires i.Jump? && IsInstruction(i)
    ensures IsDecoded(i, pc, DecodeOp(RawOp(pc, WordOf(i))))
  {
    var w := Encode(i);
    JumpFields(w, if i.links then 3 else 2, i.target);
    var pages := pc as int / 0x1000_0000;
    assert 0 <= pages < 16;
    assert Wrap(pages * 0x1000_0000 + i.target * 4) as int == pages * 0x1000_0000 + i.target * 4;
  }

  /** The decoder finds every field of an encoded instruction. */
  lemma Decodes(i: Instruction, pc: Word)
    requires IsInstruction(i)
    ensures IsDecoded(i, pc, DecodeOp(RawOp(pc, WordOf(i))))
  {
    match i
    case OnRegisters(_, _, _, _, _) => DecodesRegisters(i, pc);
    case OnImmediate(_, _, _, _) => DecodesImmediate(i, pc);
    case OnZero(_, _, _) => DecodesZero(i, pc);
    case Jump(_, _) => DecodesJump(i, pc);
  }

  // ---- operations on registers ----

  /** The operation with its operands. */
  function Operands(a: State, op: Op): Op
    requires WellFormed(a)
  {
    WithOperands(op, a.regs)
  }

  lemma ComputesShift(r: RegisterOp, op: Op, a: State)
    requires op.opcode == 0 && op.subop == Funct(r) as Word && op.shamt < 32
    requires r.Sll? || r.Sllv? || r.Srl? || r.Srlv? || r.Sra? || r.Srav?
    ensures Computes(r, op.value1, op.value2, op.shamt as nat, a, ExecuteOp(op, a.hi, a.lo).op.dstValue)
  {
    hide Pow2, IsShifted, ShiftLeft, ShiftRight, ShiftRightSigned, Congruent, IsSigned, Signed;
    var x, y, v := op.value1, op.value2, ExecuteOp(op, a.hi, a.lo).op.dstValue;
    ShiftsAre(y, op.shamt);
    ShiftsAre(y, x);
    forall s, t | IsSigned(y, s) && IsSigned(v, t)
      ensures s == Signed(y) && t == Signed(v)
    {
      SignedIs(y, s);
      SignedIs(v, t);
    }
  }

  lemma ComputesLogic(r: RegisterOp, op: Op, a: State)
    requires op.opcode == 0 && op.subop == Funct(r) as Word
    requires r.BitAnd? || r.BitOr? || r.BitXor? || r.BitNor?
    ensures Computes(r, op.value1, op.value2, op.shamt as nat, a, ExecuteOp(op, a.hi, a.lo).op.dstValue)
  {
    hide And, Or, Xor, BitOf;
    forall i: nat | i < 32
      ensures BitOf(And(op.value1, op.value2), i) <==> BitOf(op.value1, i) && BitOf(op.value2, i)
      ensures BitOf(Or(op.value1, op.value2), i) <==> BitOf(op.value1, i) || BitOf(op.value2, i)
      ensures BitOf(Xor(op.value1, op.value2), i) <==> BitOf(op.value1, i) != BitOf(op.value2, i)
      ensures BitOf(0xFFFF_FFFF - Or(op.value1, op.value2), i) <==> !BitOf(op.value1, i) && !BitOf(op.value2, i)
    {
      WordBits(op.value1, op.value2, i);
    }
  }

  lemma ComputesSlt(op: Op, a: State)
    requires op.opcode == 0 && op.subop == Funct(Slt) as Word
    ensures Computes(Slt, op.value1, op.value2, op.shamt as nat, a, ExecuteOp(op, a.hi, a.lo).op.dstValue)
  {
    forall s, t | IsSigned(op.value1, s) && IsSigned(op.value2, t)
      ensures s == Signed(op.value1) && t == Signed(op.value2)
    {
      SignedIs(op.value1, s);
      SignedIs(op.value2, t);
    }
  }

  lemma DifferenceIs(x: Word, y: Word)
    ensures Congruent(Wrap(x as int - y as int) as int + y as int, x as int)
  {
  }

  lemma ComputesWrapped(r: RegisterOp, op: Op, a: State)
    requires op.opcode == 0 && op.subop == Funct(r) as Word && op.pc == a.pc
    requires r.Add? || r.Addu? || r.Sub? || r.Subu? || r.Jr? || r.Jalr?
    ensures Computes(r, op.value1, op.value2, op.shamt as nat, a, ExecuteOp(op, a.hi, a.lo).op.dstValue)
  {
    hide Pow2, IsShifted, IsSigned, BitOf, Following, Wrap, Congruent;
    var x, y := op.value1, op.value2;
    FollowingIs(a.pc);
    WrapCongruent(x as int + y as int);
    DifferenceIs(x, y);
  }

  /** Every operation on registers has the result that it means. */
  lemma ComputesResult(r: RegisterOp, op: Op, a: State)
    requires op.opcode == 0 && op.subop == Funct(r) as Word && op.shamt < 32 && op.dstValue == 0 && op.pc == a.pc
    ensures Computes(r, op.value1, op.value2, op.shamt as nat, a, ExecuteOp(op, a.hi, a.lo).op.dstValue)
  {
    hide Pow2, IsShifted, IsSigned, BitOf, Wrap, Congruent, Following;
    match r
    case Sll => ComputesShift(r, op, a);
    case Sllv => ComputesShift(r, op, a);
    case Srl => ComputesShift(r, op, a);
    case Srlv => ComputesShift(r, op, a);
    case Sra => ComputesShift(r, op, a);
    case Srav => ComputesShift(r, op, a);
    case BitAnd => ComputesLogic(r, op, a);
    case BitOr => ComputesLogic(r, op, a);
    case BitXor => ComputesLogic(r, op, a);
    case BitNor => ComputesLogic(r, op, a);
    case Slt => ComputesSlt(op, a);
    case Add => ComputesWrapped(r, op, a);
    case Addu => ComputesWrapped(r, op, a);
    case Sub => ComputesWrapped(r, op, a);
    case Subu => ComputesWrapped(r, op, a);
    case Jr => ComputesWrapped(r, op, a);
    case Jalr => ComputesWrapped(r, op, a);
    case _ =>
  }

  lemma MultipliesSigned(op: Op, a: State)
    requires op.opcode == 0 && op.subop == Funct(Mult) as Word
    ensures
      var e := ExecuteOp(op, a.hi, a.lo);
      Multiplies(Mult, op.value1, op.value2, a, e.hi, e.lo)
  {
    var e := ExecuteOp(op, a.hi, a.lo);
    L.MultIsProduct(op, a.hi, a.lo);
    forall s, t, h | IsSigned(op.value1, s) && IsSigned(op.value2, t) && IsSigned(e.hi, h)
      ensures h * 0x1_0000_0000 + e.lo as int == s * t
    {
      SignedIs(op.value1, s);
      SignedIs(op.value2, t);
      SignedIs(e.hi, h);
    }
  }

  lemma DividesSigned(op: Op, a: State)
    requires op.opcode == 0 && op.subop == Funct(Div) as Word
    ensures
      var e := ExecuteOp(op, a.hi, a.lo);
      Multiplies(Div, op.value1, op.value2, a, e.hi, e.lo)
  {
    var e := ExecuteOp(op, a.hi, a.lo);
    if op.value2 != 0 {
      L.DivIsQuotient(op, a.hi, a.lo);
      forall s, t, q, rem | IsSigned(op.value1, s) && IsSigned(op.value2, t) && IsSigned(e.lo, q) && IsSigned(e.hi, rem)
        ensures s == Signed(op.value1) && t == Signed(op.value2) && q == Signed(e.lo) && rem == Signed(e.hi)
      {
        SignedIs(op.value1, s);
        SignedIs(op.value2, t);
        SignedIs(e.lo, q);
        SignedIs(e.hi, rem);
      }
    }
  }

  /** ... and leaves in HI and LO what it means. */
  lemma MultipliesResult(r: RegisterOp, op: Op, a: State)
    requires op.opcode == 0 && op.subop == Funct(r) as Word
    ensures
      var e := ExecuteOp(op, a.hi, a.lo);
      Multiplies(r, op.value1, op.value2, a, e.hi, e.lo)
  {
    match r
    case Mult => MultipliesSigned(op, a);
    case Multu => L.MultuIsProduct(op, a.hi, a.lo);
    case Div => DividesSigned(op, a);
    case Divu =>
      if op.value2 != 0 {
        L.DivuIsQuotient(op, a.hi, a.lo);
      }
    case _ =>
  }

  lemma FollowingIs(pc: Word)
    ensures Congruent(Following(pc) as int, pc as int + 4)
  {
  }

  /** What is left of the operation: it accesses no memory, and only jumps go elsewhere. */
  lemma RegistersElse(r: RegisterOp, op: Op, a: State)
    requires op.opcode == 0 && op.subop == Funct(r) as Word && !op.branchTaken
    ensures
      var e := ExecuteOp(op, a.hi, a.lo).op;
      && e.opcode == 0 && e.dst == op.dst
      && (if r.Jr? || r.Jalr? then e.branchTaken && e.branchDest == op.value1 else !e.branchTaken)
  {
  }

  // ---- steps ----

  /** What the execute stage makes of an instruction. */
  function ExecutedFor(a: State, i: Instruction): Executed
    requires WellFormed(a) && IsInstruction(i)
  {
    ExecuteOp(Operands(a, DecodeOp(RawOp(a.pc, WordOf(i)))), a.hi, a.lo)
  }

  /** An operation that does not access memory. */
  predicate IsQuiet(op: Op) {
    op.opcode !in LOADS && op.opcode !in STORES
  }

  lemma StepAt(text: Memory, a: State, i: Instruction, e: Executed, b: State)
    requires WellFormed(a) && IsInstruction(i) && Read32(text, a.pc) == WordOf(i)
    requires e == ExecutedFor(a, i) && b == Step(Isa32(text), a)
    ensures b.hi == e.hi && b.lo == e.lo && b.pc == if e.op.branchTaken then e.op.branchDest else Following(a.pc)
    ensures
      var (op, mem) := AccessMemory(e.op, a.mem);
      b.mem == mem && b.regs == WriteBack(a.regs, op)
    ensures IsQuiet(e.op) ==> b.mem == a.mem && b.regs == WriteBack(a.regs, e.op)
  {
    hide DecodeOp, ExecuteOp, Read32, WordOf;
  }

  /** Writing back a result changes its register only. */
  lemma WritesBack(a: State, op: Op, b: State)
    requires WellFormed(a) && WellFormed(b) && b.regs == WriteBack(a.regs, op)
    ensures if op.dst == -1 then b.regs == a.regs
            else OthersStay(a, b, op.dst) && (op.dst != 0 ==> b.regs[op.dst] == op.dstValue)
  {
  }

  lemma OperandsAre(a: State, op: Op)
    requires WellFormed(a)
    ensures
      var ready := Operands(a, op);
      && (op.src1 >= 0 ==> ready.value1 == Value(a, op.src1)) && (op.src2 >= 0 ==> ready.value2 == Value(a, op.src2))
      && ready == op.(value1 := ready.value1, value2 := ready.value2)
  {
  }

  lemma ExecutesRegisters(a: State, i: Instruction)
    requires WellFormed(a) && IsInstruction(i) && i.OnRegisters?
    ensures
      var e, x, y := ExecutedFor(a, i), Value(a, i.rs), Value(a, i.rt);
      && e.op.dst == i.rd && Computes(i.r, x, y, i.shamt, a, e.op.dstValue) && Multiplies(i.r, x, y, a, e.hi, e.lo)
      && IsQuiet(e.op) && e.op.branchTaken == (i.r.Jr? || i.r.Jalr?) && (e.op.branchTaken ==> e.op.branchDest == x)
  {
    hide DecodeOp, ExecuteOp, Computes, Multiplies, WordOf;
    var op := DecodeOp(RawOp(a.pc, WordOf(i)));
    var ready := Operands(a, op);
    DecodesRegisters(i, a.pc);
    OperandsAre(a, op);
    ComputesResult(i.r, ready, a);
    MultipliesResult(i.r, ready, a);
    RegistersElse(i.r, ready, a);
    if i.r.Syscall? {
      SyscallIsIdle(a, i, ready);
    }
  }

  /** A system call has no result, whatever its operands. */
  lemma SyscallIsIdle(a: State, i: Instruction, ready: Op)
    requires WellFormed(a) && IsInstruction(i) && i.OnRegisters? && i.r.Syscall?
    requires ready.opcode == 0 && ready.subop == Funct(Syscall) as Word && ready.dstValue == 0
    ensures
      var e := ExecuteOp(ready, a.hi, a.lo);
      Computes(Syscall, Value(a, i.rs), Value(a, i.rt), i.shamt, a, e.op.dstValue)
      && Multiplies(Syscall, Value(a, i.rs), Value(a, i.rt), a, e.hi, e.lo)
  {
  }

  lemma StepOnRegisters(text: Memory, a: State, i: Instruction)
    requires WellFormed(a) && IsInstruction(i) && i.OnRegisters? && Read32(text, a.pc) == WordOf(i)
    ensures Means(i, a, Step(Isa32(text), a))
  {
    hide ExecutedFor, Computes, Multiplies, WordOf, AccessMemory, Step, WriteBack, Read32, Congruent, Following,
      IsQuiet;
    var e, b := ExecutedFor(a, i), Step(Isa32(text), a);
    ExecutesRegisters(a, i);
    StepAt(text, a, i, e, b);
    WritesBack(a, e.op, b);
    FollowingIs(a.pc);
  }

  // ---- operations on immediates ----

  /** An operation has been decoded from an instruction with this immediate. */
  predicate HasImmediate(op: Op, o: ImmediateOp, imm: nat) {
    imm < 0x1_0000 && op.opcode == Opcode(o) as Word && op.imm16 == imm as Word && op.seImm16 == Extended(imm)
  }

  lemma ExtendedSum(x: Word, imm: nat)
    requires imm < 0x1_0000
    ensures Wrap(x as int + Extended(imm) as int) == Wrap(x as int + SignedHalf(imm))
  {
    ExtendedIs(imm);
  }

  lemma ComputesSum(o: ImmediateOp, op: Op, imm: nat, a: State)
    requires HasImmediate(op, o, imm) && (o.Addi? || o.Addiu?)
    ensures IsSum(ExecuteOp(op, a.hi, a.lo).op.dstValue, op.value1, imm)
  {
    hide IsSum;
    ExtendedSum(op.value1, imm);
    SumIs(ExecuteOp(op, a.hi, a.lo).op.dstValue, op.value1, imm);
  }

  lemma ComputesOrder(o: ImmediateOp, op: Op, imm: nat, a: State)
    requires HasImmediate(op, o, imm) && (o.Slti? || o.Sltiu?)
    ensures ComputesImmediate(o, op.value1, imm, a.mem, ExecuteOp(op, a.hi, a.lo).op.dstValue)
  {
    hide IsSum;
    ExtendedIs(imm);
    forall u: Word | IsSum(u, 0, imm)
      ensures u == Extended(imm)
    {
      SumIs(u, 0, imm);
    }
    forall s, t | IsSigned(op.value1, s) && IsSignedHalf(imm, t)
      ensures s == Signed(op.value1) && t == Signed(Extended(imm))
    {
      SignedIs(op.value1, s);
      SignedHalfIs(imm, t);
    }
  }

  lemma ComputesMask(o: ImmediateOp, op: Op, imm: nat, a: State)
    requires HasImmediate(op, o, imm) && (o.Andi? || o.Ori? || o.Xori?)
    ensures ComputesImmediate(o, op.value1, imm, a.mem, ExecuteOp(op, a.hi, a.lo).op.dstValue)
  {
    hide And, Or, Xor, Bit;
    var v := ExecuteOp(op, a.hi, a.lo).op.dstValue;
    forall i: nat | i < 32
      ensures BitOf(And(op.value1, op.imm16), i) <==> BitOf(op.value1, i) && Bit(imm, i)
      ensures BitOf(Or(op.value1, op.imm16), i) <==> BitOf(op.value1, i) || Bit(imm, i)
      ensures BitOf(Xor(op.value1, op.imm16), i) <==> BitOf(op.value1, i) != Bit(imm, i)
    {
      WordBits(op.value1, op.imm16, i);
      assert BitOf(op.imm16, i) <==> Bit(imm, i);
    }
  }

  /** Every operation on an immediate has the result that it means. */
  lemma ComputesImmediateResult(o: ImmediateOp, op: Op, imm: nat, a: State)
    requires HasImmediate(op, o, imm) && !IsBranch(o) && !IsStore(o) && op.opcode !in LOADS
    ensures ComputesImmediate(o, op.value1, imm, a.mem, ExecuteOp(op, a.hi, a.lo).op.dstValue)
  {
    hide ExecuteOp;
    match o
    case Addi => ComputesSum(o, op, imm, a);
    case Addiu => ComputesSum(o, op, imm, a);
    case Slti => ComputesOrder(o, op, imm, a);
    case Sltiu => ComputesOrder(o, op, imm, a);
    case Andi => ComputesMask(o, op, imm, a);
    case Ori => ComputesMask(o, op, imm, a);
    case Xori => ComputesMask(o, op, imm, a);
    case Lui => LoadsUpper(op, imm, a);
    case _ =>
  }

  lemma LoadsUpper(op: Op, imm: nat, a: State)
    requires HasImmediate(op, Lui, imm)
    ensures ExecuteOp(op, a.hi, a.lo).op.dstValue as int == imm * 0x1_0000
  {
  }

  // ---- memory ----

  lemma RegionsAre(addr: Word)
    ensures InRegion(addr) <==> Mapped(Align(addr))
  {
    var a := Align(addr);
    assert REGION_STARTS[0] == 0x0040_0000 && REGION_STARTS[1] == 0x1000_0000 && REGION_STARTS[2] == 0x7ff0_0000;
    assert REGION_STARTS[3] == 0x9000_0000 && REGION_STARTS[4] == 0x8000_0000;
  }

  lemma Rounded(x: nat)
    ensures x - x % 4 + x % 4 == x && x - x % 4 + 2 * ((x / 2) % 2) == x - x % 2
    ensures x < 0x1_0000_0000 ==> x - x % 4 + 4 <= 0x1_0000_0000 && x - x % 2 + 2 <= 0x1_0000_0000
  {
    var y, r := x / 4, x % 4;
    assert x == 4 * y + r;
    assert x / 2 == 2 * y + r / 2 && x % 2 == r % 2;
    assert (x / 2) % 2 == r / 2;
  }

  lemma LaneIs(o: ImmediateOp, addr: Word)
    requires Opcode(o) as Word in LOADS + STORES
    ensures L.Width(Opcode(o) as Word) == Bytes(o) && L.Lane(Opcode(o) as Word, addr) == LaneOf(o, addr)
    ensures 0 <= LaneOf(o, addr) && LaneOf(o, addr) + Bytes(o) <= 0x1_0000_0000
  {
    var x := addr as int;
    Rounded(x);
    assert Align(addr) as int == x - x % 4;
    assert (addr / 2 % 2) as nat == (x / 2) % 2 && (addr % 4) as nat == x % 4;
  }

  lemma SameByte(m: Memory, addr: int)
    requires 0 <= addr < 0x1_0000_0000
    ensures ByteOf(m, addr) == ByteAt(m, addr)
  {
    assert Wrap(addr) as int == addr;
  }

  lemma NumberIs(m: Memory, from: int, n: nat)
    requires 0 <= from && from + n <= 0x1_0000_0000 && (n == 1 || n == 2 || n == 4)
    ensures NumberIn(m, from, n) == L.Number(L.Bytes(m, from, n), 0, n)
  {
    forall i: nat | i < n
      ensures ByteOf(m, from + i) == L.Bytes(m, from, n)[i]
    {
      SameByte(m, from + i);
    }
    assert Pow2(0) == 1 && Pow2(8) == 0x100 && Pow2(16) == 0x1_0000 && Pow2(24) == 0x100_0000;
    assert NumberIn(m, from, 1) == ByteOf(m, from + 0);
    assert n >= 2 ==> NumberIn(m, from, 2) == NumberIn(m, from, 1) + ByteOf(m, from + 1) * 0x100;
    assert n >= 4 ==> NumberIn(m, from, 3) == NumberIn(m, from, 2) + ByteOf(m, from + 2) * 0x1_0000;
    assert n >= 4 ==> NumberIn(m, from, 4) == NumberIn(m, from, 3) + ByteOf(m, from + 3) * 0x100_0000;
  }

  lemma NothingLoaded(op: Op, m: Memory)
    requires op.opcode in LOADS && !Mapped(Align(op.memAddr))
    ensures AccessMemory(op, m).0.dstValue == 0
  {
  }

  lemma ExtendedByWidth(o: ImmediateOp, n: int, v: Word)
    requires Opcode(o) as Word in LOADS && v as int == L.Extended(Opcode(o) as Word, n)
    ensures
      match o
      case Lh => ExtendsSign(v, n, 0x8000)
      case Lb => ExtendsSign(v, n, 0x80)
      case _ => v as int == n
  {
  }

  lemma LoadsNumber(o: ImmediateOp, op: Op, m: Memory)
    requires op.opcode == Opcode(o) as Word && op.opcode in LOADS && Mapped(Align(op.memAddr))
    ensures AccessMemory(op, m).0.dstValue as int
         == L.Extended(op.opcode, NumberIn(m, LaneOf(o, op.memAddr), Bytes(o)))
  {
    hide AccessMemory, NumberIn, L.Number, L.Extended, Mapped, LaneOf, L.Lane, Align;
    LaneIs(o, op.memAddr);
    var b := L.Bytes(m, LaneOf(o, op.memAddr), Bytes(o));
    L.LoadBytes(m, op, b);
    NumberIs(m, LaneOf(o, op.memAddr), Bytes(o));
  }

  /** A load finds the bytes of its lane, or 0 outside of the regions. */
  lemma LoadsBytes(o: ImmediateOp, op: Op, m: Memory)
    requires op.opcode == Opcode(o) as Word && op.opcode in LOADS
    ensures Loads(o, m, op.memAddr, AccessMemory(op, m).0.dstValue)
  {
    hide AccessMemory, NumberIn, L.Extended, Mapped, InRegion, LaneOf, Align;
    RegionsAre(op.memAddr);
    if InRegion(op.memAddr) {
      LoadsNumber(o, op, m);
      ExtendedByWidth(o, NumberIn(m, LaneOf(o, op.memAddr), Bytes(o)), AccessMemory(op, m).0.dstValue);
    } else {
      NothingLoaded(op, m);
    }
  }

  lemma BytePowers(j: nat)
    requires j < 4
    ensures Pow2(8 * j) == if j == 0 then 1 else if j == 1 then 0x100 else if j == 2 then 0x1_0000 else 0x100_0000
  {
    assert Pow2(0) == 1 && Pow2(8) == 0x100;
    assert Pow2(16) == 0x1_0000;
    assert Pow2(24) == 0x100_0000;
  }

  lemma ByteOfWord(y: Word, b: seq<int>, j: nat)
    requires L.IsBytes(y as int, b) && j < 4
    ensures (y as int / Pow2(8 * j)) % 0x100 == b[j]
  {
    hide Pow2;
    BytePowers(j);
    L.PartsOfWord(y as int, b);
    L.MiddleBytes(y as int, b);
  }

  lemma NothingStored(op: Op, m: Memory)
    requires op.opcode in STORES && !Mapped(Align(op.memAddr))
    ensures AccessMemory(op, m).1 == m
  {
  }

  lemma StoresByte(o: ImmediateOp, op: Op, m: Memory, k: int)
    requires op.opcode == Opcode(o) as Word && op.opcode in STORES && 0 <= k < 0x1_0000_0000
    ensures
      var from := LaneOf(o, op.memAddr);
      ByteOf(AccessMemory(op, m).1, k) ==
        if InRegion(op.memAddr) && from <= k < from + Bytes(o) then (op.memValue as int / Pow2(8 * (k - from))) % 0x100
        else ByteOf(m, k)
  {
    hide AccessMemory, Mapped, InRegion, Pow2;
    RegionsAre(op.memAddr);
    if InRegion(op.memAddr) {
      LaneIs(o, op.memAddr);
      var v := L.BytesExist(op.memValue);
      L.StoreBytes(m, op, v, k);
      SameByte(m, k);
      SameByte(AccessMemory(op, m).1, k);
      var from := LaneOf(o, op.memAddr);
      if from <= k < from + Bytes(o) {
        ByteOfWord(op.memValue, v, k - from);
      }
    } else {
      NothingStored(op, m);
    }
  }

  /** A store changes the bytes of its lane, and nothing outside of the regions. */
  lemma StoresBytes(o: ImmediateOp, op: Op, m: Memory)
    requires op.opcode == Opcode(o) as Word && op.opcode in STORES
    ensures Stores(o, m, op.memAddr, op.memValue, AccessMemory(op, m).1)
  {
    hide AccessMemory, InRegion, Pow2, ByteOf;
    forall k | 0 <= k < 0x1_0000_0000
      ensures
        var from := LaneOf(o, op.memAddr);
        ByteOf(AccessMemory(op, m).1, k) ==
          if InRegion(op.memAddr) && from <= k < from + Bytes(o) then
            (op.memValue as int / Pow2(8 * (k - from))) % 0x100
          else ByteOf(m, k)
    {
      StoresByte(o, op, m, k);
    }
  }

  /** The address of a load or store is the sum, and a store has its value. */
  lemma AddressIs(o: ImmediateOp, op: Op, imm: nat, a: State)
    requires HasImmediate(op, o, imm) && op.opcode in LOADS + STORES
    ensures
      var e := ExecuteOp(op, a.hi, a.lo).op;
      && e.opcode == op.opcode && e.dst == op.dst
      && (forall addr: Word :: IsSum(addr, op.value1, imm) <==> addr == e.memAddr)
      && (op.opcode in STORES ==> e.memValue == op.value2)
  {
    hide IsSum;
    ExtendedSum(op.value1, imm);
    forall addr: Word
      ensures IsSum(addr, op.value1, imm) <==> addr == ExecuteOp(op, a.hi, a.lo).op.memAddr
    {
      SumIs(addr, op.value1, imm);
    }
  }

  // ---- branches ----

  /** The pc after an operation. */
  function PcAfter(e: Op, pc: Word): Word {
    if e.branchTaken then e.branchDest else Following(pc)
  }

  lemma BranchesTo(taken: bool, imm: nat, a: State, e: Op, b: State)
    requires imm < 0x1_0000 && e.branchTaken == taken && (taken ==> e.branchDest == Relative(a.pc, imm))
    requires b.pc == PcAfter(e, a.pc)
    ensures Branches(taken, imm, a, b)
  {
    hide Congruent, Wrap, Following;
    FollowingIs(a.pc);
    if taken {
      forall s | IsSignedHalf(imm, s)
        ensures Congruent(b.pc as int, a.pc as int + 4 + 4 * s)
      {
        SignedHalfIs(imm, s);
        WrapCongruent(a.pc as int + 4 + 4 * s);
      }
    }
  }

  /** Is a branch that compares taken? */
  function IsTaken(o: ImmediateOp, x: Word, y: Word): bool {
    match o
    case Beq => x == y
    case Bne => x != y
    case Blez => Signed(x) <= 0
    case Bgtz => Signed(x) > 0
    case _ => false
  }

  lemma TakenIs(o: ImmediateOp, op: Op, imm: nat, a: State)
    requires HasImmediate(op, o, imm) && !op.branchTaken
    ensures
      var e := ExecuteOp(op, a.hi, a.lo);
      && e.op.branchTaken == IsTaken(o, op.value1, op.value2) && e.op.branchDest == op.branchDest
      && e.op.opcode == op.opcode && e.op.dst == op.dst && e.hi == a.hi && e.lo == a.lo
  {
  }

  lemma DecidesIs(o: ImmediateOp, x: Word, y: Word, imm: nat, a: State, b: State)
    requires if IsBranch(o) then Branches(IsTaken(o, x, y), imm, a, b) else NextInstruction(a, b)
    ensures Decides(o, x, y, imm, a, b)
  {
    hide Branches, NextInstruction, IsSigned, Signed;
    forall s | IsSigned(x, s)
      ensures s == Signed(x)
    {
      SignedIs(x, s);
    }
  }

  // ---- steps on immediates ----

  lemma ReadyImmediate(a: State, i: Instruction) returns (ready: Op)
    requires WellFormed(a) && IsInstruction(i) && i.OnImmediate?
    ensures ExecutedFor(a, i) == ExecuteOp(ready, a.hi, a.lo) && HasImmediate(ready, i.i, i.imm)
    ensures ready.value1 == Value(a, i.rs) && !ready.branchTaken
    ensures IsBranch(i.i) ==> ready.branchDest == Relative(a.pc, i.imm)
    ensures if IsBranch(i.i) || IsStore(i.i) then ready.value2 == Value(a, i.rt) && ready.dst == -1
            else ready.dst == i.rt
  {
    hide DecodeOp, ExecuteOp, Extended, Relative, WordOf;
    var op := DecodeOp(RawOp(a.pc, WordOf(i)));
    DecodesImmediate(i, a.pc);
    OperandsAre(a, op);
    ready := Operands(a, op);
  }

  lemma KindsOf(o: ImmediateOp)
    ensures Opcode(o) as Word in STORES <==> IsStore(o)
    ensures IsBranch(o) ==> Opcode(o) as Word !in LOADS
  {
  }

  /** HI, LO and the pc after an operation on an immediate. */
  lemma ImmediateGoesOn(text: Memory, a: State, i: Instruction, b: State)
    requires WellFormed(a) && IsInstruction(i) && i.OnImmediate? && Read32(text, a.pc) == WordOf(i)
    requires b == Step(Isa32(text), a)
    ensures b.hi == a.hi && b.lo == a.lo && Decides(i.i, Value(a, i.rs), Value(a, i.rt), i.imm, a, b)
  {
    hide ExecutedFor, WordOf, AccessMemory, Step, WriteBack, Read32, ExecuteOp, Branches, Decides, Relative, Extended;
    var ready := ReadyImmediate(a, i);
    var e := ExecutedFor(a, i);
    StepAt(text, a, i, e, b);
    TakenIs(i.i, ready, i.imm, a);
    if IsBranch(i.i) {
      BranchesTo(IsTaken(i.i, ready.value1, ready.value2), i.imm, a, e.op, b);
    } else {
      FollowingIs(a.pc);
    }
    DecidesIs(i.i, Value(a, i.rs), Value(a, i.rt), i.imm, a, b);
  }

  lemma LoadIsQuietElse(op: Op, m: Memory)
    requires op.opcode in LOADS
    ensures AccessMemory(op, m).1 == m && AccessMemory(op, m).0.dst == op.dst
  {
  }

  lemma StoreKeepsOp(op: Op, m: Memory)
    requires op.opcode in STORES
    ensures AccessMemory(op, m).0 == op
  {
  }

  lemma StepOnLoad(text: Memory, a: State, i: Instruction, b: State)
    requires WellFormed(a) && IsInstruction(i) && i.OnImmediate? && Read32(text, a.pc) == WordOf(i)
    requires b == Step(Isa32(text), a) && Opcode(i.i) as Word in LOADS
    ensures b.mem == a.mem && OthersStay(a, b, i.rt)
    ensures i.rt != 0 ==> ComputesImmediate(i.i, Value(a, i.rs), i.imm, a.mem, b.regs[i.rt])
  {
    hide ExecutedFor, WordOf, AccessMemory, Step, WriteBack, Read32, ExecuteOp, Relative, Extended, IsSum, Loads;
    var ready := ReadyImmediate(a, i);
    var e := ExecutedFor(a, i);
    KindsOf(i.i);
    StepAt(text, a, i, e, b);
    AddressIs(i.i, ready, i.imm, a);
    LoadIsQuietElse(e.op, a.mem);
    LoadsBytes(i.i, e.op, a.mem);
    WritesBack(a, AccessMemory(e.op, a.mem).0, b);
  }

  lemma StepOnStore(text: Memory, a: State, i: Instruction, b: State)
    requires WellFormed(a) && IsInstruction(i) && i.OnImmediate? && Read32(text, a.pc) == WordOf(i)
    requires b == Step(Isa32(text), a) && IsStore(i.i)
    ensures b.regs == a.regs && StoresImmediate(i.i, Value(a, i.rs), i.imm, Value(a, i.rt), a.mem, b.mem)
  {
    hide ExecutedFor, WordOf, AccessMemory, Step, WriteBack, Read32, ExecuteOp, Relative, Extended, IsSum, Stores;
    var ready := ReadyImmediate(a, i);
    var e := ExecutedFor(a, i);
    KindsOf(i.i);
    StepAt(text, a, i, e, b);
    AddressIs(i.i, ready, i.imm, a);
    StoreKeepsOp(e.op, a.mem);
    StoresBytes(i.i, e.op, a.mem);
    WritesBack(a, e.op, b);
  }

  /** A branch, or an operation with a result. */
  lemma StepOnOthers(text: Memory, a: State, i: Instruction, b: State)
    requires WellFormed(a) && IsInstruction(i) && i.OnImmediate? && Read32(text, a.pc) == WordOf(i)
    requires b == Step(Isa32(text), a) && !IsStore(i.i) && Opcode(i.i) as Word !in LOADS
    ensures b.mem == a.mem
    ensures if IsBranch(i.i) then b.regs == a.regs else
              OthersStay(a, b, i.rt)
              && (i.rt != 0 ==> ComputesImmediate(i.i, Value(a, i.rs), i.imm, a.mem, b.regs[i.rt]))
  {
    hide ExecutedFor, WordOf, AccessMemory, Step, WriteBack, Read32, ExecuteOp, Relative, Extended, ComputesImmediate;
    var ready := ReadyImmediate(a, i);
    var e := ExecutedFor(a, i);
    KindsOf(i.i);
    StepAt(text, a, i, e, b);
    TakenIs(i.i, ready, i.imm, a);
    WritesBack(a, e.op, b);
    if !IsBranch(i.i) {
      ComputesImmediateResult(i.i, ready, i.imm, a);
    }
  }

  lemma StepOnImmediate(text: Memory, a: State, i: Instruction)
    requires WellFormed(a) && IsInstruction(i) && i.OnImmediate? && Read32(text, a.pc) == WordOf(i)
    ensures Means(i, a, Step(Isa32(text), a))
  {
    hide ExecutedFor, WordOf, AccessMemory, Step, WriteBack, Read32, ExecuteOp, Relative, Extended, ComputesImmediate,
      StoresImmediate, Decides, OthersStay;
    var b := Step(Isa32(text), a);
    KindsOf(i.i);
    ImmediateGoesOn(text, a, i, b);
    if IsStore(i.i) {
      StepOnStore(text, a, i, b);
    } else if Opcode(i.i) as Word in LOADS {
      StepOnLoad(text, a, i, b);
    } else {
      StepOnOthers(text, a, i, b);
    }
  }

  // ---- branches on zero and jumps ----

  lemma ExecutesZero(a: State, i: Instruction)
    requires WellFormed(a) && IsInstruction(i) && i.OnZero?
    ensures
      var e, x := ExecutedFor(a, i), Value(a, i.rs);
      && e.hi == a.hi && e.lo == a.lo && IsQuiet(e.op)
      && e.op.branchTaken == (if i.z.Bltz? || i.z.Bltzal? then Signed(x) < 0 else Signed(x) >= 0)
      && e.op.branchDest == Relative(a.pc, i.imm)
      && (if i.z.Bltzal? || i.z.Bgezal? then e.op.dst == 31 && e.op.dstValue == Following(a.pc) else e.op.dst == -1)
  {
    hide DecodeOp, Relative, WordOf, Following;
    var op := DecodeOp(RawOp(a.pc, WordOf(i)));
    DecodesZero(i, a.pc);
    OperandsAre(a, op);
  }

  lemma StepOnZero(text: Memory, a: State, i: Instruction)
    requires WellFormed(a) && IsInstruction(i) && i.OnZero? && Read32(text, a.pc) == WordOf(i)
    ensures Means(i, a, Step(Isa32(text), a))
  {
    hide ExecutedFor, WordOf, AccessMemory, Step, WriteBack, Read32, Relative, Branches, IsSigned, Signed, Following,
      IsQuiet, Congruent;
    var e, b := ExecutedFor(a, i), Step(Isa32(text), a);
    ExecutesZero(a, i);
    StepAt(text, a, i, e, b);
    WritesBack(a, e.op, b);
    FollowingIs(a.pc);
    forall s | IsSigned(Value(a, i.rs), s)
      ensures Branches(if i.z.Bltz? || i.z.Bltzal? then s < 0 else s >= 0, i.imm, a, b)
    {
      SignedIs(Value(a, i.rs), s);
      BranchesTo(if i.z.Bltz? || i.z.Bltzal? then s < 0 else s >= 0, i.imm, a, e.op, b);
    }
  }

  lemma ExecutesJump(a: State, i: Instruction)
    requires WellFormed(a) && IsInstruction(i) && i.Jump?
    ensures
      var e := ExecutedFor(a, i);
      && e.hi == a.hi && e.lo == a.lo && IsQuiet(e.op) && e.op.branchTaken
      && e.op.branchDest as int == (a.pc as int / 0x1000_0000) * 0x1000_0000 + 4 * i.target
      && (if i.links then e.op.dst == 31 && e.op.dstValue == Following(a.pc) else e.op.dst == -1)
  {
    hide DecodeOp, WordOf, Following;
    var op := DecodeOp(RawOp(a.pc, WordOf(i)));
    DecodesJump(i, a.pc);
    OperandsAre(a, op);
  }

  lemma StepOnJump(text: Memory, a: State, i: Instruction)
    requires WellFormed(a) && IsInstruction(i) && i.Jump? && Read32(text, a.pc) == WordOf(i)
    ensures Means(i, a, Step(Isa32(text), a))
  {
    hide ExecutedFor, WordOf, AccessMemory, Step, WriteBack, Read32, Following, IsQuiet, Congruent;
    var e, b := ExecutedFor(a, i), Step(Isa32(text), a);
    ExecutesJump(a, i);
    StepAt(text, a, i, e, b);
    WritesBack(a, e.op, b);
    FollowingIs(a.pc);
  }

  /** A step at an encoded instruction does what the instruction means. */
  lemma StepMeans(text: Memory, a: State, i: Instruction)
    requires WellFormed(a) && IsInstruction(i) && Read32(text, a.pc) == WordOf(i)
    ensures Means(i, a, Step(Isa32(text), a))
  {
    match i
    case OnRegisters(_, _, _, _, _) => StepOnRegisters(text, a, i);
    case OnImmediate(_, _, _, _) => StepOnImmediate(text, a, i);
    case OnZero(_, _, _) => StepOnZero(text, a, i);
    case Jump(_, _) => StepOnJump(text, a, i);
  }

  /** The only instruction that ends a program is a system call with 10 in register 2. */
  lemma ExitMeans(text: Memory, a: State, i: Instruction)
    requires WellFormed(a) && IsInstruction(i) && Read32(text, a.pc) == WordOf(i)
    ensures IsExit(CompletedOp(Isa32(text), a).0) <==> i.OnRegisters? && i.r.Syscall? && a.regs[2] == 10
  {
    hide DecodeOp, WordOf, Read32;
    var op := DecodeOp(RawOp(a.pc, WordOf(i)));
    Decodes(i, a.pc);
    assert DecodedOp(Isa32(text), a) == op;
    var done := CompletedOp(Isa32(text), a).0;
    CompletedSo(text, a, op, done);
    hide CompletedOp, IsDecoded;
    DecodedExit(i, a.pc, op);
  }

  lemma ExecuteKeepsCode(op: Op, hi: Word, lo: Word)
    ensures
      var e := ExecuteOp(op, hi, lo).op;
      e.opcode == op.opcode && e.subop == op.subop && e.value1 == op.value1
  {
    hide And, Or, Xor, ShiftLeft, ShiftRight, ShiftRightSigned, Wrap, Signed, Quotient, TakesBranch;
  }

  lemma AccessKeepsCode(op: Op, m: Memory)
    ensures
      var done := AccessMemory(op, m).0;
      done.opcode == op.opcode && done.subop == op.subop && done.value1 == op.value1
  {
    hide LoadedValue, StoredWord, Read32, Write32, Align;
  }

  /** The later stages keep what an exit call is known by. */
  lemma CompletedSo(text: Memory, a: State, op: Op, done: Op)
    requires WellFormed(a) && op == DecodedOp(Isa32(text), a) && done == CompletedOp(Isa32(text), a).0
    ensures done.opcode == op.opcode && done.subop == op.subop
    ensures op.src1 == 2 ==> done.value1 == a.regs[2]
  {
    hide DecodeOp, Read32, ExecuteOp, AccessMemory;
    var ready := WithOperands(op, a.regs);
    ExecuteKeepsCode(ready, a.hi, a.lo);
    var e := ExecuteOp(ready, a.hi, a.lo).op;
    AccessKeepsCode(e, a.mem);
    assert done == AccessMemory(e, a.mem).0;
  }

  lemma DecodedExit(i: Instruction, pc: Word, op: Op)
    requires IsInstruction(i) && IsDecoded(i, pc, op)
    ensures op.opcode == OP_SPECIAL && op.subop == SUBOP_SYSCALL <==> i.OnRegisters? && i.r.Syscall?
    ensures i.OnRegisters? && i.r.Syscall? ==> op.src1 == 2
  {
  }

  // ---- other words ----

  const OPCODES: set<int> := {0, 1, 2, 3, 4, 5, 6, 7, 8, 9, 10, 11, 12, 13, 14, 15, 32, 33, 35, 36, 37, 40, 41, 43}
  const FUNCTS: set<int> := {0, 2, 3, 4, 6, 7, 8, 9, 12, 16, 17, 18, 19, 24, 25, 26, 27, 32, 33, 34, 35, 36, 37, 38,
                             39, 42, 43}

  /** The pc goes on, and nothing else changes. */
  ghost predicate IsIdle(a: State, b: State) {
    NextInstruction(a, b) && b == a.(pc := b.pc)
  }

  /** A word with another opcode does nothing ... */
  lemma OtherOpcode(text: Memory, a: State)
    requires WellFormed(a) && Read32(text, a.pc) as int / 0x400_0000 !in OPCODES
    ensures IsIdle(a, Step(Isa32(text), a))
  {
    hide Read32, ExecuteSpecial;
    FollowingIs(a.pc);
    assert DecodedOp(Isa32(text), a) == DecodeOp(RawOp(a.pc, Read32(text, a.pc)));
  }

  /** ... nor does one with another code for a branch on zero ... */
  lemma OtherZeroCode(text: Memory, a: State)
    requires WellFormed(a) && Read32(text, a.pc) as int / 0x400_0000 == 1
    requires (Read32(text, a.pc) as int / 0x1_0000) % 32 !in {0, 1, 16, 17}
    ensures IsIdle(a, Step(Isa32(text), a))
  {
    hide Read32, ExecuteSpecial;
    FollowingIs(a.pc);
    assert DecodedOp(Isa32(text), a) == DecodeOp(RawOp(a.pc, Read32(text, a.pc)));
  }

  /** ... and one with another code for an operation on registers clears its destination. */
  lemma OtherFunct(text: Memory, a: State)
    requires WellFormed(a) && Read32(text, a.pc) as int / 0x400_0000 == 0 && Read32(text, a.pc) as int % 0x40 !in FUNCTS
    ensures
      var rd, b := (Read32(text, a.pc) as int / 0x800) % 32, Step(Isa32(text), a);
      NextInstruction(a, b) && b == a.(pc := b.pc, regs := if rd == 0 then a.regs else a.regs[rd := 0])
  {
    hide Read32;
    FollowingIs(a.pc);
    assert DecodedOp(Isa32(text), a) == DecodeOp(RawOp(a.pc, Read32(text, a.pc)));
  }
}
