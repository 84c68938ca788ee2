/**
 The instructions of the simulated processor as its manual has them: how they are encoded, and what each does
 to registers, memory and pc, in terms of integers, bits and bytes.
 */
module MipsInstructions {
  import opened Common
  import opened MipsOps
  import opened Mips32
  import opened Sequential

  // ---- encoding ----

  datatype RegisterOp =
    | Sll | Srl | Sra | Sllv | Srlv | Srav | Jr | Jalr | Syscall | Mfhi | Mthi | Mflo | Mtlo
    | Mult | Multu | Div | Divu | Add | Addu | Sub | Subu | BitAnd | BitOr | BitXor | BitNor | Slt | Sltu

  datatype ImmediateOp =
    | Beq | Bne | Blez | Bgtz | Addi | Addiu | Slti | Sltiu | Andi | Ori | Xori | Lui
    | Lb | Lh | Lw | Lbu | Lhu | Sb | Sh | Sw

  /** Branches that compare a register with zero, some of which link. */
  datatype ZeroOp = Bltz | Bgez | Bltzal | Bgezal

  datatype Instruction =
    | OnRegisters(r: RegisterOp, rs: nat, rt: nat, rd: nat, shamt: nat)
    | OnImmediate(i: ImmediateOp, rs: nat, rt: nat, imm: nat)
    | OnZero(z: ZeroOp, rs: nat, imm: nat)
    | Jump(links: bool, target: nat)

  function Funct(r: RegisterOp): nat {
    match r
    case Sll => 0 case Srl => 2 case Sra => 3 case Sllv => 4 case Srlv => 6 case Srav => 7
    case Jr => 8 case Jalr => 9 case Syscall => 12
    case Mfhi => 16 case Mthi => 17 case Mflo => 18 case Mtlo => 19
    case Mult => 24 case Multu => 25 case Div => 26 case Divu => 27
    case Add => 32 case Addu => 33 case Sub => 34 case Subu => 35
    case BitAnd => 36 case BitOr => 37 case BitXor => 38 case BitNor => 39 case Slt => 42 case Sltu => 43
  }

  function Opcode(i: ImmediateOp): nat {
    match i
    case Beq => 4 case Bne => 5 case Blez => 6 case Bgtz => 7
    case Addi => 8 case Addiu => 9 case Slti => 10 case Sltiu => 11
    case Andi => 12 case Ori => 13 case Xori => 14 case Lui => 15
    case Lb => 32 case Lh => 33 case Lw => 35 case Lbu => 36 case Lhu => 37
    case Sb => 40 case Sh => 41 case Sw => 43
  }

  function ZeroCode(z: ZeroOp): nat {
    match z
    case Bltz => 0 case Bgez => 1 case Bltzal => 16 case Bgezal => 17
  }

  /** Registers have five bits, immediates sixteen and jump targets twenty-six. */
  predicate IsInstruction(i: Instruction) {
    match i
    case OnRegisters(_, rs, rt, rd, shamt) => rs < 32 && rt < 32 && rd < 32 && shamt < 32
    case OnImmediate(_, rs, rt, imm) => rs < 32 && rt < 32 && imm < 0x1_0000
    case OnZero(_, rs, imm) => rs < 32 && imm < 0x1_0000
    case Jump(_, target) => target < 0x400_0000
  }

  function Encode(i: Instruction): (w: nat)
    requires IsInstruction(i)
    ensures w < 0x1_0000_0000
  {
    match i
    case OnRegisters(r, rs, rt, rd, shamt) => rs * 0x20_0000 + rt * 0x1_0000 + rd * 0x800 + shamt * 0x40 + Funct(r)
    case OnImmediate(o, rs, rt, imm) => Opcode(o) * 0x400_0000 + rs * 0x20_0000 + rt * 0x1_0000 + imm
    case OnZero(z, rs, imm) => 0x400_0000 + rs * 0x20_0000 + ZeroCode(z) * 0x1_0000 + imm
    case Jump(links, target) => (if links then 3 else 2) * 0x400_0000 + target
  }

  // ---- numbers ----

  predicate Congruent(a: int, b: int) {
    (a - b) % 0x1_0000_0000 == 0
  }

  /** `s` is the number that a word stands for in two's complement. */
  predicate IsSigned(w: Word, s: int) {
    -0x8000_0000 <= s < 0x8000_0000 && Congruent(s, w as int)
  }

  /** The number that 16 bits stand for in two's complement. */
  predicate IsSignedHalf(imm: nat, s: int) {
    -0x8000 <= s < 0x8000 && (s - imm) % 0x1_0000 == 0
  }

  /** `v` is the sum of a word and a signed immediate. */
  ghost predicate IsSum(v: Word, x: Word, imm: nat) {
    forall s :: IsSignedHalf(imm, s) ==> Congruent(v as int, x as int + s)
  }

  predicate Bit(x: nat, i: nat) {
    (x / Pow2(i)) % 2 == 1
  }

  predicate BitOf(w: Word, i: nat) {
    Bit(w as nat, i)
  }

  /** `q` is `x` shifted to the right by `n`, rounding down. */
  predicate IsShifted(x: int, n: nat, q: int) {
    q * Pow2(n) <= x < (q + 1) * Pow2(n)
  }

  /** A quotient rounded toward zero, and a remainder with the sign of the dividend. */
  predicate Divides(x: int, y: int, q: int, rem: int) {
    && x == q * y + rem
    && (if rem < 0 then -rem else rem) < (if y < 0 then -y else y)
    && (x >= 0 ==> rem >= 0) && (x <= 0 ==> rem <= 0)
  }

  // ---- what an instruction does ----

  type State = Arch<Memory>

  /** The value of a register; number 0 is always 0. */
  function Value(a: State, r: nat): Word
    requires WellFormed(a) && r < 32
  {
    if r == 0 then 0 else a.regs[r]
  }

  /** The other registers stay as they were, and so does number 0. */
  ghost predicate OthersStay(a: State, b: State, r: nat)
    requires WellFormed(a) && WellFormed(b)
  {
    forall k :: 0 <= k < 32 && (k != r || k == 0) ==> b.regs[k] == a.regs[k]
  }

  predicate IsTruth(v: Word, holds: bool) {
    v == if holds then 1 else 0
  }

  /** What goes into the destination register; operations without a result leave 0 there. */
  ghost predicate Computes(r: RegisterOp, x: Word, y: Word, shamt: nat, a: State, v: Word) {
    match r
    case Sll => Congruent(v as int, y as int * Pow2(shamt))
    case Sllv => Congruent(v as int, y as int * Pow2((x % 32) as nat))
    case Srl => IsShifted(y as int, shamt, v as int)
    case Srlv => IsShifted(y as int, (x % 32) as nat, v as int)
    case Sra => forall s, t :: IsSigned(y, s) && IsSigned(v, t) ==> IsShifted(s, shamt, t)
    case Srav => forall s, t :: IsSigned(y, s) && IsSigned(v, t) ==> IsShifted(s, (x % 32) as nat, t)
    case Jr => Congruent(v as int, a.pc as int + 4)
    case Jalr => Congruent(v as int, a.pc as int + 4)
    case Mfhi => v == a.hi
    case Mflo => v == a.lo
    case Add => Congruent(v as int, x as int + y as int)
    case Addu => Congruent(v as int, x as int + y as int)
    case Sub => Congruent(v as int + y as int, x as int)
    case Subu => Congruent(v as int + y as int, x as int)
    case BitAnd => forall i: nat :: i < 32 ==> (BitOf(v, i) <==> BitOf(x, i) && BitOf(y, i))
    case BitOr => forall i: nat :: i < 32 ==> (BitOf(v, i) <==> BitOf(x, i) || BitOf(y, i))
    case BitXor => forall i: nat :: i < 32 ==> (BitOf(v, i) <==> BitOf(x, i) != BitOf(y, i))
    case BitNor => forall i: nat :: i < 32 ==> (BitOf(v, i) <==> !BitOf(x, i) && !BitOf(y, i))
    case Slt => forall s, t :: IsSigned(x, s) && IsSigned(y, t) ==> IsTruth(v, s < t)
    case Sltu => IsTruth(v, x < y)
    case _ => v == 0
  }

  /** What goes into HI and LO.  The least integer divided by -1 has no quotient that fits. */
  ghost predicate Multiplies(r: RegisterOp, x: Word, y: Word, a: State, hi: Word, lo: Word) {
    match r
    case Mult =>
      forall s, t, h :: IsSigned(x, s) && IsSigned(y, t) && IsSigned(hi, h) ==> h * 0x1_0000_0000 + lo as int == s * t
    case Multu => hi as int * 0x1_0000_0000 + lo as int == x as int * y as int
    case Div =>
      if y == 0 then hi == 0 && lo == 0
      else if x == 0x8000_0000 && y == 0xFFFF_FFFF then hi == 0 && lo == x
      else forall s, t, q, rem :: IsSigned(x, s) && IsSigned(y, t) && IsSigned(lo, q) && IsSigned(hi, rem) ==>
                                    Divides(s, t, q, rem)
    case Divu =>
      if y == 0 then hi == 0 && lo == 0
      else x as int == lo as int * y as int + hi as int && hi < y
    case Mthi => hi == x && lo == a.lo
    case Mtlo => hi == a.hi && lo == x
    case _ => hi == a.hi && lo == a.lo
  }

  ghost predicate NextInstruction(a: State, b: State) {
    Congruent(b.pc as int, a.pc as int + 4)
  }

  /** A branch by so many instructions is taken, or not. */
  ghost predicate Branches(taken: bool, imm: nat, a: State, b: State) {
    if taken then forall s :: IsSignedHalf(imm, s) ==> Congruent(b.pc as int, a.pc as int + 4 + 4 * s)
    else NextInstruction(a, b)
  }

  predicate IsBranch(i: ImmediateOp) {
    i.Beq? || i.Bne? || i.Blez? || i.Bgtz?
  }

  predicate IsStore(i: ImmediateOp) {
    i.Sb? || i.Sh? || i.Sw?
  }

  ghost predicate Decides(i: ImmediateOp, x: Word, y: Word, imm: nat, a: State, b: State) {
    match i
    case Beq => Branches(x == y, imm, a, b)
    case Bne => Branches(x != y, imm, a, b)
    case Blez => forall s :: IsSigned(x, s) ==> Branches(s <= 0, imm, a, b)
    case Bgtz => forall s :: IsSigned(x, s) ==> Branches(s > 0, imm, a, b)
    case _ => NextInstruction(a, b)
  }

  // ---- memory ----

  /** The five regions of the memory: text, data, stack, and the two of the kernel. */
  predicate InRegion(addr: Word) {
    || 0x0040_0000 <= addr < 0x0050_0000 || 0x1000_0000 <= addr < 0x1010_0000 || 0x7ff0_0000 <= addr < 0x8000_0000
    || 0x8000_0000 <= addr < 0x8010_0000 || 0x9000_0000 <= addr < 0x9010_0000
  }

  function ByteOf(m: Memory, addr: int): int {
    if 0 <= addr < 0x1_0000_0000 && addr as Word in m then m[addr as Word] else 0
  }

  function Bytes(i: ImmediateOp): nat {
    match i
    case Lw => 4 case Sw => 4 case Lh => 2 case Lhu => 2 case Sh => 2 case _ => 1
  }

  /** Where an access starts: its address, rounded down to its width. */
  function LaneOf(i: ImmediateOp, addr: Word): int {
    addr as int - addr as int % Bytes(i)
  }

  /** The number in `n` bytes, the lowest first. */
  function NumberIn(m: Memory, from: int, n: nat): int {
    if n == 0 then 0 else NumberIn(m, from, n - 1) + ByteOf(m, from + n - 1) * Pow2(8 * (n - 1))
  }

  /** A number of so many bits is extended by its sign. */
  predicate ExtendsSign(v: Word, n: int, half: int) {
    Congruent(v as int, if n < half then n else n - 2 * half)
  }

  ghost predicate Loads(i: ImmediateOp, m: Memory, addr: Word, v: Word) {
    var n := if InRegion(addr) then NumberIn(m, LaneOf(i, addr), Bytes(i)) else 0;
    match i
    case Lh => ExtendsSign(v, n, 0x8000)
    case Lb => ExtendsSign(v, n, 0x80)
    case _ => v as int == n
  }

  /** The bytes of the lane become the lowest ones of the value, and no other byte changes. */
  ghost predicate Stores(i: ImmediateOp, m: Memory, addr: Word, y: Word, after: Memory) {
    var from := LaneOf(i, addr);
    forall k :: 0 <= k < 0x1_0000_0000 ==>
      ByteOf(after, k) ==
        if InRegion(addr) && from <= k < from + Bytes(i) then (y as int / Pow2(8 * (k - from))) % 0x100
                          else ByteOf(m, k)
  }

  ghost predicate ComputesImmediate(i: ImmediateOp, x: Word, imm: nat, m: Memory, v: Word) {
    match i
    case Addi => IsSum(v, x, imm)
    case Addiu => IsSum(v, x, imm)
    case Slti => forall s, t :: IsSigned(x, s) && IsSignedHalf(imm, t) ==> IsTruth(v, s < t)
    case Sltiu => forall u: Word :: IsSum(u, 0, imm) ==> IsTruth(v, x < u)
    case Andi => forall i: nat :: i < 32 ==> (BitOf(v, i) <==> BitOf(x, i) && Bit(imm, i))
    case Ori => forall i: nat :: i < 32 ==> (BitOf(v, i) <==> BitOf(x, i) || Bit(imm, i))
    case Xori => forall i: nat :: i < 32 ==> (BitOf(v, i) <==> BitOf(x, i) != Bit(imm, i))
    case Lui => v as int == imm * 0x1_0000
    case _ => forall addr: Word :: IsSum(addr, x, imm) ==> Loads(i, m, addr, v)
  }

  ghost predicate StoresImmediate(i: ImmediateOp, x: Word, imm: nat, y: Word, m: Memory, after: Memory) {
    forall addr: Word :: IsSum(addr, x, imm) ==> Stores(i, m, addr, y, after)
  }

  // ---- all together ----

  /** The instruction leads from one state to the other. */
  ghost predicate Means(i: Instruction, a: State, b: State)
    requires IsInstruction(i) && WellFormed(a) && WellFormed(b)
  {
    match i
    case OnRegisters(r, rs, rt, rd, shamt) =>
      var x, y := Value(a, rs), Value(a, rt);
      && OthersStay(a, b, rd) && (rd != 0 ==> Computes(r, x, y, shamt, a, b.regs[rd]))
      && Multiplies(r, x, y, a, b.hi, b.lo) && b.mem == a.mem
      && (if r.Jr? || r.Jalr? then b.pc == x else NextInstruction(a, b))
    case OnImmediate(o, rs, rt, imm) =>
      var x, y := Value(a, rs), Value(a, rt);
      && b.hi == a.hi && b.lo == a.lo && Decides(o, x, y, imm, a, b)
      && (if IsStore(o) then StoresImmediate(o, x, imm, y, a.mem, b.mem) else b.mem == a.mem)
      && (if IsStore(o) || IsBranch(o) then b.regs == a.regs
          else OthersStay(a, b, rt) && (rt != 0 ==> ComputesImmediate(o, x, imm, a.mem, b.regs[rt])))
    case OnZero(z, rs, imm) =>
      && b.hi == a.hi && b.lo == a.lo && b.mem == a.mem
      && (forall s :: IsSigned(Value(a, rs), s) ==>
            Branches(if z.Bltz? || z.Bltzal? then s < 0 else s >= 0, imm, a, b))
      && (if z.Bltzal? || z.Bgezal? then Links(a, b) else b.regs == a.regs)
    case Jump(links, target) =>
      && b.hi == a.hi && b.lo == a.lo && b.mem == a.mem
      && b.pc as int / 0x1000_0000 == a.pc as int / 0x1000_0000 && b.pc as int % 0x1000_0000 == 4 * target
      && (if links then Links(a, b) else b.regs == a.regs)
  }

  /** Register 31 gets the address of the following instruction. */
  ghost predicate Links(a: State, b: State)
    requires WellFormed(a) && WellFormed(b)
  {
    OthersStay(a, b, 31) && Congruent(b.regs[31] as int, a.pc as int + 4)
  }
}
