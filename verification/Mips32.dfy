/**
 The instruction set of the simulator: decoding, the ALU, and accesses to the byte-addressed memory.
 C leaves shifts by 32 or more and INT_MIN / -1 undefined; here the shift amount is taken modulo 32
 and the quotient wraps around.
 */
module Mips32 {
  import opened Common
  import opened MipsOps

  type Byte = b: int | 0 <= b < 256
  type Memory = map<Word, Byte>

  const OP_BRSPEC: Word := 0x01
  const OP_J: Word := 0x02
  const OP_JAL: Word := 0x03
  const OP_BEQ: Word := 0x04
  const OP_BNE: Word := 0x05
  const OP_BLEZ: Word := 0x06
  const OP_BGTZ: Word := 0x07
  const OP_ADDI: Word := 0x08
  const OP_ADDIU: Word := 0x09
  const OP_SLTI: Word := 0x0a
  const OP_SLTIU: Word := 0x0b
  const OP_ANDI: Word := 0x0c
  const OP_ORI: Word := 0x0d
  const OP_XORI: Word := 0x0e
  const OP_LUI: Word := 0x0f
  const OP_LB: Word := 0x20
  const OP_LH: Word := 0x21
  const OP_LW: Word := 0x23
  const OP_LBU: Word := 0x24
  const OP_LHU: Word := 0x25
  const OP_SB: Word := 0x28
  const OP_SH: Word := 0x29
  const OP_SW: Word := 0x2b

  const SUBOP_SLL: Word := 0x0
  const SUBOP_SRL: Word := 0x2
  const SUBOP_SRA: Word := 0x3
  const SUBOP_SLLV: Word := 0x4
  const SUBOP_SRLV: Word := 0x6
  const SUBOP_SRAV: Word := 0x7
  const SUBOP_JR: Word := 0x8
  const SUBOP_JALR: Word := 0x9
  const SUBOP_MULT: Word := 0x18
  const SUBOP_MULTU: Word := 0x19
  const SUBOP_DIV: Word := 0x1a
  const SUBOP_DIVU: Word := 0x1b
  const SUBOP_ADD: Word := 0x20
  const SUBOP_ADDU: Word := 0x21
  const SUBOP_SUB: Word := 0x22
  const SUBOP_SUBU: Word := 0x23
  const SUBOP_AND: Word := 0x24
  const SUBOP_OR: Word := 0x25
  const SUBOP_XOR: Word := 0x26
  const SUBOP_NOR: Word := 0x27
  const SUBOP_SLT: Word := 0x2A
  const SUBOP_SLTU: Word := 0x2B

  const BROP_BLTZ: Word := 0x00
  const BROP_BGEZ: Word := 0x1
  const BROP_BLTZAL: Word := 0x10
  const BROP_BGEZAL: Word := 0x11

  const LOADS: set<Word> := {OP_LW, OP_LH, OP_LHU, OP_LB, OP_LBU}
  const STORES: set<Word> := {OP_SW, OP_SH, OP_SB}

  // ---- 32-bit arithmetic ----

  const WORD_SIZE: int := 0x1_0000_0000

  function Wrap(i: int): Word {
    (i % WORD_SIZE) as Word
  }

  function Signed(w: Word): int {
    if w < 0x8000_0000 then w as int else w as int - WORD_SIZE
  }

  function ShiftLeft(w: Word, n: Word): Word {
    Wrap(w as int * Pow2((n % 32) as nat))
  }

  function ShiftRight(w: Word, n: Word): Word {
    Wrap(w as int / Pow2((n % 32) as nat))
  }

  function ShiftRightSigned(w: Word, n: Word): Word {
    Wrap(Signed(w) / Pow2((n % 32) as nat))
  }

  /** The bitwise operations on numbers. */
  function AndBits(x: nat, y: nat): nat {
    if x == 0 then 0 else (x % 2) * (y % 2) + 2 * AndBits(x / 2, y / 2)
  }

  function OrBits(x: nat, y: nat): nat {
    if x == 0 then y else Max(x % 2, y % 2) + 2 * OrBits(x / 2, y / 2)
  }

  function XorBits(x: nat, y: nat): nat {
    if x == 0 then y else (x % 2 + y % 2) % 2 + 2 * XorBits(x / 2, y / 2)
  }

  function And(x: Word, y: Word): Word {
    Wrap(AndBits(x as nat, y as nat))
  }

  function Or(x: Word, y: Word): Word {
    Wrap(OrBits(x as nat, y as nat))
  }

  function Xor(x: Word, y: Word): Word {
    Wrap(XorBits(x as nat, y as nat))
  }

  /** Division rounds toward zero. */
  function Quotient(a: int, b: int): int
    requires b != 0
  {
    if a >= 0 then a / b else -((-a) / b)
  }

  // ---- decode ----

  function DecodeOp(op: Op): Op {
    var w := op.instruction as int;
    var opcode := (w / 0x400_0000) as Word;
    var rs := (w / 0x20_0000) % 32;
    var rt := (w / 0x1_0000) % 32;
    var rd := (w / 0x800) % 32;
    var shamt := ((w / 0x40) % 32) as Word;
    var funct := (w % 0x40) as Word;
    var imm16 := (w % 0x1_0000) as Word;
    var seImm16 := if imm16 >= 0x8000 then imm16 + 0xFFFF_0000 else imm16;
    var relative := Wrap(op.pc as int + 4 + seImm16 as int * 4);
    var target := Wrap((op.pc as int / 0x1000_0000) * 0x1000_0000 + (w % 0x400_0000) * 4);
    var d := op.(opcode := opcode, imm16 := imm16, seImm16 := seImm16, shamt := shamt);
    if opcode == OP_SPECIAL then
      if funct == SUBOP_SYSCALL then d.(src1 := 2, src2 := 3, dst := rd, subop := funct)
      else d.(src1 := rs, src2 := rt, dst := rd, subop := funct)
    else if opcode == OP_BRSPEC then
      var b := d.(src1 := rs, src2 := rt, branchDest := relative, subop := rt as Word);
      if rt as Word == BROP_BLTZAL || rt as Word == BROP_BGEZAL then b.(dst := 31, dstValue := Following(op.pc)) else b
    else if opcode == OP_JAL then
      d.(dst := 31, dstValue := Following(op.pc), branchTaken := true, branchDest := target)
    else if opcode == OP_J then
      d.(branchTaken := true, branchDest := target)
    else if opcode in {OP_BEQ, OP_BNE, OP_BLEZ, OP_BGTZ} then
      d.(branchDest := relative, src1 := rs, src2 := rt)
    else if opcode in {OP_ADDI, OP_ADDIU, OP_SLTI, OP_SLTIU, OP_ANDI, OP_ORI, OP_XORI, OP_LUI} then
      d.(src1 := rs, dst := rt)
    else if opcode in LOADS then
      d.(isMem := true, src1 := rs, dst := rt)
    else if opcode in STORES then
      d.(isMem := true, src1 := rs, src2 := rt)
    else d
  }

  // ---- execute ----

  /** A product goes into HI and LO. */
  function Multiplied(op: Op, product: int): Executed {
    Executed(op, Wrap(product / WORD_SIZE), Wrap(product), 4)
  }

  /** The remainder goes into HI and the quotient into LO. */
  function Divided(op: Op, x: int, y: int): Executed
    requires y != 0
  {
    var q := Quotient(x, y);
    Executed(op, Wrap(x - q * y), Wrap(q), 32)
  }

  function ExecuteSpecial(op: Op, hi: Word, lo: Word): Executed {
    var x, y := op.value1, op.value2;
    var f := op.subop;
    if f == SUBOP_SLL then Result(op, ShiftLeft(y, op.shamt), hi, lo)
    else if f == SUBOP_SLLV then Result(op, ShiftLeft(y, x), hi, lo)
    else if f == SUBOP_SRL then Result(op, ShiftRight(y, op.shamt), hi, lo)
    else if f == SUBOP_SRLV then Result(op, ShiftRight(y, x), hi, lo)
    else if f == SUBOP_SRA then Result(op, ShiftRightSigned(y, op.shamt), hi, lo)
    else if f == SUBOP_SRAV then Result(op, ShiftRightSigned(y, x), hi, lo)
    else if f == SUBOP_JR || f == SUBOP_JALR then
      Executed(op.(dstValue := Following(op.pc), branchDest := x, branchTaken := true), hi, lo, 0)
    else if f == SUBOP_MULT then Multiplied(op, Signed(x) * Signed(y))
    else if f == SUBOP_MULTU then Multiplied(op, x as int * y as int)
    else if f == SUBOP_DIV then
      if y == 0 then Executed(op, 0, 0, 32) else Divided(op, Signed(x), Signed(y))
    else if f == SUBOP_DIVU then
      if y == 0 then Executed(op, 0, 0, 32) else Executed(op, x % y, x / y, 32)
    else if f == SUBOP_MFHI then Result(op, hi, hi, lo)
    else if f == SUBOP_MTHI then Executed(op, x, lo, 0)
    else if f == SUBOP_MFLO then Result(op, lo, hi, lo)
    else if f == SUBOP_MTLO then Executed(op, hi, x, 0)
    else if f == SUBOP_ADD || f == SUBOP_ADDU then Result(op, Wrap(x as int + y as int), hi, lo)
    else if f == SUBOP_SUB || f == SUBOP_SUBU then Result(op, Wrap(x as int - y as int), hi, lo)
    else if f == SUBOP_AND then Result(op, And(x, y), hi, lo)
    else if f == SUBOP_OR then Result(op, Or(x, y), hi, lo)
    else if f == SUBOP_NOR then Result(op, 0xFFFF_FFFF - Or(x, y), hi, lo)
    else if f == SUBOP_XOR then Result(op, Xor(x, y), hi, lo)
    else if f == SUBOP_SLT then Result(op, if Signed(x) < Signed(y) then 1 else 0, hi, lo)
    else if f == SUBOP_SLTU then Result(op, if x < y then 1 else 0, hi, lo)
    else Executed(op, hi, lo, 0)
  }

  function Result(op: Op, value: Word, hi: Word, lo: Word): Executed {
    Executed(op.(dstValue := value), hi, lo, 0)
  }

  predicate TakesBranch(op: Op) {
    var x := Signed(op.value1);
    || (op.opcode == OP_BRSPEC && (op.subop == BROP_BLTZ || op.subop == BROP_BLTZAL) && x < 0)
    || (op.opcode == OP_BRSPEC && (op.subop == BROP_BGEZ || op.subop == BROP_BGEZAL) && x >= 0)
    || (op.opcode == OP_BEQ && op.value1 == op.value2)
    || (op.opcode == OP_BNE && op.value1 != op.value2)
    || (op.opcode == OP_BLEZ && x <= 0)
    || (op.opcode == OP_BGTZ && x > 0)
  }

  function ExecuteOp(op: Op, hi: Word, lo: Word): Executed {
    var x := op.value1;
    var c := op.opcode;
    if c == OP_SPECIAL then ExecuteSpecial(op, hi, lo)
    else if c == OP_ADDI || c == OP_ADDIU then Result(op, Wrap(x as int + op.seImm16 as int), hi, lo)
    else if c == OP_SLTI then Result(op, if Signed(x) < Signed(op.seImm16) then 1 else 0, hi, lo)
    else if c == OP_SLTIU then Result(op, if x < op.seImm16 then 1 else 0, hi, lo)
    else if c == OP_ANDI then Result(op, And(x, op.imm16), hi, lo)
    else if c == OP_ORI then Result(op, Or(x, op.imm16), hi, lo)
    else if c == OP_XORI then Result(op, Xor(x, op.imm16), hi, lo)
    else if c == OP_LUI then Result(op, Wrap(op.imm16 as int * 0x1_0000), hi, lo)
    else if c in LOADS then Executed(op.(memAddr := Wrap(x as int + op.seImm16 as int)), hi, lo, 0)
    else if c in STORES then
      Executed(op.(memAddr := Wrap(x as int + op.seImm16 as int), memValue := op.value2), hi, lo, 0)
    else if TakesBranch(op) then Executed(op.(branchTaken := true), hi, lo, 0)
    else Executed(op, hi, lo, 0)
  }

  // ---- memory ----

  const REGION_STARTS: seq<Word> := [0x0040_0000, 0x1000_0000, 0x7ff0_0000, 0x9000_0000, 0x8000_0000]
  const REGION_SIZE: Word := 0x0010_0000

  predicate Mapped(a: Word) {
    exists i :: 0 <= i < |REGION_STARTS| && REGION_STARTS[i] <= a && (a - REGION_STARTS[i]) < REGION_SIZE
  }

  function ByteAt(m: Memory, a: int): Byte {
    if Wrap(a) in m then m[Wrap(a)] else 0
  }

  function Read32(m: Memory, a: Word): Word {
    var i := a as int;
    if Mapped(a) then
      (ByteAt(m, i) + 0x100 * ByteAt(m, i + 1) + 0x1_0000 * ByteAt(m, i + 2) + 0x100_0000 * ByteAt(m, i + 3)) as Word
    else 0
  }

  function Write32(m: Memory, a: Word, v: Word): Memory {
    var i, w := a as int, v as int;
    if Mapped(a) then
      m[Wrap(i) := w % 0x100][Wrap(i + 1) := (w / 0x100) % 0x100]
       [Wrap(i + 2) := (w / 0x1_0000) % 0x100][Wrap(i + 3) := w / 0x100_0000]
    else m
  }

  function Align(a: Word): Word {
    a - a % 4
  }

  /** Byte `k` of a word, and half-word `k` of a word. */
  function GetByte(w: Word, k: Word): Word
    requires k < 4
  {
    if k == 0 then w % 0x100 else if k == 1 then (w / 0x100) % 0x100
    else if k == 2 then (w / 0x1_0000) % 0x100 else w / 0x100_0000
  }

  function GetHalf(w: Word, k: Word): Word {
    if k == 0 then w % 0x1_0000 else w / 0x1_0000
  }

  function SetByte(w: Word, k: Word, b: Word): Word
    requires k < 4 && b < 0x100
  {
    if k == 0 then w - w % 0x100 + b
    else if k == 1 then w / 0x1_0000 * 0x1_0000 + b * 0x100 + w % 0x100
    else if k == 2 then w / 0x100_0000 * 0x100_0000 + b * 0x1_0000 + w % 0x1_0000
    else b * 0x100_0000 + w % 0x100_0000
  }

  function SetHalf(w: Word, k: Word, h: Word): Word
    requires h < 0x1_0000
  {
    if k == 0 then w / 0x1_0000 * 0x1_0000 + h else h * 0x1_0000 + w % 0x1_0000
  }

  function LoadedValue(opcode: Word, addr: Word, word: Word): Word {
    if opcode == OP_LW then word
    else if opcode == OP_LHU then GetHalf(word, addr / 2 % 2)
    else if opcode == OP_LH then
      var h := GetHalf(word, addr / 2 % 2);
      if h >= 0x8000 then h + 0xFFFF_0000 else h
    else
      var b := GetByte(word, addr % 4);
      if opcode == OP_LB && b >= 0x80 then b + 0xFFFF_FF00 else b
  }

  function StoredWord(opcode: Word, addr: Word, word: Word, value: Word): Word {
    if opcode == OP_SW then value
    else if opcode == OP_SH then SetHalf(word, addr / 2 % 2, value % 0x1_0000)
    else SetByte(word, addr % 4, value % 0x100)
  }

  function AccessMemory(op: Op, m: Memory): (Op, Memory) {
    var a := Align(op.memAddr);
    if op.opcode in LOADS then (op.(dstValue := LoadedValue(op.opcode, op.memAddr, Read32(m, a))), m)
    else if op.opcode in STORES then
      (op, Write32(m, a, StoredWord(op.opcode, op.memAddr, Read32(m, a), op.memValue)))
    else (op, m)
  }

  /** The instruction set over a fixed program text: the pipeline fetches ahead of its stores, so the
      text must not change while it runs. */
  function Isa32(text: Memory): Isa<Memory> {
    Isa((pc: Word) => Read32(text, pc), DecodeOp, ExecuteOp, AccessMemory)
  }
}
