/**
 The five-stage pipeline: its cycle as a clocked machine, where every slot's next content is given
 by the slots of the cycle before, and the class whose stage methods run back to front and update
 the slots in place.  The class is proved to implement the clocked machine.
 */
module Pipeline {
  import opened Common
  import opened MipsOps

  /** The pipeline between two cycles, when no branch recovery is pending. */
  datatype State<Mem> = State(
    pc: Word, regs: seq<Word>, hi: Word, lo: Word, mem: Mem,
    decodeOp: Option<Op>, executeOp: Option<Op>, memOp: Option<Op>, wbOp: Option<Op>,
    mulStall: nat, instStall: nat, dataStall: nat,
    running: bool, retired: nat)

  const MISS_STALL: nat := 48

  ghost predicate WellFormed<Mem>(s: State<Mem>) {
    IsRegisterFile(s.regs)
  }

  // ---- which stages move their operation on in this cycle ----

  /** The data cache is looked up in this cycle. */
  predicate AccessesData<Mem>(s: State<Mem>) {
    s.dataStall == 0 && s.memOp.Some? && s.memOp.value.isMem
  }

  predicate MemFires<Mem>(s: State<Mem>, dataHit: bool) {
    s.dataStall == 0 && s.memOp.Some? && (s.memOp.value.isMem ==> dataHit)
  }

  /** The execute stage reaches its operation: the slot after it is empty or is just being emptied. */
  predicate ExecuteReached<Mem>(s: State<Mem>, dataHit: bool) {
    s.executeOp.Some? && (s.memOp.None? || MemFires(s, dataHit))
  }

  predicate ExecuteFires<Mem>(s: State<Mem>, dataHit: bool) {
    ExecuteReached(s, dataHit) && (WaitsForMultiplier(s.executeOp.value) ==> s.mulStall <= 1)
  }

  predicate DecodeFires<Mem>(s: State<Mem>, dataHit: bool) {
    s.decodeOp.Some? && (s.executeOp.None? || ExecuteFires(s, dataHit))
  }

  /** The instruction cache is looked up in this cycle. */
  predicate Fetches<Mem>(s: State<Mem>, dataHit: bool) {
    s.instStall == 0 && (s.decodeOp.None? || DecodeFires(s, dataHit))
  }

  predicate Exits<Mem>(s: State<Mem>) {
    s.wbOp.Some? && IsExit(s.wbOp.value)
  }

  // ---- what the slots hold next ----

  /** The registers as the execute stage sees them: write-back and the bypass give the same values. */
  function Forwarded(regs: seq<Word>, op: Option<Op>): (after: seq<Word>)
    requires IsRegisterFile(regs)
    ensures IsRegisterFile(after)
  {
    if op.Some? then WriteBack(regs, op.value) else regs
  }

  function RegsAfterWb<Mem>(s: State<Mem>): (regs: seq<Word>)
    requires WellFormed(s)
    ensures IsRegisterFile(regs)
  {
    Forwarded(s.regs, s.wbOp)
  }

  /** What the memory stage hands to write-back ... */
  function NextWb<Mem>(isa: Isa<Mem>, s: State<Mem>, dataHit: bool): Option<Op> {
    if MemFires(s, dataHit) then Some(Access(isa, s.memOp.value, s.mem).0) else None
  }

  /** ... and the data memory it leaves. */
  function NextMem<Mem>(isa: Isa<Mem>, s: State<Mem>, dataHit: bool): Mem {
    if MemFires(s, dataHit) then Access(isa, s.memOp.value, s.mem).1 else s.mem
  }

  /** The operation in the execute slot once it has read its operands. */
  function WithBypass<Mem>(isa: Isa<Mem>, s: State<Mem>, dataHit: bool): Op
    requires WellFormed(s) && s.executeOp.Some?
  {
    WithOperands(s.executeOp.value, Forwarded(RegsAfterWb(s), NextWb(isa, s, dataHit)))
  }

  function AfterExecute<Mem>(isa: Isa<Mem>, s: State<Mem>, dataHit: bool): Executed
    requires WellFormed(s) && s.executeOp.Some?
  {
    Execute(isa, WithBypass(isa, s, dataHit), s.hi, s.lo)
  }

  /** A taken branch leaves the execute stage: everything younger is thrown away. */
  predicate Recovers<Mem>(isa: Isa<Mem>, s: State<Mem>, dataHit: bool)
    requires WellFormed(s)
  {
    ExecuteFires(s, dataHit) && AfterExecute(isa, s, dataHit).op.branchTaken
  }

  /** The pc the fetch stage uses: a retiring exit call has already moved it. */
  function FetchPc<Mem>(s: State<Mem>): Word {
    if Exits(s) then Following(s.wbOp.value.pc) else s.pc
  }

  /** What leaves the execute stage; with no operation executed, HI, LO and the multiplier stay. */
  function ExecuteOutcome<Mem>(isa: Isa<Mem>, s: State<Mem>, dataHit: bool): Executed
    requires WellFormed(s)
  {
    if ExecuteFires(s, dataHit) then AfterExecute(isa, s, dataHit) else Executed(RawOp(0, 0), s.hi, s.lo, 0)
  }

  function NextMemOp<Mem>(isa: Isa<Mem>, s: State<Mem>, dataHit: bool): Option<Op>
    requires WellFormed(s)
  {
    if ExecuteFires(s, dataHit) then Some(ExecuteOutcome(isa, s, dataHit).op)
    else if MemFires(s, dataHit) then None
    else s.memOp
  }

  /** What execute leaves in its slot: a stalled operation keeps the operands it read. */
  function ExecuteSlotLeft<Mem>(isa: Isa<Mem>, s: State<Mem>, dataHit: bool): Option<Op>
    requires WellFormed(s)
  {
    if ExecuteFires(s, dataHit) then None
    else if ExecuteReached(s, dataHit) then Some(WithBypass(isa, s, dataHit))
    else s.executeOp
  }

  /** The execute slot, had there been no recovery. */
  function NextExecuteOp<Mem>(isa: Isa<Mem>, s: State<Mem>, dataHit: bool): Option<Op>
    requires WellFormed(s)
  {
    if DecodeFires(s, dataHit) then Some(Decode(isa, s.decodeOp.value)) else ExecuteSlotLeft(isa, s, dataHit)
  }

  predicate Fetched<Mem>(s: State<Mem>, dataHit: bool, instHit: bool) {
    Fetches(s, dataHit) && instHit
  }

  /** The decode slot, had there been no recovery. */
  function NextDecodeOp<Mem>(isa: Isa<Mem>, s: State<Mem>, dataHit: bool, instHit: bool): Option<Op> {
    if Fetched(s, dataHit, instHit) then Some(RawOp(FetchPc(s), Fetch(isa, FetchPc(s))))
    else if DecodeFires(s, dataHit) then None
    else s.decodeOp
  }

  /** The fetch pc, had there been no recovery. */
  function NextFetchPc<Mem>(s: State<Mem>, dataHit: bool, instHit: bool): Word {
    if Fetched(s, dataHit, instHit) && s.running && !Exits(s) then Following(FetchPc(s)) else FetchPc(s)
  }

  function NextMulStall(stall: nat, latency: Latency): nat {
    if latency > 0 then latency else if stall > 0 then stall - 1 else 0
  }

  function NextMissStall(stall: nat, missed: bool): nat {
    if stall > 0 then stall - 1 else if missed then MISS_STALL else 0
  }

  /** The five stages; `dataHit` and `instHit` are the caches' answers, where they are asked. */
  function Stages<Mem>(isa: Isa<Mem>, s: State<Mem>, dataHit: bool, instHit: bool): (t: State<Mem>)
    requires WellFormed(s)
    ensures WellFormed(t)
  {
    var outcome := ExecuteOutcome(isa, s, dataHit);
    State(
      NextFetchPc(s, dataHit, instHit), RegsAfterWb(s), outcome.hi, outcome.lo, NextMem(isa, s, dataHit),
      NextDecodeOp(isa, s, dataHit, instHit), NextExecuteOp(isa, s, dataHit),
      NextMemOp(isa, s, dataHit), NextWb(isa, s, dataHit),
      NextMulStall(s.mulStall, outcome.latency),
      NextMissStall(s.instStall, Fetches(s, dataHit) && !instHit),
      NextMissStall(s.dataStall, AccessesData(s) && !dataHit),
      s.running && !Exits(s),
      s.retired + if s.wbOp.Some? then 1 else 0)
  }

  /** One clock cycle: the stages, and the recovery that a taken branch scheduled. */
  function Tick<Mem>(isa: Isa<Mem>, s: State<Mem>, dataHit: bool, instHit: bool): (t: State<Mem>)
    requires WellFormed(s)
    ensures WellFormed(t)
  {
    var t := Stages(isa, s, dataHit, instHit);
    if Recovers(isa, s, dataHit) then
      t.(pc := ExecuteOutcome(isa, s, dataHit).op.branchDest, decodeOp := None, executeOp := None)
    else
      t
  }

  /** The state that initialisation leaves: everything zero but the pc. */
  function Initial<Mem>(pc: Word, regs: seq<Word>, hi: Word, lo: Word, mem: Mem): State<Mem> {
    State(pc, regs, hi, lo, mem, None, None, None, None, 0, 0, 0, true, 0)
  }

  /** The pipeline as the simulator keeps it: slots, registers and counters, updated in place. */
  class Pipe<Mem> {
    const isa: Isa<Mem>
    const REGS: array<Word>
    var HI: Word
    var LO: Word
    var PC: Word
    var memory: Mem
    var decodeOp: Option<Op>
    var executeOp: Option<Op>
    var memOp: Option<Op>
    var wbOp: Option<Op>
    var branchRecover: bool
    var branchDest: Word
    var branchFlush: int
    var multiplierStall: nat
    var instCacheStall: nat
    var dataCacheStall: nat
    var RUN_BIT: bool
    var statInstRetire: nat

    ghost predicate Valid()
      reads this
    {
      REGS.Length == 32
    }

    ghost function View(): (s: State<Mem>)
      requires Valid()
      reads this, REGS
      ensures WellFormed(s)
    {
      State(PC, REGS[..], HI, LO, memory, decodeOp, executeOp, memOp, wbOp,
            multiplierStall, instCacheStall, dataCacheStall, RUN_BIT, statInstRetire)
    }

    constructor (isa: Isa<Mem>, memory: Mem)
      ensures Valid() && fresh(REGS) && this.isa == isa
      ensures View() == State(0x00400000, seq(32, i => 0), 0, 0, memory, None, None, None, None, 0, 0, 0, true, 0)
      ensures !branchRecover
    {
      this.isa := isa;
      REGS := new Word[32](i => 0);
      HI, LO, PC := 0, 0, 0x00400000;
      this.memory := memory;
      decodeOp, executeOp, memOp, wbOp := None, None, None, None;
      branchRecover, branchDest, branchFlush := false, 0, 0;
      multiplierStall, instCacheStall, dataCacheStall := 0, 0, 0;
      RUN_BIT, statInstRetire := true, 0;
    }

    method StageWb()
      requires Valid()
      modifies this`wbOp, this`PC, this`RUN_BIT, this`statInstRetire, REGS
      ensures Valid()
      ensures wbOp == None
      ensures REGS[..] == RegsAfterWb(old(View()))
      ensures PC == FetchPc(old(View()))
      ensures RUN_BIT == (old(RUN_BIT) && !Exits(old(View())))
      ensures statInstRetire == old(statInstRetire) + if old(wbOp).Some? then 1 else 0
    {
      if wbOp.None? {
        return;
      }
      var op := wbOp.value;
      wbOp := None;
      if op.dst != -1 && op.dst != 0 {
        REGS[op.dst] := op.dstValue;
      }
      assert REGS[..] == WriteBack(old(REGS[..]), op);
      if op.opcode == OP_SPECIAL && op.subop == SUBOP_SYSCALL {
        if op.value1 == 0xA {
          PC := Following(op.pc);
          RUN_BIT := false;
        }
      }
      statInstRetire := statInstRetire + 1;
    }

    method StageMem(dataHit: bool)
      requires Valid() && wbOp.None?
      modifies this`dataCacheStall, this`memOp, this`wbOp, this`memory
      ensures wbOp == NextWb(isa, old(View()), dataHit)
      ensures memory == NextMem(isa, old(View()), dataHit)
      ensures memOp == if MemFires(old(View()), dataHit) then None else old(memOp)
      ensures dataCacheStall == NextMissStall(old(dataCacheStall), AccessesData(old(View())) && !dataHit)
    {
      if dataCacheStall > 0 {
        dataCacheStall := dataCacheStall - 1;
        return;
      }
      if memOp.None? {
        return;
      }
      var op := memOp.value;
      if op.isMem {
        if !dataHit {
          dataCacheStall := MISS_STALL;
          return;
        }
      }
      var (done, mem) := Access(isa, op, memory);
      memory := mem;
      memOp := None;
      wbOp := Some(done);
    }

    /** One operand: register zero, the value just leaving the memory stage, or the register file. */
    method ReadOperand(src: RegId, unused: Word) returns (value: Word)
      requires Valid()
      ensures value == ReadReg(Forwarded(REGS[..], wbOp), src, unused)
    {
      if src == -1 {
        value := unused;
      } else if src == 0 {
        value := 0;
      } else if wbOp.Some? && wbOp.value.dst == src {
        value := wbOp.value.dstValue;
      } else {
        value := REGS[src];
      }
    }

    method Recover(flush: int, dest: Word)
      modifies this`branchRecover, this`branchFlush, this`branchDest
      ensures branchRecover
      ensures if old(branchRecover) then branchFlush == old(branchFlush) && branchDest == old(branchDest)
              else branchFlush == flush && branchDest == dest
    {
      if branchRecover {
        return;
      }
      branchRecover := true;
      branchFlush := flush;
      branchDest := dest;
    }

    method StageExecute()
      requires Valid() && !branchRecover
      modifies this`multiplierStall, this`HI, this`LO, this`executeOp, this`memOp,
               this`branchRecover, this`branchFlush, this`branchDest
      ensures
        var regs := Forwarded(REGS[..], wbOp);
        var reached := old(memOp).None? && old(executeOp).Some?;
        var fires := reached && (WaitsForMultiplier(old(executeOp).value) ==> old(multiplierStall) <= 1);
        var executed := if fires then Execute(isa, WithOperands(old(executeOp).value, regs), old(HI), old(LO))
                        else Executed(RawOp(0, 0), old(HI), old(LO), 0);
        && HI == executed.hi && LO == executed.lo
        && multiplierStall == NextMulStall(old(multiplierStall), executed.latency)
        && memOp == (if fires then Some(executed.op) else old(memOp))
        && executeOp == (if fires then None
                         else if reached then Some(WithOperands(old(executeOp).value, regs))
                         else old(executeOp))
        && branchRecover == (fires && executed.op.branchTaken)
        && (branchRecover ==> branchFlush == 3 && branchDest == executed.op.branchDest)
    {
      if multiplierStall > 0 {
        multiplierStall := multiplierStall - 1;
      }
      if memOp.Some? {
        return;
      }
      if executeOp.None? {
        return;
      }
      var op := executeOp.value;
      var value1 := ReadOperand(op.src1, op.value1);
      var value2 := ReadOperand(op.src2, op.value2);
      op := op.(value1 := value1, value2 := value2);
      executeOp := Some(op);
      if WaitsForMultiplier(op) && multiplierStall > 0 {
        return;
      }
      var executed := Execute(isa, op, HI, LO);
      HI, LO := executed.hi, executed.lo;
      if executed.latency > 0 {
        multiplierStall := executed.latency;
      }
      if executed.op.branchTaken {
        Recover(3, executed.op.branchDest);
      }
      executeOp := None;
      memOp := Some(executed.op);
    }

    method StageDecode()
      modifies this`decodeOp, this`executeOp
      ensures if old(executeOp).None? && old(decodeOp).Some?
              then executeOp == Some(Decode(isa, old(decodeOp).value)) && decodeOp == None
              else executeOp == old(executeOp) && decodeOp == old(decodeOp)
    {
      if executeOp.Some? {
        return;
      }
      if decodeOp.None? {
        return;
      }
      var op := decodeOp.value;
      decodeOp := None;
      executeOp := Some(Decode(isa, op));
    }

    method StageFetch(instHit: bool)
      modifies this`instCacheStall, this`decodeOp, this`PC
      ensures
        var fetches := old(instCacheStall) == 0 && old(decodeOp).None?;
        && instCacheStall == NextMissStall(old(instCacheStall), fetches && !instHit)
        && decodeOp == (if fetches && instHit then Some(RawOp(old(PC), Fetch(isa, old(PC)))) else old(decodeOp))
        && PC == (if fetches && instHit && RUN_BIT then Following(old(PC)) else old(PC))
    {
      if instCacheStall > 0 {
        instCacheStall := instCacheStall - 1;
        return;
      }
      if decodeOp.Some? {
        return;
      }
      if !instHit {
        instCacheStall := MISS_STALL;
        return;
      }
      decodeOp := Some(RawOp(PC, Fetch(isa, PC)));
      if RUN_BIT {
        PC := Following(PC);
      }
    }

    /** Write-back and memory. */
    method RunWbAndMem(dataHit: bool)
      requires Valid()
      modifies this`wbOp, this`PC, this`RUN_BIT, this`statInstRetire, REGS,
               this`dataCacheStall, this`memOp, this`memory
      ensures Valid()
      ensures
        var s := old(View());
        View() == s.(
          pc := FetchPc(s), regs := RegsAfterWb(s), mem := NextMem(isa, s, dataHit), wbOp := NextWb(isa, s, dataHit),
          memOp := if MemFires(s, dataHit) then None else s.memOp,
          dataStall := NextMissStall(s.dataStall, AccessesData(s) && !dataHit),
          running := s.running && !Exits(s), retired := s.retired + if s.wbOp.Some? then 1 else 0)
    {
      StageWb();
      StageMem(dataHit);
    }

    /** Write-back, memory and execute. */
    method RunBackEnd(dataHit: bool)
      requires Valid() && !branchRecover
      modifies this`wbOp, this`PC, this`RUN_BIT, this`statInstRetire, REGS,
               this`dataCacheStall, this`memOp, this`memory, this`multiplierStall, this`HI, this`LO,
               this`executeOp, this`branchRecover, this`branchFlush, this`branchDest
      ensures Valid()
      ensures
        var s := old(View());
        var outcome := ExecuteOutcome(isa, s, dataHit);
        && View() == s.(
          pc := FetchPc(s), regs := RegsAfterWb(s), hi := outcome.hi, lo := outcome.lo,
          mem := NextMem(isa, s, dataHit), memOp := NextMemOp(isa, s, dataHit), wbOp := NextWb(isa, s, dataHit),
          executeOp := ExecuteSlotLeft(isa, s, dataHit),
          mulStall := NextMulStall(s.mulStall, outcome.latency),
          dataStall := NextMissStall(s.dataStall, AccessesData(s) && !dataHit),
          running := s.running && !Exits(s), retired := s.retired + if s.wbOp.Some? then 1 else 0)
        && branchRecover == Recovers(isa, s, dataHit)
        && (branchRecover ==> branchFlush == 3 && branchDest == outcome.op.branchDest)
    {
      RunWbAndMem(dataHit);
      StageExecute();
    }

    /** The five stages, last to first; a recovery they schedule is still pending afterwards. */
    method RunStages(dataHit: bool, instHit: bool)
      requires Valid() && !branchRecover
      modifies this, REGS
      ensures Valid()
      ensures View() == Stages(isa, old(View()), dataHit, instHit)
      ensures branchRecover == Recovers(isa, old(View()), dataHit)
      ensures branchRecover ==>
                branchFlush == 3 && branchDest == ExecuteOutcome(isa, old(View()), dataHit).op.branchDest
    {
      RunBackEnd(dataHit);
      StageDecode();
      StageFetch(instHit);
    }

    /** Redirect the fetch stage and empty the slots of the flushed stages. */
    method CarryOutRecovery()
      requires branchRecover
      modifies this`PC, this`decodeOp, this`executeOp, this`memOp, this`wbOp,
               this`branchRecover, this`branchDest, this`branchFlush
      ensures !branchRecover
      ensures PC == old(branchDest)
      ensures decodeOp == if old(branchFlush) >= 2 then None else old(decodeOp)
      ensures executeOp == if old(branchFlush) >= 3 then None else old(executeOp)
      ensures memOp == if old(branchFlush) >= 4 then None else old(memOp)
      ensures wbOp == if old(branchFlush) >= 5 then None else old(wbOp)
    {
      PC := branchDest;
      if branchFlush >= 2 {
        decodeOp := None;
      }
      if branchFlush >= 3 {
        executeOp := None;
      }
      if branchFlush >= 4 {
        memOp := None;
      }
      if branchFlush >= 5 {
        wbOp := None;
      }
      branchRecover, branchDest, branchFlush := false, 0, 0;
    }

    /** One cycle: the stages run, then a scheduled recovery is carried out. */
    method Cycle(dataHit: bool, instHit: bool)
      requires Valid() && !branchRecover
      modifies this, REGS
      ensures Valid() && !branchRecover
      ensures View() == Tick(isa, old(View()), dataHit, instHit)
    {
      RunStages(dataHit, instHit);
      if branchRecover {
        CarryOutRecovery();
      }
    }
  }
}
