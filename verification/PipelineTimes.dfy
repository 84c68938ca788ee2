/**
 How long the pipeline stalls: a cache miss holds its stage for exactly 48 cycles, and HI and LO are ready 4 cycles
 after a multiplication and 32 after a division.
 */
module PipelineTimes {
  import opened Common
  import opened MipsOps
  import opened Pipeline
  import Mips32
  import S = MipsSteps
  import I = MipsInstructions
  import Seq = Sequential

  /** Any run of the pipeline, with any answers of the two caches. */
  datatype Run<!Mem> = Run(state: nat -> State<Mem>, dataHit: nat -> bool, instHit: nat -> bool)

  function At<Mem>(r: Run<Mem>, n: nat): State<Mem> {
    r.state(n)
  }

  ghost predicate IsRun<Mem>(isa: Isa<Mem>, r: Run<Mem>) {
    && (forall n: nat :: WellFormed(At(r, n)))
    && (forall n: nat, m: nat :: m == n + 1 ==> At(r, m) == Tick(isa, At(r, n), r.dataHit(n), r.instHit(n)))
  }

  /** The counters of a tick. */
  lemma TickCounts<Mem>(isa: Isa<Mem>, r: Run<Mem>, n: nat)
    requires IsRun(isa, r)
    ensures
      var s, t, hit := At(r, n), At(r, n + 1), r.dataHit(n);
      && t.instStall == NextMissStall(s.instStall, Fetches(s, hit) && !r.instHit(n))
      && t.dataStall == NextMissStall(s.dataStall, AccessesData(s) && !hit)
      && t.mulStall == NextMulStall(s.mulStall, ExecuteOutcome(isa, s, hit).latency)
      && (s.memOp.Some? && !MemFires(s, hit) ==> t.memOp == s.memOp)
  {
    var m: nat := n + 1;
    assert At(r, m) == Tick(isa, At(r, n), r.dataHit(n), r.instHit(n));
  }

  // ---- misses ----

  lemma {:induction false} FetchWaits<Mem>(isa: Isa<Mem>, r: Run<Mem>, n: nat, k: nat, t: nat)
    requires IsRun(isa, r) && Fetches(At(r, n), r.dataHit(n)) && !r.instHit(n) && 1 <= k <= 49 && t == n + k
    ensures At(r, t).instStall == 49 - k
    decreases k
  {
    if k > 1 {
      FetchWaits(isa, r, n, k - 1, t - 1);
    }
    TickCounts(isa, r, t - 1);
    hide Tick, IsRun;
  }

  /** A miss of the instruction cache in cycle n: nothing is fetched in the next 48 cycles, whatever else happens,
      and then the stage is free to fetch. */
  lemma FetchMissStalls<Mem>(isa: Isa<Mem>, r: Run<Mem>, n: nat, k: nat, t: nat)
    requires IsRun(isa, r) && Fetches(At(r, n), r.dataHit(n)) && !r.instHit(n) && 1 <= k <= 49 && t == n + k
    ensures k <= 48 ==> !Fetches(At(r, t), r.dataHit(t))
    ensures k == 49 ==>
              (Fetches(At(r, t), r.dataHit(t)) <==> At(r, t).decodeOp.None? || DecodeFires(At(r, t), r.dataHit(t)))
  {
    FetchWaits(isa, r, n, k, t);
  }

  lemma {:induction false} DataWaits<Mem>(isa: Isa<Mem>, r: Run<Mem>, n: nat, k: nat, t: nat)
    requires IsRun(isa, r) && AccessesData(At(r, n)) && !r.dataHit(n) && 1 <= k <= 49 && t == n + k
    ensures At(r, t).dataStall == 49 - k && At(r, t).memOp == At(r, n).memOp
    decreases k
  {
    if k > 1 {
      DataWaits(isa, r, n, k - 1, t - 1);
    }
    TickCounts(isa, r, t - 1);
    hide Tick, IsRun;
  }

  /** A miss of the data cache in cycle n: its operation stays in the memory stage for the next 48 cycles, and
      in the one after these it asks the cache again. */
  lemma DataMissStalls<Mem>(isa: Isa<Mem>, r: Run<Mem>, n: nat, k: nat, t: nat)
    requires IsRun(isa, r) && AccessesData(At(r, n)) && !r.dataHit(n) && 1 <= k <= 49 && t == n + k
    ensures At(r, t).memOp == At(r, n).memOp
    ensures k <= 48 ==> !MemFires(At(r, t), r.dataHit(t)) && !AccessesData(At(r, t))
    ensures k == 49 ==> AccessesData(At(r, t)) && (MemFires(At(r, t), r.dataHit(t)) <==> r.dataHit(t))
  {
    DataWaits(isa, r, n, k, t);
  }

  // ---- the multiplier ----

  /** The cycles that HI and LO take from the execution in cycle n on. */
  ghost function Started<Mem>(isa: Isa<Mem>, r: Run<Mem>, n: nat): nat
    requires IsRun(isa, r)
  {
    ExecuteOutcome(isa, At(r, n), r.dataHit(n)).latency
  }

  /** The multiplier is started in cycle n, and then not again before cycle t. */
  ghost predicate StartedLast<Mem>(isa: Isa<Mem>, r: Run<Mem>, n: nat, t: nat)
    requires IsRun(isa, r)
  {
    n < t && Started(isa, r, n) > 0 && forall m: nat :: n < m < t ==> Started(isa, r, m) == 0
  }

  lemma NextCount<Mem>(isa: Isa<Mem>, r: Run<Mem>, before: nat, t: nat)
    requires IsRun(isa, r) && t == before + 1
    ensures At(r, t).mulStall == NextMulStall(At(r, before).mulStall, Started(isa, r, before))
  {
    TickCounts(isa, r, before);
  }

  lemma {:induction false} CountsDown<Mem>(isa: Isa<Mem>, r: Run<Mem>, n: nat, t: nat)
    requires IsRun(isa, r) && StartedLast(isa, r, n, t)
    ensures At(r, t).mulStall == if t - n <= Started(isa, r, n) then Started(isa, r, n) - (t - n) + 1 else 0
    decreases t
  {
    hide IsRun, Started, At;
    var before: nat := t - 1;
    NextCount(isa, r, before, t);
    if before > n {
      assert Started(isa, r, before) == 0;
      CountsDown(isa, r, n, before);
    }
  }

  /** An operation on HI or LO is executed only when the multiplier has had all its cycles, and then at once. */
  lemma MultiplierWaits<Mem>(isa: Isa<Mem>, r: Run<Mem>, n: nat, t: nat)
    requires IsRun(isa, r) && StartedLast(isa, r, n, t)
    requires ExecuteReached(At(r, t), r.dataHit(t)) && WaitsForMultiplier(At(r, t).executeOp.value)
    ensures ExecuteFires(At(r, t), r.dataHit(t)) <==> t >= n + Started(isa, r, n)
  {
    CountsDown(isa, r, n, t);
  }

  /** The cycles that an instruction keeps HI and LO. */
  function MultiplierCycles(i: I.Instruction): nat {
    if !i.OnRegisters? then 0 else if i.r.Mult? || i.r.Multu? then 4 else if i.r.Div? || i.r.Divu? then 32 else 0
  }

  lemma LatencyIs(op: Op, hi: Word, lo: Word)
    ensures Mips32.ExecuteOp(op, hi, lo).latency ==
            if op.opcode != 0 then 0
            else if op.subop == 24 || op.subop == 25 then 4
            else if op.subop == 26 || op.subop == 27 then 32
            else 0
  {
    hide Mips32.And, Mips32.Or, Mips32.Xor, Mips32.ShiftLeft, Mips32.ShiftRight, Mips32.ShiftRightSigned, Mips32.Wrap,
      Mips32.Signed, Mips32.Quotient, Mips32.TakesBranch;
  }

  /** What the instructions start, and which of them wait. */
  lemma MultiplierTimes(a: I.State, i: I.Instruction)
    requires Seq.WellFormed(a) && I.IsInstruction(i)
    ensures S.ExecutedFor(a, i).latency == MultiplierCycles(i)
    ensures WaitsForMultiplier(Mips32.DecodeOp(RawOp(a.pc, S.WordOf(i)))) <==>
            i.OnRegisters? && i.r in {I.Mfhi, I.Mthi, I.Mflo, I.Mtlo}
  {
    var op := Mips32.DecodeOp(RawOp(a.pc, S.WordOf(i)));
    S.Decodes(i, a.pc);
    DecodedCode(i, a.pc, op);
    hide Mips32.DecodeOp, S.WordOf, S.IsDecoded, Mips32.ExecuteOp;
    LatencyIs(S.Operands(a, op), a.hi, a.lo);
  }

  lemma DecodedCode(i: I.Instruction, pc: Word, op: Op)
    requires I.IsInstruction(i) && S.IsDecoded(i, pc, op)
    ensures op.opcode == 0 <==> i.OnRegisters?
    ensures i.OnRegisters? ==> op.subop == I.Funct(i.r) as Word
  {
  }
}
