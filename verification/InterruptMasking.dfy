/** After a trap no interrupt is taken until an SRET, or a write of sstatus, that opens interrupts. */
module InterruptMasking {
  import opened Bits
  import opened Words
  import opened PageWalk
  import opened Csrs
  import opened Decoder
  import opened HartState
  import opened Execute
  import opened Steps
  import opened Effects
  import opened Fronts
  import opened Privilege
  import opened Instructions
  import opened UserMode
  import opened CounterAccess
  import opened Departures
  import opened TrapNesting

  /** The step takes an interrupt. */
  ghost predicate Interrupted(s: State) {
    TakesInterrupt(AlignPc(s))
  }

  /**
   * An instruction that opens interrupts: SRET into user mode or with spie set, or a supervisor's CSR instruction on
   * sstatus whose result has sie set. A read of sstatus by a masked hart is not one, nor a user's attempt, which traps.
   */
  ghost predicate Opens(s: State, w: u32) {
    && IsType(w, SYSTEM) && DecodeOpcode(w).Some?
    && if IsOp(w, SRET) then Bit(s.csr.sstatus, 8) == 0 || Bit(s.csr.sstatus, 5) == 1
       else s.super && IsCsrOp(DecodeOpcode(w).value) && Imm12(w) == SSTATUS
            && Bit(StatusResult(s, w, DecodeOpcode(w).value), 1) == 1
  }

  predicate IsCsrOp(op: Opcode) {
    op in {CSRRW, CSRRS, CSRRC, CSRRWI, CSRRSI, CSRRCI}
  }

  /** What a CSR instruction writes to sstatus. */
  function StatusResult(s: State, w: u32, op: Opcode): u32 {
    CsrResult(op, s.csr.sstatus, GetRegister(s, Rs1(w)), Rs1(w))
  }

  /** The step executes such an instruction. */
  ghost predicate Reopens(s: State) {
    FrontOf(s).Fetched? && Opens(FrontOf(s).at, FrontOf(s).instr)
  }

  /** Some step of the run opens interrupts. */
  ghost predicate ReopensSomewhere(s: State, inputs: seq<Input>, p: period)
    decreases |inputs|
  {
    hide Step, Reopens;
    inputs != []
    && (Reopens(s) || (Step(s, inputs[0], p).Next? && ReopensSomewhere(Step(s, inputs[0], p).next, inputs[1..], p)))
  }

  /** Some step of the run takes an interrupt. */
  ghost predicate InterruptedSomewhere(s: State, inputs: seq<Input>, p: period)
    decreases |inputs|
  {
    hide Step, Interrupted;
    inputs != []
    && (Interrupted(s)
        || (Step(s, inputs[0], p).Next? && InterruptedSomewhere(Step(s, inputs[0], p).next, inputs[1..], p)))
  }

  lemma MaskedNotInterrupted(s: State)
    requires Masked(s)
    ensures !Interrupted(s)
  {
    hide EnterException, Bit, PendingCode;
    ExceptionMasks(s, 0, s.pc);
  }

  lemma SretMasked(s: State, w: u32)
    requires IsType(w, SYSTEM) && IsOp(w, SRET)
    ensures Masked(Sret(s)) <==> !Opens(s, w)
  {
    SretStatusBits(s.csr.sstatus);
    BitBound(s.csr.sstatus, 8);
    BitBound(s.csr.sstatus, 5);
    hide SretStatus, Bit, DecodeType, DecodeOpcode;
  }

  /** A supervisor's CSR instruction on sstatus writes its result; a user's traps. */
  lemma StatusWritten(s: State, w: u32, op: Opcode)
    requires IsCsrOp(op) && Imm12(w) == SSTATUS
    ensures var e := ExecCsr(s, w, op);
      && (e.Retire? <==> s.super)
      && (e.Retire? ==> e.next.super && e.next.csr.sstatus == StatusResult(s, w, op))
  {
    hide CsrResult, Imm12, Rs1, Rd;
  }

  /** No CSR instruction on another CSR touches sstatus. */
  lemma StatusOther(s: State, w: u32, op: Opcode)
    requires Imm12(w) != SSTATUS
    ensures var e := ExecCsr(s, w, op); e.Retire? ==> e.next.super == s.super && e.next.csr.sstatus == s.csr.sstatus
  {
    hide CsrResult, WriteRefused, CounterClosed, Imm12, Rs1, Rd;
  }

  lemma CsrMasked(s: State, w: u32, op: Opcode)
    requires Masked(s) && IsType(w, SYSTEM) && IsOp(w, op) && IsCsrOp(op) && ExecCsr(s, w, op).Retire?
    ensures Masked(ExecCsr(s, w, op).next) <==> !Opens(s, w)
  {
    if Imm12(w) == SSTATUS {
      StatusWritten(s, w, op);
      BitBound(StatusResult(s, w, op), 1);
    } else {
      StatusOther(s, w, op);
    }
    hide ExecCsr, StatusResult, Bit, DecodeType, DecodeOpcode, Imm12;
  }

  /** The instructions that are neither SRET nor CSR instructions. */
  lemma OtherMasked(s: State, w: u32, n: State)
    requires Masked(s) && Frame(s, w, Retire(n)) && !IsOp(w, SRET)
    requires IsType(w, SYSTEM) ==> n.csr.sstatus == s.csr.sstatus
    requires IsType(w, SYSTEM) && DecodeOpcode(w).Some? ==> !IsCsrOp(DecodeOpcode(w).value)
    ensures Masked(n) && !Opens(s, w)
  {
    hide Bit, DecodeType, DecodeOpcode, StatusResult, WritesStatus;
  }

  /** The calls and fences leave sstatus alone. */
  lemma CallKeepsStatus(s: State, w: u32, ch: u32, op: Opcode)
    requires IsOp(w, op) && op in {ECALL, SFENCE_VMA, SFENCE_INVAL_IR, SFENCE_W_INVAL, WFI}
    ensures var e := ExecSystem(s, w, ch); e.Retire? ==> e.next.csr.sstatus == s.csr.sstatus
  {
    hide DecodeOpcode, SetField, SretStatus;
  }

  /** From a masked state an instruction that retires leaves interrupts masked exactly if it does not open them. */
  lemma RetireMasked(s: State, w: u32, ch: u32, n: State)
    requires Masked(s) && Exec(s, w, ch) == Retire(n)
    ensures Masked(n) <==> !Opens(s, w)
  {
    hide Exec, Frame, Masked, Opens, DecodeType, DecodeOpcode, IsCsrOp, ExecCsr, ExecSystem, Sret;
    ExecFrame(s, w, ch);
    SretIsSystem(w);
    if !IsType(w, SYSTEM) {
      OtherMasked(s, w, n);
    } else {
      SystemDecoded(s, w, ch);
      SystemOps(w);
      var op := DecodeOpcode(w).value;
      if op == SRET {
        ExecSret(s, w, ch);
        SretMasked(s, w);
      } else if op in {CSRRW, CSRRS, CSRRC, CSRRWI, CSRRSI, CSRRCI} {
        CsrOps(op);
        CsrIs(s, w, ch, op);
        CsrMasked(s, w, op);
      } else if op in {EBREAK, SINVAL_VMA} {
        UnhandledThrow(s, w, ch);
      } else {
        CsrOps(op);
        SystemIs(s, w, ch);
        CallKeepsStatus(s, w, ch, op);
        OtherMasked(s, w, n);
      }
    }
  }

  lemma CsrOps(op: Opcode)
    ensures IsCsrOp(op) <==> op in {CSRRW, CSRRS, CSRRC, CSRRWI, CSRRSI, CSRRCI}
  {
  }

  lemma SystemDecoded(s: State, w: u32, ch: u32)
    requires IsType(w, SYSTEM) && Exec(s, w, ch).Retire?
    ensures DecodeOpcode(w).Some?
  {
    hide DecodeType, DecodeOpcode, ExecCsr, Sbi, Sret;
  }

  /** A trap raised by the instruction itself masks interrupts, and is raised by none that opens them. */
  lemma TrapMasks(at: State, w: u32, input: Input, p: period)
    requires Exec(at, w, input.ch).Trap?
    ensures Settle(Exec(at, w, input.ch), input.now, p).Next?
        && Masked(Settle(Exec(at, w, input.ch), input.now, p).next)
    ensures !Opens(at, w)
  {
    hide Exec, IncrementCounters, EnterException, Bit, Opens;
    var e := Exec(at, w, input.ch);
    ExceptionMasks(e.at, e.cause, e.tval);
    CountersKeep(EnterException(e.at, e.cause, e.tval), input.now, p);
    if Opens(at, w) {
      OpensRetires(at, w, input.ch);
    }
  }

  lemma OpensRetires(s: State, w: u32, ch: u32)
    requires Opens(s, w)
    ensures Exec(s, w, ch).Retire?
  {
    hide Exec, DecodeType, DecodeOpcode, ExecCsr, Bit, Imm12, StatusResult;
    var op := DecodeOpcode(w).value;
    if op == SRET {
      ExecSret(s, w, ch);
    } else {
      CsrIs(s, w, ch, op);
      StatusWritten(s, w, op);
    }
  }

  /**
   * A step that takes a trap, or starts masked, ends masked if and only if its instruction, in the state it executes
   * in, does not open interrupts.
   */
  lemma StepMasked(s: State, input: Input, p: period)
    requires Step(s, input, p).Next? && (Masked(s) || TakesTrap(s, input))
    ensures Masked(Step(s, input, p).next) <==> !Reopens(s)
  {
    hide FrontOf, Exec, IncrementCounters, EnterException, FrontTraps, Masked, Opens;
    FrontFrame(s);
    var at, w := FrontOf(s).at, FrontOf(s).instr;
    match Exec(at, w, input.ch)
    case Trap(_, _, _) => TrapMasks(at, w, input, p);
    case Retire(n) =>
      assert FrontTraps(s) == 0 ==> at == s;
      RetireMasked(at, w, input.ch, n);
      CountersMask(n, input.now, p);
  }

  lemma CountersMask(s: State, now: int, p: period)
    ensures Masked(IncrementCounters(s, now, p)) <==> Masked(s)
  {
    CountersKeep(s, now, p);
    hide IncrementCounters, Bit;
  }

  /** A masked hart takes no interrupt in any continuation in which no instruction opens interrupts. */
  lemma {:induction false} MaskedRun(s: State, inputs: seq<Input>, p: period)
    requires Masked(s) && !ReopensSomewhere(s, inputs, p)
    ensures !InterruptedSomewhere(s, inputs, p)
    decreases |inputs|
  {
    hide Step, Masked, Reopens, Interrupted, TakesTrap;
    if inputs != [] {
      MaskedNotInterrupted(s);
      if Step(s, inputs[0], p).Next? {
        StepMasked(s, inputs[0], p);
        MaskedRun(Step(s, inputs[0], p).next, inputs[1..], p);
      }
    }
  }

  /**
   * Once any trap is taken, no interrupt is taken in any continuation until an SRET or a CSR instruction opens
   * interrupts, whatever exceptions, timer ticks, reads of sstatus and sip or sie values come between.
   */
  lemma NoInterruptUntilReopened(s: State, input: Input, rest: seq<Input>, p: period)
    requires TakesTrap(s, input) && Step(s, input, p).Next? && !Reopens(s)
    requires !ReopensSomewhere(Step(s, input, p).next, rest, p)
    ensures !InterruptedSomewhere(Step(s, input, p).next, rest, p)
  {
    hide Step, TakesTrap, Reopens, ReopensSomewhere, InterruptedSomewhere, Masked;
    StepMasked(s, input, p);
    MaskedRun(Step(s, input, p).next, rest, p);
  }

  /** The order of service: software before timer before external, and only what is pending and enabled. */
  lemma InterruptOrder(s: State)
    ensures TakesInterrupt(s) <==> InterruptsOpen(s) && (Pending(s.csr, 1) || Pending(s.csr, 5) || Pending(s.csr, 9))
    ensures TakesInterrupt(s) ==>
      var t := HandleInterrupts(s);
      var code := t.csr.scause - 0x8000_0000;
      && (code == 1 || code == 5 || code == 9) && Pending(s.csr, code)
      && (code != 1 ==> !Pending(s.csr, 1)) && (code == 9 ==> !Pending(s.csr, 5))
      && t.csr.sepc == s.pc && t.csr.stval == 0 && t.super
  {
    hide Pending, InterruptsOpen, EnterStatus, VectorBase, VectorMode, Read, SetCause, Add;
    if TakesInterrupt(s) {
      CauseIs(s.csr.scause, PendingCode(s.csr).value, true);
    }
  }
}
