/** Traps raised by an instruction are precise. */
module Precision {
  import opened Bits
  import opened Words
  import opened Wrappers
  import opened PageWalk
  import opened Csrs
  import opened Instructions
  import opened Decoder
  import Encoding
  import opened HartState
  import opened Execute
  import opened Steps
  import opened Effects
  import opened Fronts
  import opened Privilege

  /** A write to a read-only CSR that the instruction is refused. */
  ghost predicate RefusedWrite(s: State, w: u32) {
    && IsType(w, SYSTEM) && DecodeOpcode(w).Some?
    && GetAccessType(Imm12(w)) == Some(URO)
    && WriteRefused(DecodeOpcode(w).value, URO, GetRegister(s, Rs1(w)))
    && (s.super || !CounterClosed(s.csr, Imm12(w)))
  }

  /** The registers as they were, except after a refused CSR write: rd already holds the old CSR value. */
  ghost predicate Precise(s: State, w: u32, e: Effect)
    requires e.Trap?
  {
    && (e.at == s || RefusedWrite(s, w))
    && (RefusedWrite(s, w) ==>
          e.at == SetRegister(s, Rd(w), ReadCsr(s.csr, Imm12(w))) && e.cause == 2 && e.tval == w)
  }

  lemma RefusedOnlySystem(s: State, w: u32, e: Effect)
    requires e.Trap? && e.at == s && !IsType(w, SYSTEM)
    ensures Precise(s, w, e)
  {
    hide DecodeType, DecodeOpcode;
  }

  lemma PlainTraps(s: State, w: u32, ch: u32)
    requires !IsType(w, SYSTEM) && Exec(s, w, ch).Trap?
    ensures Precise(s, w, Exec(s, w, ch))
  {
    hide Exec, DecodeType, Precise;
    ExecFrame(s, w, ch);
    RefusedOnlySystem(s, w, Exec(s, w, ch));
  }

  lemma CsrTraps(s: State, w: u32, op: Opcode)
    requires IsType(w, SYSTEM) && IsOp(w, op) && ExecCsr(s, w, op).Trap?
    ensures Precise(s, w, ExecCsr(s, w, op))
  {
    hide DecodeType, DecodeOpcode, CsrResult, CounterClosed, Rd, Rs1, Imm12, ReadCsr, WriteCsr;
  }

  /** ECALL carries the CSR number 0, so it is never a refused write. */
  lemma EcallNotRefused(s: State, w: u32)
    requires IsOp(w, ECALL)
    ensures !RefusedWrite(s, w)
  {
    SystemZero(w);
    hide DecodeType, DecodeOpcode, Imm12;
  }

  lemma SystemZero(w: u32)
    requires IsOp(w, ECALL)
    ensures Imm12(w) == 0
  {
    Encoding.DecodedClass(w);
    Encoding.HighParts(w);
    EcallFields(w);
    SignExtendZero(Imm12(w));
    hide Imm12, DecodeType, DecodeOpcode, SignExtend;
  }

  lemma EcallFields(w: u32)
    requires IsOp(w, ECALL) && IsType(w, SYSTEM)
    ensures ImmI(w) == 0
  {
    hide Read, SignExtend, TypeOfMajor;
  }

  lemma SignExtendZero(n: nat)
    requires n < 0x1000
    ensures SignExtend(n, 12) == 0 ==> n == 0
  {
    Encoding.Pow2Medium();
  }

  lemma SystemTraps(s: State, w: u32, ch: u32)
    requires IsType(w, SYSTEM) && ExecSystem(s, w, ch).Trap?
    ensures Precise(s, w, ExecSystem(s, w, ch))
  {
    hide DecodeType, DecodeOpcode, ExecCsr, Sbi, RefusedWrite;
    var op := DecodeOpcode(w).value;
    if op == ECALL {
      SbiNoTrap(s, ch);
      EcallNotRefused(s, w);
    } else {
      CsrTraps(s, w, op);
    }
  }

  lemma SbiNoTrap(s: State, ch: u32)
    ensures !Sbi(s, ch).Trap?
  {
    hide SetField;
  }

  /** Every trap an instruction raises is precise. */
  lemma ExecPrecise(s: State, w: u32, ch: u32)
    requires Exec(s, w, ch).Trap?
    ensures Precise(s, w, Exec(s, w, ch))
  {
    hide Precise, ExecSystem, DecodeType, ExecLoad, ExecStore, ExecBranch, ExecJump, ExecAmo, ExecOpImm, ExecOp;
    hide ExecUpper;
    if IsType(w, SYSTEM) {
      SystemTraps(s, w, ch);
    } else {
      PlainTraps(s, w, ch);
    }
  }

  /**
   * A step whose instruction traps: memory, registers and reservation are those the instruction started
   * from (a refused CSR write alone has updated rd), sepc is its pc, sstatus holds its mode and sie, scause
   * and stval say why, and the hart continues at the stvec base in supervisor mode with interrupts off.
   */
  lemma PreciseStep(s: State, input: Input, p: period)
    requires FrontOf(s).Fetched? && Exec(FrontOf(s).at, FrontOf(s).instr, input.ch).Trap?
    ensures var at, w := FrontOf(s).at, FrontOf(s).instr;
      var e := Exec(at, w, input.ch);
      && Step(s, input, p).Next?
      && var t := Step(s, input, p).next;
      && t.mem == at.mem && t.reservation == at.reservation && t.out == at.out && t.timeCompare == at.timeCompare
      && (RefusedWrite(at, w) ==> t.gpr == SetRegister(at, Rd(w), ReadCsr(at.csr, Imm12(w))).gpr)
      && (!RefusedWrite(at, w) ==> t.gpr == at.gpr)
      && t.csr.sepc == at.pc && t.pc == VectorBase(at.csr.stvec)
          && t.csr.sstatus == EnterStatus(at.csr.sstatus, at.super)
      && t.csr.scause == e.cause && t.csr.stval == e.tval
      && Masked(t)
  {
    var at, w := FrontOf(s).at, FrontOf(s).instr;
    var e := Exec(at, w, input.ch);
    hide FrontOf, Exec, Frame, Precise, RefusedWrite, IncrementCounters, EnterException, ReadCsr, Masked;
    ExecFrame(at, w, input.ch);
    ExecPrecise(at, w, input.ch);
    SettledTrap(at, w, e, input.now, p);
  }

  lemma SettledTrap(at: State, w: u32, e: Effect, now: int, p: period)
    requires e.Trap? && Precise(at, w, e) && Frame(at, w, e)
    ensures var t := IncrementCounters(EnterException(e.at, e.cause, e.tval), now, p);
      && t.mem == at.mem && t.reservation == at.reservation && t.out == at.out && t.timeCompare == at.timeCompare
      && (RefusedWrite(at, w) ==> t.gpr == SetRegister(at, Rd(w), ReadCsr(at.csr, Imm12(w))).gpr)
      && (!RefusedWrite(at, w) ==> t.gpr == at.gpr)
      && t.csr.sepc == at.pc && t.pc == VectorBase(at.csr.stvec)
          && t.csr.sstatus == EnterStatus(at.csr.sstatus, at.super)
      && t.csr.scause == e.cause && t.csr.stval == e.tval
      && Masked(t)
  {
    hide RefusedWrite, ReadCsr, VectorBase, EnterStatus, SetCause, Bit, DecodeType, SetField, Rd, Imm12;
    ExceptionMasks(e.at, e.cause, e.tval);
    CauseIs(e.at.csr.scause, e.cause, false);
    CountersKeep(EnterException(e.at, e.cause, e.tval), now, p);
    CountersKeepTrap(EnterException(e.at, e.cause, e.tval), now, p);
    hide IncrementCounters;
  }

  lemma CountersKeepTrap(s: State, now: int, p: period)
    ensures var t := IncrementCounters(s, now, p); t.csr.scause == s.csr.scause && t.csr.stval == s.csr.stval
  {
    hide SetField, Ticks, Elapsed, Time;
  }
}
