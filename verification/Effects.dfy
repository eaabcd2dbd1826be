/** What the execution of one instruction can and cannot change, class by class. */
module Effects {
  import opened Bits
  import opened Words
  import opened Wrappers
  import opened FlatMemory
  import Sv32
  import opened PageWalk
  import opened Csrs
  import opened Instructions
  import opened Decoder
  import opened HartState
  import opened Execute

  ghost predicate IsType(w: u32, t: InstructionType) {
    DecodeType(w) == Some(t)
  }

  ghost predicate IsOp(w: u32, op: Opcode) {
    DecodeOpcode(w) == Some(op)
  }

  /** A CSR instruction on sstatus. */
  ghost predicate WritesStatus(w: u32) {
    IsType(w, SYSTEM) && Imm12(w) == 0x100 && !IsOp(w, SRET)
  }

  /** Outside SYSTEM nothing but registers, memory, pc and the reservation moves. */
  ghost predicate Plain(s: State, n: State) {
    && n.csr == s.csr && n.super == s.super && n.timeCompare == s.timeCompare
    && n.lastTime == s.lastTime && n.out == s.out
  }

  /** The counters are the only CSRs a user can change. */
  ghost predicate CountersOnly(c: Csrs, d: Csrs) {
    && d == c.(cycle := d.cycle, cycleh := d.cycleh, time := d.time, timeh := d.timeh,
               instret := d.instret, instreth := d.instreth)
  }

  ghost predicate SystemRetires(s: State, w: u32, n: State) {
    && n.mem == s.mem && n.reservation == s.reservation && n.lastTime == s.lastTime
    && (IsOp(w, SRET) ==> n == Sret(s))
    && (!IsOp(w, SRET) ==> n.super == s.super && n.pc == Add(s.pc, 4))
    && (!IsOp(w, SRET) && !s.super ==> CountersOnly(s.csr, n.csr) && n.timeCompare == s.timeCompare && n.out == s.out)
    && (!IsOp(w, SRET) && !WritesStatus(w) ==> n.csr.sstatus == s.csr.sstatus)
  }

  ghost predicate Frame(s: State, w: u32, e: Effect) {
    match e
    case Retire(n) =>
      && (s.gpr[0] == 0 ==> n.gpr[0] == 0)
      && (if IsType(w, SYSTEM) then SystemRetires(s, w, n) else Plain(s, n))
      && (n.mem == s.mem || IsType(w, STORE) || IsType(w, AMO))
      && (n.reservation == s.reservation || IsType(w, AMO))
    case Trap(cause, tval, at) =>
      && cause < 16
      && (at == s || (IsType(w, SYSTEM) && at == s.(gpr := at.gpr)))
      && (s.gpr[0] == 0 ==> at.gpr[0] == 0)
    case Abort(last) => last.csr == s.csr && last.super == s.super && last.reservation == s.reservation
    case Hang => true
  }

  lemma LoadFrame(s: State, w: u32)
    requires IsType(w, LOAD)
    ensures Frame(s, w, ExecLoad(s, w))
  {
    hide DecodeType, DecodeOpcode, Translate, LoadValue, Rd, Rs1, ImmI;
  }

  lemma StoreFrame(s: State, w: u32)
    requires IsType(w, STORE)
    ensures Frame(s, w, ExecStore(s, w))
  {
    hide DecodeType, DecodeOpcode, Translate, StoreValue, Rs1, Rs2, ImmS;
  }

  lemma BranchFrame(s: State, w: u32)
    requires IsType(w, BRANCH)
    ensures Frame(s, w, ExecBranch(s, w))
  {
    hide DecodeType, DecodeOpcode, Taken, Rs1, Rs2, ImmB;
  }

  lemma JumpFrame(s: State, w: u32)
    requires IsType(w, JUMP)
    ensures Frame(s, w, ExecJump(s, w))
  {
    hide DecodeType, DecodeOpcode, Rd, Rs1, ImmI, ImmJ;
  }

  lemma ConditionalFrame(s: State, w: u32, pa: u32)
    requires IsType(w, AMO)
    ensures Frame(s, w, StoreConditional(s, w, pa))
  {
    hide DecodeType, DecodeOpcode, WriteWord, Rd, Rs2;
  }

  lemma AtomicFrame(s: State, w: u32, op: Opcode, pa: u32, val: u32)
    requires IsType(w, AMO)
    ensures Frame(s, w, Atomic(s, w, op, pa, val))
  {
    hide DecodeType, DecodeOpcode, Rd, StoreConditional, ReadModifyWrite;
    if op == SC_W {
      ConditionalFrame(s, w, pa);
    } else if op != LR_W {
      RmwFrame(s, w, op, pa, val);
    }
  }

  lemma RmwFrame(s: State, w: u32, op: Opcode, pa: u32, val: u32)
    requires IsType(w, AMO)
    ensures Frame(s, w, ReadModifyWrite(s, w, op, pa, val))
  {
    hide DecodeType, DecodeOpcode, WriteWord, Rmw, Rd, Rs2;
  }

  lemma AmoFrame(s: State, w: u32)
    requires IsType(w, AMO)
    ensures Frame(s, w, ExecAmo(s, w))
  {
    hide DecodeType, DecodeOpcode, Translate, ReadWord, Rs1, Atomic;
    if DecodeOpcode(w).Some?
        && TranslateIn(s, GetRegister(s, Rs1(w)), if IsOp(w, LR_W) then Sv32.READ else Sv32.WRITE).Phys? {
      var pa := TranslateIn(s, GetRegister(s, Rs1(w)), if IsOp(w, LR_W) then Sv32.READ else Sv32.WRITE).pa;
      if ReadWord(s.mem, pa).Some? {
        AtomicFrame(s, w, DecodeOpcode(w).value, pa, ReadWord(s.mem, pa).value);
      }
    }
  }

  lemma ArithmeticFrame(s: State, w: u32)
    requires IsType(w, OP_IMM) || IsType(w, OP) || IsType(w, OP_UI)
    ensures IsType(w, OP_IMM) ==> Frame(s, w, ExecOpImm(s, w))
    ensures IsType(w, OP) ==> Frame(s, w, ExecOp(s, w))
    ensures IsType(w, OP_UI) ==> Frame(s, w, ExecUpper(s, w))
  {
    hide DecodeType, DecodeOpcode, Alu, AluImm, Rd, Rs1, Rs2, ImmI, ImmU;
  }

  lemma SbiFrame(s: State, w: u32, ch: u32)
    requires IsType(w, SYSTEM) && IsOp(w, ECALL) && s.super
    ensures Frame(s, w, Sbi(s, ch))
  {
    hide DecodeType, SetField;
  }

  lemma CsrFrame(s: State, w: u32, op: Opcode)
    requires IsType(w, SYSTEM) && IsOp(w, op) && op != SRET
    ensures Frame(s, w, ExecCsr(s, w, op))
  {
    hide DecodeType, DecodeOpcode, CsrResult, WriteRefused, CounterClosed, Rd, Rs1, Imm12;
  }

  lemma SystemFrame(s: State, w: u32, ch: u32)
    requires IsType(w, SYSTEM)
    ensures Frame(s, w, ExecSystem(s, w, ch))
  {
    hide DecodeType, DecodeOpcode, ExecCsr, Sbi, Imm12;
    match DecodeOpcode(w)
    case None =>
    case Some(op) =>
      if op != SRET {
        CsrFrame(s, w, op);
      }
      if op == ECALL && s.super {
        SbiFrame(s, w, ch);
      }
  }

  /** Every instruction keeps to its frame. */
  lemma ExecFrame(s: State, w: u32, ch: u32)
    ensures Frame(s, w, Exec(s, w, ch))
  {
    hide DecodeType, Frame, ExecLoad, ExecStore, ExecBranch, ExecJump, ExecAmo, ExecOpImm, ExecOp, ExecSystem;
    hide ExecUpper;
    match DecodeType(w)
    case None => AbortFrame(s, w);
    case Some(t) =>
      match t
      case LOAD => LoadFrame(s, w);
      case STORE => StoreFrame(s, w);
      case BRANCH => BranchFrame(s, w);
      case JUMP => JumpFrame(s, w);
      case AMO => AmoFrame(s, w);
      case OP_IMM => ArithmeticFrame(s, w);
      case OP => ArithmeticFrame(s, w);
      case SYSTEM => SystemFrame(s, w, ch);
      case OP_UI => ArithmeticFrame(s, w);
      case OP_FENCE => FenceFrame(s, w);
  }

  lemma AbortFrame(s: State, w: u32)
    ensures Frame(s, w, Abort(s))
  {
  }

  lemma FenceFrame(s: State, w: u32)
    requires IsType(w, OP_FENCE)
    ensures Frame(s, w, Retire(Advance(s)))
  {
    hide DecodeType;
  }
}
