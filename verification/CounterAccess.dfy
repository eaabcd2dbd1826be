/** Exactly when an instruction changes a read-only CSR, in any state and over runs. */
module CounterAccess {
  import opened Bits
  import opened Words
  import opened Wrappers
  import opened Csrs
  import opened Instructions
  import opened Decoder
  import opened HartState
  import opened Execute
  import opened Steps
  import opened Effects
  import opened Departures

  /**
   * The instruction is CSRRSI or CSRRCI on the accessible CSR, its rs1 field names a register that holds zero, and
   * its immediate sets a clear bit or clears a set one. Reads and refused writes are not among them.
   */
  ghost predicate Changes(s: State, w: u32, addr: nat) {
    && IsType(w, SYSTEM) && Imm12(w) == addr
    && (s.super || !CounterClosed(s.csr, addr))
    && DecodeOpcode(w).Some? && ImmediateForm(DecodeOpcode(w).value)
    && GetRegister(s, Rs1(w)) == 0
    && GetAccessType(addr).Some?
    && Effective(DecodeOpcode(w).value, ReadCsr(s.csr, addr), Rs1(w))
  }

  /** What becomes of a read-only CSR. */
  ghost predicate Leaves(s: State, e: Effect, addr: nat, changed: bool)
    requires GetAccessType(addr).Some?
  {
    match e
    case Retire(n) => changed <==> ReadCsr(n.csr, addr) != ReadCsr(s.csr, addr)
    case Trap(_, _, at) => !changed && ReadCsr(at.csr, addr) == ReadCsr(s.csr, addr)
    case _ => !changed
  }

  lemma PlainLeaves(s: State, w: u32, e: Effect, addr: nat)
    requires GetAccessType(addr) == Some(URO) && Frame(s, w, e) && !IsType(w, SYSTEM)
    ensures Leaves(s, e, addr, false)
  {
    hide DecodeType, ReadCsr;
  }

  /** SRET, ECALL and the fences touch no counter. */
  lemma OtherSystemLeaves(s: State, w: u32, ch: u32, op: Opcode, addr: nat)
    requires GetAccessType(addr) == Some(URO) && DecodeOpcode(w) == Some(op)
    requires op in {SRET, ECALL, SFENCE_VMA, SFENCE_INVAL_IR, SFENCE_W_INVAL, WFI}
    ensures Leaves(s, ExecSystem(s, w, ch), addr, false)
  {
    hide DecodeOpcode, SretStatus, SetField;
  }

  lemma CsrLeaves(s: State, w: u32, op: Opcode, addr: nat)
    requires GetAccessType(addr) == Some(URO) && IsType(w, SYSTEM) && IsOp(w, op)
    requires op in {CSRRW, CSRRS, CSRRC, CSRRWI, CSRRSI, CSRRCI}
    ensures Leaves(s, ExecCsr(s, w, op), addr, Changes(s, w, addr))
  {
    hide DecodeType, DecodeOpcode, ExecCsr, Imm12, Rs1, ReadCsr, CounterClosed, Effective, ImmediateForm;
    if Imm12(w) != addr {
      OtherCsrLeaves(s, w, op, addr);
    } else if s.super || !CounterClosed(s.csr, addr) {
      ReadOnlyKept(s, w, op);
      ReadOnlyChanged(s, w, op);
    } else {
      ClosedTraps(s, w, op);
    }
  }

  lemma ClosedTraps(s: State, w: u32, op: Opcode)
    requires !s.super && CounterClosed(s.csr, Imm12(w)) && GetAccessType(Imm12(w)).Some?
    ensures ExecCsr(s, w, op) == Trap(2, w, s)
  {
    hide Imm12, Rs1, Rd, ReadCsr, CounterClosed, GetAccessType, WriteRefused, CsrResult, WriteCsr;
  }

  lemma OtherCsrLeaves(s: State, w: u32, op: Opcode, addr: nat)
    requires GetAccessType(addr) == Some(URO) && Imm12(w) != addr
    ensures Leaves(s, ExecCsr(s, w, op), addr, false)
  {
    hide Imm12, Rs1, Rd, ReadCsr, CounterClosed, GetAccessType, WriteRefused, CsrResult, WriteCsr;
    if GetAccessType(Imm12(w)).Some? {
      ReadWriteCsr(s.csr, Imm12(w), CsrResult(op, ReadCsr(s.csr, Imm12(w)), GetRegister(s, Rs1(w)), Rs1(w)), addr);
    }
  }

  lemma SystemLeaves(s: State, w: u32, ch: u32, addr: nat)
    requires GetAccessType(addr) == Some(URO) && IsType(w, SYSTEM)
    ensures Leaves(s, Exec(s, w, ch), addr, Changes(s, w, addr))
  {
    hide DecodeType, DecodeOpcode, Leaves, Changes, GetAccessType;
    match DecodeOpcode(w)
    case None => NothingDecoded(s, w, ch, addr);
    case Some(op) =>
      if op in {SRET, ECALL, SFENCE_VMA, SFENCE_INVAL_IR, SFENCE_W_INVAL, WFI} {
        OtherSystemLeaves(s, w, ch, op, addr);
        NotImmediate(s, w, op, addr);
        SystemIs(s, w, ch);
      } else if op in {EBREAK, SINVAL_VMA} {
        hide Exec;
        UnhandledThrow(s, w, ch);
        AbortLeaves(s, addr);
        NotImmediate(s, w, op, addr);
      } else {
        SystemOps(w);
        CsrLeaves(s, w, op, addr);
        CsrIs(s, w, ch, op);
      }
  }

  lemma AbortLeaves(s: State, addr: nat)
    requires GetAccessType(addr).Some?
    ensures Leaves(s, Abort(s), addr, false)
  {
  }

  lemma NotImmediate(s: State, w: u32, op: Opcode, addr: nat)
    requires IsOp(w, op) && !ImmediateForm(op)
    ensures !Changes(s, w, addr)
  {
    hide DecodeType, DecodeOpcode, Effective, Imm12, Rs1, ReadCsr, CounterClosed, GetAccessType;
  }

  lemma NothingDecoded(s: State, w: u32, ch: u32, addr: nat)
    requires GetAccessType(addr).Some? && IsType(w, SYSTEM) && DecodeOpcode(w).None?
    ensures Leaves(s, Exec(s, w, ch), addr, Changes(s, w, addr))
  {
    hide DecodeType, DecodeOpcode, Effective, Imm12, Rs1, ReadCsr, CounterClosed, GetAccessType;
  }

  lemma SystemIs(s: State, w: u32, ch: u32)
    requires IsType(w, SYSTEM)
    ensures Exec(s, w, ch) == ExecSystem(s, w, ch)
  {
    hide DecodeType, ExecSystem;
  }

  lemma CsrIs(s: State, w: u32, ch: u32, op: Opcode)
    requires IsType(w, SYSTEM) && IsOp(w, op) && op in {CSRRW, CSRRS, CSRRC, CSRRWI, CSRRSI, CSRRCI}
    ensures Exec(s, w, ch) == ExecCsr(s, w, op)
  {
    hide DecodeType, DecodeOpcode, ExecCsr;
  }

  /** The opcodes of the SYSTEM class. */
  lemma SystemOps(w: u32)
    requires IsType(w, SYSTEM) && DecodeOpcode(w).Some?
    ensures DecodeOpcode(w).value in {SRET, ECALL, SFENCE_VMA, SFENCE_INVAL_IR, SFENCE_W_INVAL, WFI, EBREAK, SINVAL_VMA,
                                      CSRRW, CSRRS, CSRRC, CSRRWI, CSRRSI, CSRRCI}
  {
    hide Read, SignExtend, TypeOfMajor;
  }

  /** An instruction that retires changes a read-only CSR if and only if `Changes` says so; no trap changes one. */
  lemma ChangesIff(s: State, w: u32, ch: u32, addr: nat)
    requires GetAccessType(addr) == Some(URO)
    ensures Leaves(s, Exec(s, w, ch), addr, Changes(s, w, addr))
  {
    hide DecodeType, Exec, Leaves, GetAccessType, Frame;
    if IsType(w, SYSTEM) {
      SystemLeaves(s, w, ch, addr);
    } else {
      ExecFrame(s, w, ch);
      PlainLeaves(s, w, Exec(s, w, ch), addr);
    }
  }

  // --- Over runs ---

  /** The step's instruction changes one of the two words of a counter. */
  ghost predicate StepChanges(s: State, low: nat, high: nat) {
    FrontOf(s).Fetched?
        && (Changes(FrontOf(s).at, FrontOf(s).instr, low) || Changes(FrontOf(s).at, FrontOf(s).instr, high))
  }

  ghost predicate ChangesSomewhere(s: State, inputs: seq<Input>, p: period, low: nat, high: nat)
    decreases |inputs|
  {
    hide Step, StepChanges;
    inputs != []
    && (StepChanges(s, low, high)
        || (Step(s, inputs[0], p).Next? && ChangesSomewhere(Step(s, inputs[0], p).next, inputs[1..], p, low, high)))
  }
}
