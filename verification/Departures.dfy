/**
 * Where an instruction or an interrupt does something else than the standard says, and exactly when
 * (RISC-V Unprivileged ISA 20191213, sections 2.2, 8.4 and 9.1; Privileged Specification 20211203, sections
 * 4.1.3 and 4.1.9).
 */
module Departures {
  import opened Bits
  import opened Words
  import opened Wrappers
  import opened FlatMemory
  import Sv32
  import opened PageWalk
  import opened Csrs
  import opened Instructions
  import opened Decoder
  import opened HartState
  import opened Execute
  import Encoding
  import Datapath

  // --- Read-only CSRs ---

  lemma {:induction false} OrZero(a: nat)
    ensures Or(a, 0) == a
  {
    if a != 0 {
      OrZero(a / 2);
    }
  }

  lemma {:induction false} AndOnes(a: nat, width: nat)
    requires a < Pow2(width)
    ensures And(a, Pow2(width) - 1) == a
    decreases width
  {
    if a != 0 {
      AndOnes(a / 2, width - 1);
      assert (Pow2(width) - 1) % 2 == 1 && (Pow2(width) - 1) / 2 == Pow2(width - 1) - 1;
    }
  }

  /** Setting or clearing no bit writes back the value read. */
  lemma NoBits(a: u32)
    ensures Or32(a, 0) == a && And32(a, Not32(0)) == a
  {
    OrZero(a);
    Pow2Of32();
    AndOnes(a, 32);
  }

  /** The immediate forms, whose rs1 field is a number. */
  ghost predicate ImmediateForm(op: Opcode) {
    op == CSRRSI || op == CSRRCI
  }

  /** What CSRRSI and CSRRCI write. */
  function ImmediateResult(op: Opcode, before: u32, uimm: reg): u32 {
    if op == CSRRSI then Or32(before, uimm) else And32(before, Not32(uimm))
  }

  lemma AcceptedWrite(op: Opcode, before: u32, rs1Value: u32, uimm: reg)
    requires op in {CSRRW, CSRRS, CSRRC, CSRRWI, CSRRSI, CSRRCI}
    ensures WriteRefused(op, URO, rs1Value) <==> op in {CSRRW, CSRRWI} || rs1Value != 0
    ensures !WriteRefused(op, URO, rs1Value) ==>
      CsrResult(op, before, rs1Value, uimm) == if ImmediateForm(op) then ImmediateResult(op, before, uimm) else before
  {
    hide Or32, And32, Not32;
    NoBits(before);
  }

  /**
   * A CSR instruction on an accessible counter, which is read-only, leaves it alone except in one family:
   * CSRRSI and CSRRCI whose register rs1 holds zero, which write the bits of their immediate. In user
   * mode as in supervisor mode.
   */
  lemma ReadOnlyKept(s: State, w: u32, op: Opcode)
    requires op in {CSRRW, CSRRS, CSRRC, CSRRWI, CSRRSI, CSRRCI}
    requires GetAccessType(Imm12(w)) == Some(URO) && (s.super || !CounterClosed(s.csr, Imm12(w)))
    ensures var before := ReadCsr(s.csr, Imm12(w));
      match ExecCsr(s, w, op)
      case Retire(n) =>
        && GetRegister(s, Rs1(w)) == 0
        && ReadCsr(n.csr, Imm12(w)) == if ImmediateForm(op) then ImmediateResult(op, before, Rs1(w)) else before
      case Trap(_, _, at) => at.csr == s.csr && (op in {CSRRW, CSRRWI} || GetRegister(s, Rs1(w)) != 0)
      case _ => false
  {
    hide WriteRefused, CsrResult, ImmediateResult, ImmediateForm, Imm12, Rs1, Rd, CounterClosed, GetAccessType;
    hide ReadCsr, WriteCsr;
    var before, rs1Value := ReadCsr(s.csr, Imm12(w)), GetRegister(s, Rs1(w));
    AcceptedWrite(op, before, rs1Value, Rs1(w));
    ReadWriteCsr(s.csr, Imm12(w), CsrResult(op, before, rs1Value, Rs1(w)), Imm12(w));
  }

  /** The set and clear forms. */
  ghost predicate SetOrClear(op: Opcode) {
    op in {CSRRS, CSRRC, CSRRSI, CSRRCI}
  }

  /** Section 9.1: every form is a write, except a set or clear form whose rs1 or uimm field is zero. */
  ghost predicate StandardRefuses(op: Opcode, field: reg) {
    !SetOrClear(op) || field != 0
  }

  /** Section 9.1 for a read-only CSR: the instruction traps, or only reads the CSR into rd. */
  ghost function StandardReadOnly(s: State, w: u32, op: Opcode): Effect
    requires GetAccessType(Imm12(w)).Some?
  {
    if StandardRefuses(op, Rs1(w)) then Trap(2, w, s)
    else Retire(Advance(SetRegister(s, Rd(w), ReadCsr(s.csr, Imm12(w)))))
  }

  /** The write is refused as section 9.1 says, unless a register other than x0 that holds zero is named. */
  lemma RefusalStandard(op: Opcode, g: Registers, field: reg)
    requires op in {CSRRW, CSRRS, CSRRC, CSRRWI, CSRRSI, CSRRCI} && g[0] == 0
    ensures (WriteRefused(op, URO, g[field]) <==> StandardRefuses(op, field))
       <==> !(SetOrClear(op) && field != 0 && g[field] == 0)
  {
  }

  lemma WriteBack(c: Csrs, addr: nat)
    requires GetAccessType(addr).Some?
    ensures WriteCsr(c, addr, ReadCsr(c, addr)) == c
  {
  }

  lemma RegistersKept(g: Registers, rd: reg, v: u32)
    requires g[0] == 0
    ensures g[rd := v][0 := 0] == g <==> rd == 0 || g[rd] == v
  {
    var h := g[rd := v][0 := 0];
    assert h[rd] == if rd == 0 then 0 else v;
    if rd == 0 || g[rd] == v {
      assert h == g;
    }
  }

  /**
   * A CSR instruction on an accessible counter does what section 9.1 says if and only if it is a set or clear
   * form with rs1 field zero, or both refuse it and rd shows no trace of the CSR value written before the refusal.
   */
  lemma ReadOnlyStandard(s: State, w: u32, op: Opcode)
    requires op in {CSRRW, CSRRS, CSRRC, CSRRWI, CSRRSI, CSRRCI} && s.gpr[0] == 0
    requires GetAccessType(Imm12(w)) == Some(URO) && (s.super || !CounterClosed(s.csr, Imm12(w)))
    ensures ExecCsr(s, w, op) == StandardReadOnly(s, w, op)
       <==> || (SetOrClear(op) && Rs1(w) == 0)
            || ((!SetOrClear(op) || GetRegister(s, Rs1(w)) != 0)
                && (Rd(w) == 0 || GetRegister(s, Rd(w)) == ReadCsr(s.csr, Imm12(w))))
  {
    hide CsrResult, WriteRefused, ImmediateForm, Imm12, Rs1, Rd, CounterClosed, GetAccessType, ReadCsr, WriteCsr;
    var before, rs1Value := ReadCsr(s.csr, Imm12(w)), GetRegister(s, Rs1(w));
    AcceptedWrite(op, before, rs1Value, Rs1(w));
    WriteBack(s.csr, Imm12(w));
    RegistersKept(s.gpr, Rd(w), before);
    if Rs1(w) == 0 {
      ZeroField(op, before);
    }
  }

  lemma ZeroField(op: Opcode, before: u32)
    ensures ImmediateResult(op, before, 0) == before
  {
    hide Or32, And32, Not32;
    NoBits(before);
  }

  /** The immediate sets a clear bit of the value, or clears a set one. */
  ghost predicate Effective(op: Opcode, before: u32, uimm: reg) {
    exists k: nat :: k < 32 && Bit(uimm, k) == 1 && Bit(before, k) == if op == CSRRSI then 0 else 1
  }

  /**
   * The counter's value changes if and only if the instruction is CSRRSI or CSRRCI, the register that its rs1 field
   * names holds zero, and its immediate sets a clear bit or clears a set one. In user mode as in supervisor mode.
   */
  lemma ReadOnlyChanged(s: State, w: u32, op: Opcode)
    requires op in {CSRRW, CSRRS, CSRRC, CSRRWI, CSRRSI, CSRRCI}
    requires GetAccessType(Imm12(w)) == Some(URO) && (s.super || !CounterClosed(s.csr, Imm12(w)))
    ensures var before := ReadCsr(s.csr, Imm12(w));
      var e := ExecCsr(s, w, op);
      (e.Retire? && ReadCsr(e.next.csr, Imm12(w)) != before)
      <==> && GetRegister(s, Rs1(w)) == 0 && ImmediateForm(op)
           && Effective(op, before, Rs1(w))
  {
    hide ExecCsr, ImmediateResult, Imm12, Rs1, CounterClosed, GetAccessType, ReadCsr, Bit;
    ReadOnlyKept(s, w, op);
    if ImmediateForm(op) && GetRegister(s, Rs1(w)) == 0 {
      ResultDiffers(op, ReadCsr(s.csr, Imm12(w)), Rs1(w));
      AcceptsZero(s, w, op);
    }
  }

  lemma AcceptsZero(s: State, w: u32, op: Opcode)
    requires ImmediateForm(op) && GetRegister(s, Rs1(w)) == 0
    requires GetAccessType(Imm12(w)) == Some(URO) && (s.super || !CounterClosed(s.csr, Imm12(w)))
    ensures ExecCsr(s, w, op).Retire?
  {
    hide CsrResult, Imm12, Rs1, Rd, CounterClosed, GetAccessType, ReadCsr, WriteCsr;
  }

  /** The immediate forms change a value exactly when some bit of the immediate differs from what it asks for. */
  lemma ResultDiffers(op: Opcode, before: u32, uimm: reg)
    requires ImmediateForm(op)
    ensures ImmediateResult(op, before, uimm) != before
       <==> Effective(op, before, uimm)
  {
    hide ImmediateResult, Bit;
    var after := ImmediateResult(op, before, uimm);
    forall k: nat | k < 32
      ensures Bit(after, k) == if Bit(uimm, k) == 1 then (if op == CSRRSI then 1 else 0) else Bit(before, k)
      ensures Bit(before, k) < 2
    {
      ImmediateBit(op, before, uimm, k);
    }
    if forall k: nat | k < 32 :: Bit(after, k) == Bit(before, k) {
      SameBits(after, before);
    }
  }

  lemma ImmediateBit(op: Opcode, before: u32, uimm: reg, k: nat)
    requires ImmediateForm(op) && k < 32
    ensures Bit(ImmediateResult(op, before, uimm), k)
         == if Bit(uimm, k) == 1 then (if op == CSRRSI then 1 else 0) else Bit(before, k)
    ensures Bit(before, k) < 2
  {
    hide Bit, Or32, And32, Not32;
    Datapath.SetBits(before, uimm, k);
    Datapath.ClearBits(before, uimm, k);
    BitBound(before, k);
  }

  lemma SameBits(a: u32, b: u32)
    requires forall k: nat | k < 32 :: Bit(a, k) == Bit(b, k)
    ensures a == b
  {
    hide Read;
    Pow2Of32();
    hide Pow2;
    forall k: nat | k < 32
      ensures Read(a, k, 1) == Read(b, k, 1)
    {
      assert Bit(a, k) == Bit(b, k);
    }
    ReadAll(a, b, 32);
  }

  // --- AMOs ---

  /** Section 8.4: rd receives the old word, memory the result of the operation; nothing else changes. */
  ghost function StandardAmo(s: State, w: u32, m: Bytes, val: u32): State {
    Advance(SetRegister(s.(mem := m), Rd(w), val))
  }

  /**
   * An AMO that completes does what the standard says, except for AMOSWAP with an rs2 that is neither x0
   * nor rd and did not already hold the word: that register is overwritten too.
   */
  lemma AmoStandard(s: State, w: u32, op: Opcode, pa: u32, val: u32)
    requires s.gpr[0] == 0 && ReadModifyWrite(s, w, op, pa, val).Retire?
    ensures var n := ReadModifyWrite(s, w, op, pa, val).next;
      n == StandardAmo(s, w, n.mem, val)
      <==> !(op == AMOSWAP_W && Rs2(w) != 0 && Rs2(w) != Rd(w) && GetRegister(s, Rs2(w)) != val)
    ensures var n := ReadModifyWrite(s, w, op, pa, val).next;
      WriteWord(s.mem, pa, Rmw(op, val, GetRegister(s, Rs2(w)))) == Stored(n.mem)
  {
    hide WriteWord, Rmw, Rd, Rs2;
    SwapRegisters(s.gpr, Rs2(w), Rd(w), val);
  }

  lemma SwapRegisters(g: Registers, rs2: reg, rd: reg, val: u32)
    requires g[0] == 0
    ensures g[rs2 := val][0 := 0][rd := val][0 := 0] == g[rd := val][0 := 0]
       <==> !(rs2 != 0 && rs2 != rd && g[rs2] != val)
  {
    var twice, once := g[rs2 := val][0 := 0][rd := val][0 := 0], g[rd := val][0 := 0];
    assert twice[rs2] == if rs2 == 0 then 0 else val;
    assert once[rs2] == if rs2 == 0 then 0 else if rs2 == rd then val else g[rs2];
    if !(rs2 != 0 && rs2 != rd && g[rs2] != val) {
      assert twice == once;
    }
  }

  // --- The order of interrupts ---

  /** Section 4.1.3: external before software before timer. */
  function StandardCode(csr: Csrs): Option<nat> {
    if Pending(csr, 9) then Some(9)
    else if Pending(csr, 1) then Some(1)
    else if Pending(csr, 5) then Some(5)
    else None
  }

  /** The interrupt serviced is the standard's, unless an external one is pending together with another. */
  lemma OrderStandard(csr: Csrs)
    ensures PendingCode(csr) == StandardCode(csr) <==> !(Pending(csr, 9) && (Pending(csr, 1) || Pending(csr, 5)))
    ensures PendingCode(csr).None? <==> StandardCode(csr).None?
  {
    hide Pending;
  }

  // --- stval of a misaligned access ---

  /**
   * A misaligned load reports the translated address, so it reports the virtual one that section 4.1.9 asks for if
   * and only if the page is mapped to itself.
   */
  lemma LoadReports(s: State, w: u32)
    requires ExecLoad(s, w).Trap? && ExecLoad(s, w).cause == 4
    ensures var va := Add(GetRegister(s, Rs1(w)), ImmI(w));
      && TranslateIn(s, va, Sv32.READ) == Phys(ExecLoad(s, w).tval)
      && (ExecLoad(s, w).tval == va <==> TranslateIn(s, va, Sv32.READ) == Phys(va))
  {
    hide TranslateIn, DecodeOpcode, LoadValue, Rs1, Rd, ImmI, Add;
  }

  /** The same for a store. */
  lemma StoreReports(s: State, w: u32)
    requires ExecStore(s, w).Trap? && ExecStore(s, w).cause == 6
    ensures var va := Add(GetRegister(s, Rs1(w)), ImmS(w));
      && TranslateIn(s, va, Sv32.WRITE) == Phys(ExecStore(s, w).tval)
      && (ExecStore(s, w).tval == va <==> TranslateIn(s, va, Sv32.WRITE) == Phys(va))
  {
    hide TranslateIn, DecodeOpcode, StoreValue, Rs1, Rs2, ImmS, Add;
  }

  /** A trapped AMO reports the virtual address, which rs1 holds, as section 4.1.9 asks. */
  lemma AmoReports(s: State, w: u32)
    requires ExecAmo(s, w).Trap?
    ensures ExecAmo(s, w).tval == GetRegister(s, Rs1(w)) && ExecAmo(s, w).at == s
    ensures ExecAmo(s, w).cause in {4, 6} <==> GetRegister(s, Rs1(w)) % 4 != 0
    ensures ExecAmo(s, w).cause in {4, 6, 13, 15}
  {
    hide TranslateIn, DecodeOpcode, Rs1, ReadWord, Rd, Rs2, Rmw, WriteWord;
  }

  // --- Instructions of the supervisor ---

  /** Section 3.3.2 for SRET, section 4.2.1 and chapter 7 for the fences: a user may execute none of them. */
  function StandardPrivileged(s: State, w: u32, op: Opcode): Effect {
    if !s.super then Trap(2, w, s)
    else if op == SRET then Retire(Sret(s))
    else Retire(Advance(s))
  }

  /** There is no check of the mode, so the standard is met exactly in supervisor mode. */
  lemma PrivilegedStandard(s: State, w: u32, ch: u32, op: Opcode)
    requires op in {SRET, SFENCE_VMA, SFENCE_W_INVAL, SFENCE_INVAL_IR} && DecodeOpcode(w) == Some(op)
    ensures Exec(s, w, ch) == StandardPrivileged(s, w, op) <==> s.super
  {
    hide DecodeType, DecodeOpcode, Sret, ExecCsr, Sbi;
    Encoding.DecodedClass(w);
  }

  // --- SYSTEM words without an instruction ---

  /**
   * A SYSTEM word with funct3 = 0 is decoded as CSRRW if and only if it is none of the words that the switches
   * list, and then it has a row for none of the decoder's opcodes. MRET (0x30200073) is one such word.
   */
  lemma SystemFallthrough(w: u32)
    requires Major(w) == 0x73 && Funct3(w) == 0
    ensures DecodeOpcode(w) == Some(CSRRW)
       <==> ImmI(w) !in {0x000, 0x001, 0x102, 0x105} && Funct7(w) !in {0x09, 0x0B, 0x0C}
    ensures DecodeOpcode(w) == Some(CSRRW) ==> forall op :: !Encoding.Fits(Encoding.Listing(op), w)
  {
    SystemZero(w);
    hide DecodeOpcode, Encoding.Listing, Encoding.Fits, ImmI, Funct7;
    if DecodeOpcode(w) == Some(CSRRW) {
      forall op
        ensures !Encoding.Fits(Encoding.Listing(op), w)
      {
        if Encoding.Fits(Encoding.Listing(op), w) {
          Encoding.RecognisedWord(op, w);
          NotCsrrw(w);
        }
      }
    }
  }

  lemma SystemZero(w: u32)
    requires Major(w) == 0x73 && Funct3(w) == 0
    ensures DecodeOpcode(w) == Some(CSRRW)
       <==> ImmI(w) !in {0x000, 0x001, 0x102, 0x105} && Funct7(w) !in {0x09, 0x0B, 0x0C}
  {
    hide Read, SignExtend;
  }

  lemma NotCsrrw(w: u32)
    requires Funct3(w) == 0
    ensures !Encoding.Fits(Encoding.Listing(CSRRW), w)
  {
    hide Read;
  }

  /** EBREAK and SINVAL_VMA reach the CSR path with a number that names no CSR. */
  lemma UnhandledThrow(s: State, w: u32, ch: u32)
    requires DecodeOpcode(w) in {Some(EBREAK), Some(SINVAL_VMA)}
    ensures Exec(s, w, ch) == Abort(s)
  {
    hide Exec, DecodeType, DecodeOpcode, Imm12;
    SystemClass(w);
    UnhandledNumber(w);
    UnhandledExec(s, w, ch, DecodeOpcode(w).value);
  }

  lemma SystemClass(w: u32)
    requires DecodeOpcode(w) in {Some(EBREAK), Some(SINVAL_VMA)}
    ensures DecodeType(w) == Some(SYSTEM)
  {
    hide DecodeType, DecodeOpcode;
    Encoding.DecodedClass(w);
  }

  lemma UnhandledExec(s: State, w: u32, ch: u32, op: Opcode)
    requires DecodeType(w) == Some(SYSTEM) && DecodeOpcode(w) == Some(op) && op in {EBREAK, SINVAL_VMA}
    requires Imm12(w) == 1 || 0x160 <= Imm12(w) < 0x180
    ensures Exec(s, w, ch) == Abort(s)
  {
    hide DecodeType, DecodeOpcode, Imm12, ExecCsr;
    UnhandledCsr(s, w, op);
  }

  lemma UnhandledCsr(s: State, w: u32, op: Opcode)
    requires Imm12(w) == 1 || 0x160 <= Imm12(w) < 0x180
    ensures ExecCsr(s, w, op) == Abort(s)
  {
    hide Imm12, CounterClosed, CsrResult, WriteRefused, ReadCsr, WriteCsr, Rd, Rs1;
  }

  lemma UnhandledNumber(w: u32)
    requires DecodeOpcode(w) in {Some(EBREAK), Some(SINVAL_VMA)} && DecodeType(w) == Some(SYSTEM)
    ensures Imm12(w) == 1 || 0x160 <= Imm12(w) < 0x180
  {
    Encoding.HighParts(w);
    UnhandledFields(w);
    SignExtendOne(Imm12(w));
    hide DecodeType, DecodeOpcode, Imm12, Funct7, Rs2, SignExtend;
  }

  lemma UnhandledFields(w: u32)
    requires DecodeOpcode(w) in {Some(EBREAK), Some(SINVAL_VMA)} && DecodeType(w) == Some(SYSTEM)
    ensures ImmI(w) == 1 || Funct7(w) == 0x0B
  {
    hide Read, SignExtend, TypeOfMajor;
  }

  lemma SignExtendOne(n: nat)
    requires n < 0x1000
    ensures SignExtend(n, 12) == 1 ==> n == 1
  {
    Encoding.Pow2Medium();
  }
}
