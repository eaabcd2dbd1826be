/**
 * What the CSR instructions do (RISC-V Unprivileged ISA 20191213, chapter 9), proved of the instructions as they
 * execute.
 */
module CsrInstructions {
  import opened Bits
  import opened Words
  import opened Wrappers
  import opened PageWalk
  import opened Csrs
  import opened Instructions
  import opened Decoder
  import Encoding
  import Datapath
  import CounterAccess
  import opened HartState
  import opened Execute
  import opened Effects
  import opened RegisterInstructions

  predicate IsCsr(op: Opcode) {
    op in {CSRRW, CSRRS, CSRRC, CSRRWI, CSRRSI, CSRRCI}
  }

  predicate Known(addr: nat) {
    GetAccessType(addr).Some?
  }

  // --- Access by number ---

  /** Bits 11..10 of a known CSR number say whether it is read-only, bits 9..8 whether it is the supervisor's. */
  lemma AccessByNumber(addr: nat)
    requires Known(addr)
    ensures GetAccessType(addr) == Some(URO) <==> addr / 0x400 == 3
    ensures GetAccessType(addr) == Some(SRW) <==> addr / 0x100 % 4 == 1
    ensures GetAccessType(addr) == Some(URO) ==> addr / 0x100 % 4 == 0
  {
  }

  /** A counter is closed to the user by the bit of scounteren that its number names. */
  lemma ClosedByNumber(csr: Csrs, addr: nat)
    requires Known(addr)
    ensures CounterClosed(csr, addr) <==> addr / 0x400 == 3 && Bit(csr.scounteren, addr % 0x20) == 0
  {
    hide Bit;
  }

  // --- The value written ---

  /** `v` is what the instruction makes of the CSR's value, rs1 and the immediate. */
  ghost predicate Makes(op: Opcode, before: u32, rs1: u32, uimm: reg, v: u32) {
    match op
    case CSRRW => v == rs1
    case CSRRWI => v == uimm
    case CSRRS => SetsBits(before, rs1, v)
    case CSRRSI => SetsBits(before, uimm, v)
    case CSRRC => ClearsBits(before, rs1, v)
    case CSRRCI => ClearsBits(before, uimm, v)
    case _ => false
  }

  ghost predicate SetsBits(before: u32, mask: u32, v: u32) {
    forall k: nat | k < 32 :: Bit(v, k) == if Bit(mask, k) == 1 then 1 else Bit(before, k)
  }

  ghost predicate ClearsBits(before: u32, mask: u32, v: u32) {
    forall k: nat | k < 32 :: Bit(v, k) == if Bit(mask, k) == 1 then 0 else Bit(before, k)
  }

  lemma SetsOr(before: u32, mask: u32)
    ensures SetsBits(before, mask, Or32(before, mask))
  {
    hide Bit, Or32;
    forall k: nat | k < 32
      ensures Bit(Or32(before, mask), k) == if Bit(mask, k) == 1 then 1 else Bit(before, k)
    {
      Datapath.SetBits(before, mask, k);
    }
  }

  lemma ClearsAnd(before: u32, mask: u32)
    ensures ClearsBits(before, mask, And32(before, Not32(mask)))
  {
    hide Bit, And32, Not32;
    forall k: nat | k < 32
      ensures Bit(And32(before, Not32(mask)), k) == if Bit(mask, k) == 1 then 0 else Bit(before, k)
    {
      Datapath.ClearBits(before, mask, k);
    }
  }

  lemma ResultMakes(op: Opcode, before: u32, rs1: u32, uimm: reg)
    requires IsCsr(op)
    ensures Makes(op, before, rs1, uimm, CsrResult(op, before, rs1, uimm))
  {
    hide SetsBits, ClearsBits, Or32, And32, Not32;
    SetsOr(before, rs1);
    SetsOr(before, uimm);
    ClearsAnd(before, rs1);
    ClearsAnd(before, uimm);
  }

  // --- The instruction ---

  const SCOUNTEREN: nat := 0x106

  /** The user may not touch the supervisor's CSRs, nor a counter that scounteren closes to it. */
  ghost predicate Forbidden(s: State, addr: nat) {
    !s.super
    && (addr / 0x100 % 4 == 1
        || (addr / 0x400 == 3 && Bit(ReadCsr(s.csr, SCOUNTEREN), addr % 0x20) == 0))
  }

  /** A write that a read-only CSR refuses, as the source decides it. */
  ghost predicate Refused(op: Opcode, addr: nat, rs1: u32) {
    addr / 0x400 == 3 && (op == CSRRW || op == CSRRWI || rs1 != 0)
  }

  /** The other CSRs are as they were. */
  ghost predicate OthersKept(c: Csrs, d: Csrs, addr: nat) {
    forall other: nat | Known(other) && other != addr :: ReadCsr(d, other) == ReadCsr(c, other)
  }

  /** The whole of what a CSR instruction can do. */
  ghost predicate Accesses(s: State, w: u32, op: Opcode, e: Effect) {
    var addr, rs1 := Imm12(w), s.gpr[Rs1(w)];
    if !Known(addr) then e == Abort(s)
    else if Forbidden(s, addr) then e == Trap(2, w, s)
    else
      var before := ReadCsr(s.csr, addr);
      if Refused(op, addr, rs1) then
        e.Trap? && e.cause == 2 && e.tval == w
        && Written(s.gpr, e.at.gpr, Rd(w), before) && e.at == s.(gpr := e.at.gpr)
      else
        e.Retire?
        && Written(s.gpr, e.next.gpr, Rd(w), before)
        && Makes(op, before, rs1, Rs1(w), ReadCsr(e.next.csr, addr)) && OthersKept(s.csr, e.next.csr, addr)
        && e.next == s.(gpr := e.next.gpr, csr := e.next.csr, pc := Wrap(s.pc + 4))
  }

  lemma WriteOthers(c: Csrs, addr: nat, v: u32)
    requires Known(addr)
    ensures ReadCsr(WriteCsr(c, addr, v), addr) == v && OthersKept(c, WriteCsr(c, addr, v), addr)
  {
    hide ReadCsr, WriteCsr, GetAccessType;
    ReadWriteCsr(c, addr, v, addr);
    forall other: nat | Known(other) && other != addr
      ensures ReadCsr(WriteCsr(c, addr, v), other) == ReadCsr(c, other)
    {
      ReadWriteCsr(c, addr, v, other);
    }
  }

  lemma RegisterWritten(g: Registers, rd: reg, v: u32)
    ensures Written(g, g[rd := v][0 := 0], rd, v)
  {
  }

  lemma RefusedIs(op: Opcode, addr: nat, rs1: u32)
    requires IsCsr(op) && Known(addr)
    ensures WriteRefused(op, GetAccessType(addr).value, rs1) <==> Refused(op, addr, rs1)
  {
    AccessByNumber(addr);
    hide GetAccessType;
  }

  lemma ForbiddenIs(s: State, addr: nat)
    requires Known(addr)
    ensures Forbidden(s, addr) <==> !s.super && (CounterClosed(s.csr, addr) || GetAccessType(addr) == Some(SRW))
  {
    AccessByNumber(addr);
    ClosedByNumber(s.csr, addr);
    hide GetAccessType, CounterClosed, Bit;
  }

  /** The four ways through the source's case. */
  lemma CsrOutcome(s: State, w: u32, op: Opcode)
    ensures var e := ExecCsr(s, w, op);
      match GetAccessType(Imm12(w))
      case None => e == Abort(s)
      case Some(t) =>
        if !s.super && (CounterClosed(s.csr, Imm12(w)) || t == SRW) then e == Trap(2, w, s)
        else if WriteRefused(op, t, s.gpr[Rs1(w)])
        then e == Trap(2, w, SetRegister(s, Rd(w), ReadCsr(s.csr, Imm12(w))))
        else e.Retire?
  {
    hide GetAccessType, CounterClosed, WriteRefused, CsrResult, ReadCsr, WriteCsr, Imm12, Rs1, Rd, SetRegister, Advance;
  }

  lemma CsrAccesses(s: State, w: u32, op: Opcode)
    requires IsCsr(op)
    ensures Accesses(s, w, op, ExecCsr(s, w, op))
  {
    hide ExecCsr, GetAccessType, CounterClosed, WriteRefused, ReadCsr, Imm12, Rs1, Rd;
    hide Forbidden, Refused, Makes, OthersKept, Written, Wrap, IsCsr;
    var addr := Imm12(w);
    CsrOutcome(s, w, op);
    if Known(addr) {
      ForbiddenIs(s, addr);
      RefusedIs(op, addr, s.gpr[Rs1(w)]);
      RegisterWritten(s.gpr, Rd(w), ReadCsr(s.csr, addr));
      if !Forbidden(s, addr) && !Refused(op, addr, s.gpr[Rs1(w)]) {
        CsrRetires(s, w, op);
      }
    }
  }

  lemma CsrRetires(s: State, w: u32, op: Opcode)
    requires IsCsr(op) && Known(Imm12(w)) && ExecCsr(s, w, op).Retire?
    ensures var addr, n := Imm12(w), ExecCsr(s, w, op).next;
      && Written(s.gpr, n.gpr, Rd(w), ReadCsr(s.csr, addr))
      && Makes(op, ReadCsr(s.csr, addr), s.gpr[Rs1(w)], Rs1(w), ReadCsr(n.csr, addr)) && OthersKept(s.csr, n.csr, addr)
      && n == s.(gpr := n.gpr, csr := n.csr, pc := Wrap(s.pc + 4))
  {
    hide GetAccessType, CounterClosed, WriteRefused, CsrResult, ReadCsr, WriteCsr, Imm12, Rs1, Rd;
    hide Makes, OthersKept, Written, Wrap, IsCsr;
    var addr, rs1 := Imm12(w), s.gpr[Rs1(w)];
    var before := ReadCsr(s.csr, addr);
    ResultMakes(op, before, rs1, Rs1(w));
    WriteOthers(s.csr, addr, CsrResult(op, before, rs1, Rs1(w)));
    RegisterWritten(s.gpr, Rd(w), before);
  }

  lemma CsrClass(w: u32, op: Opcode)
    requires IsOp(w, op) && IsCsr(op)
    ensures IsType(w, SYSTEM)
  {
    hide DecodeType, DecodeOpcode;
    Encoding.DecodedClass(w);
  }

  /**
   * A CSR instruction that retires leaves the CSR's old value in rd and its new one in the CSR, rs1 or the immediate
   * whole or by bits, and changes nothing else; or it traps as an illegal instruction, or stops on an unknown number.
   */
  lemma CsrOp(s: State, w: u32, ch: u32, op: Opcode)
    requires IsOp(w, op) && IsCsr(op)
    ensures Accesses(s, w, op, Exec(s, w, ch))
  {
    hide Exec, ExecCsr, Accesses, DecodeType, DecodeOpcode;
    CsrClass(w, op);
    CounterAccess.CsrIs(s, w, ch, op);
    CsrAccesses(s, w, op);
  }

  // --- Swapping twice ---

  lemma SameCsrs(c: Csrs, d: Csrs)
    requires forall addr: nat | Known(addr) :: ReadCsr(c, addr) == ReadCsr(d, addr)
    ensures c == d
  {
    assert ReadCsr(c, 0xC00) == ReadCsr(d, 0xC00) && ReadCsr(c, 0xC01) == ReadCsr(d, 0xC01);
    assert ReadCsr(c, 0xC02) == ReadCsr(d, 0xC02) && ReadCsr(c, 0xC80) == ReadCsr(d, 0xC80);
    assert ReadCsr(c, 0xC81) == ReadCsr(d, 0xC81) && ReadCsr(c, 0xC82) == ReadCsr(d, 0xC82);
    assert ReadCsr(c, 0x100) == ReadCsr(d, 0x100) && ReadCsr(c, 0x104) == ReadCsr(d, 0x104);
    assert ReadCsr(c, 0x105) == ReadCsr(d, 0x105) && ReadCsr(c, 0x106) == ReadCsr(d, 0x106);
    assert ReadCsr(c, 0x140) == ReadCsr(d, 0x140) && ReadCsr(c, 0x141) == ReadCsr(d, 0x141);
    assert ReadCsr(c, 0x142) == ReadCsr(d, 0x142) && ReadCsr(c, 0x143) == ReadCsr(d, 0x143);
    assert ReadCsr(c, 0x144) == ReadCsr(d, 0x144) && ReadCsr(c, 0x180) == ReadCsr(d, 0x180);
  }

  /** CSRRW of a register with itself, done twice, restores the CSR and the register. */
  lemma SwapTwice(s: State, w: u32, ch: u32, ch': u32)
    requires IsOp(w, CSRRW) && Rd(w) == Rs1(w) && s.gpr[0] == 0 && Exec(s, w, ch).Retire?
    requires Exec(Exec(s, w, ch).next, w, ch').Retire?
    requires Rd(w) != 0
    ensures var t := Exec(Exec(s, w, ch).next, w, ch').next;
      t.gpr == s.gpr && t.csr == s.csr && t.mem == s.mem && t.pc == Wrap(Wrap(s.pc + 4) + 4)
  {
    hide Exec, DecodeOpcode, DecodeType, Imm12, Rd, Rs1, ReadCsr, GetAccessType, Forbidden, Refused, Wrap;
    var n := Exec(s, w, ch).next;
    var t := Exec(n, w, ch').next;
    CsrOp(s, w, ch, CSRRW);
    CsrOp(n, w, ch', CSRRW);
    assert t.gpr == s.gpr;
    forall addr: nat | Known(addr)
      ensures ReadCsr(t.csr, addr) == ReadCsr(s.csr, addr)
    {
    }
    SameCsrs(t.csr, s.csr);
  }
}
