/** What each instruction does (src/rv32/hart.cpp:46-591). */
module Execute {
  import opened Bits
  import opened Words
  import opened Wrappers
  import opened FlatMemory
  import Sv32
  import opened PageWalk
  import opened Csrs
  import opened Instructions
  import opened Decoder
  import opened HartState
  import MulDiv

  /**
   * How the execution of one instruction ends: it retires, with the next pc in place; it traps, from the
   * state `at`; an EmulatorException leaves the state `last`; or a page walk never returns.
   */
  datatype Effect =
    | Retire(next: State)
    | Trap(cause: nat, tval: u32, at: State)
    | Abort(last: State)
    | Hang

  // --- Loads ---

  function Width(op: Opcode): nat {
    match op
    case LB | LBU | SB => 1
    case LH | LHU | SH => 2
    case _ => 4
  }

  function LoadValue(op: Opcode, m: Bytes, a: u32): Option<u32> {
    match op
    case LB => MapByte(ReadByte(m, a), true)
    case LBU => MapByte(ReadByte(m, a), false)
    case LH => MapHalfword(ReadHalfword(m, a), true)
    case LHU => MapHalfword(ReadHalfword(m, a), false)
    case _ => ReadWord(m, a)
  }

  function MapByte(b: Option<u8>, signed: bool): Option<u32> {
    match b
    case None => None
    case Some(v) => Some(if signed then SignExtend(v, 8) else Wrap(v))
  }

  function MapHalfword(h: Option<u16>, signed: bool): Option<u32> {
    match h
    case None => None
    case Some(v) => Some(if signed then SignExtend(v, 16) else Wrap(v))
  }

  /** The misaligned address reported is the translated one. */
  ghost function ExecLoad(s: State, w: u32): Effect {
    var va := Add(GetRegister(s, Rs1(w)), ImmI(w));
    match TranslateIn(s, va, Sv32.READ)
    case Endless => Hang
    case Thrown => Abort(s)
    case Fault => Trap(13, va, s)
    case Phys(pa) =>
      match DecodeOpcode(w)
      case None => Abort(s)
      case Some(op) =>
        if pa % Width(op) != 0 then Trap(4, pa, s)
        else
          match LoadValue(op, s.mem, pa)
          case None => Abort(s)
          case Some(v) => Retire(Advance(SetRegister(s, Rd(w), v)))
  }

  // --- Stores ---

  function StoreValue(op: Opcode, m: Bytes, a: u32, v: u32): Store {
    match op
    case SB => WriteByte(m, a, v % 0x100)
    case SH => WriteHalfword(m, a, v % 0x1_0000)
    case _ => WriteWord(m, a, v)
  }

  ghost function ExecStore(s: State, w: u32): Effect {
    var va := Add(GetRegister(s, Rs1(w)), ImmS(w));
    match TranslateIn(s, va, Sv32.WRITE)
    case Endless => Hang
    case Thrown => Abort(s)
    case Fault => Trap(15, va, s)
    case Phys(pa) =>
      match DecodeOpcode(w)
      case None => Abort(s)
      case Some(op) =>
        if pa % Width(op) != 0 then Trap(6, pa, s)
        else
          match StoreValue(op, s.mem, pa, GetRegister(s, Rs2(w)))
          case Stopped(m) => Abort(s.(mem := m))
          case Stored(m) => Retire(Advance(s.(mem := m)))
  }

  // --- Branches and jumps ---

  function Taken(op: Opcode, a: u32, b: u32): bool {
    match op
    case BEQ => a == b
    case BNE => a != b
    case BLT => Signed(a) < Signed(b)
    case BGE => Signed(a) >= Signed(b)
    case BLTU => a < b
    case _ => a >= b
  }

  function ExecBranch(s: State, w: u32): Effect {
    match DecodeOpcode(w)
    case None => Abort(s)
    case Some(op) =>
      if Taken(op, GetRegister(s, Rs1(w)), GetRegister(s, Rs2(w))) then Retire(s.(pc := Add(s.pc, ImmB(w))))
      else Retire(Advance(s))
  }

  function ExecJump(s: State, w: u32): Effect {
    hide DecodeOpcode, ImmI, ImmJ, Rd, Rs1;
    match DecodeOpcode(w)
    case None => Abort(s)
    case Some(op) =>
      var linked := SetRegister(s, Rd(w), Add(s.pc, 4));
      if op == JAL then Retire(linked.(pc := Add(s.pc, ImmJ(w))))
      else
        var target := Add(GetRegister(s, Rs1(w)), ImmI(w));
        Retire(linked.(pc := ClearLowBit(target)))
  }

  /** `target & 0xFFFFFFFE` */
  function ClearLowBit(target: u32): u32 {
    target - target % 2
  }

  // --- Atomics ---

  /** The value an AMO stores, from the word in memory and rs2. */
  function Rmw(op: Opcode, val: u32, b: u32): u32 {
    match op
    case AMOADD_W => Add(val, b)
    case AMOXOR_W => Xor32(val, b)
    case AMOAND_W => And32(val, b)
    case AMOOR_W => Or32(val, b)
    case AMOMIN_W => if Signed(b) < Signed(val) then b else val
    case AMOMAX_W => if Signed(val) < Signed(b) then b else val
    case AMOMINU_W => if b < val then b else val
    case AMOMAXU_W => if val < b then b else val
    case _ => b
  }

  ghost function ExecAmo(s: State, w: u32): Effect {
    var va := GetRegister(s, Rs1(w));
    match DecodeOpcode(w)
    case None => Abort(s)
    case Some(op) =>
      if va % 4 != 0 then Trap(if op == LR_W then 4 else 6, va, s)
      else
        match TranslateIn(s, va, if op == LR_W then Sv32.READ else Sv32.WRITE)
        case Endless => Hang
        case Thrown => Abort(s)
        case Fault => Trap(if op == LR_W then 13 else 15, va, s)
        case Phys(pa) =>
          match ReadWord(s.mem, pa)
          case None => Abort(s)
          case Some(val) => Atomic(s, w, op, pa, val)
  }

  function Atomic(s: State, w: u32, op: Opcode, pa: u32, val: u32): Effect {
    if op == LR_W then Retire(Advance(SetRegister(s, Rd(w), val).(reservation := true)))
    else if op == SC_W then StoreConditional(s, w, pa)
    else ReadModifyWrite(s, w, op, pa, val)
  }

  /** AMOSWAP overwrites rs2 with the old word before it stores. */
  function ReadModifyWrite(s: State, w: u32, op: Opcode, pa: u32, val: u32): Effect {
    var before := if op == AMOSWAP_W then SetRegister(s, Rs2(w), val) else s;
    match WriteWord(s.mem, pa, Rmw(op, val, GetRegister(s, Rs2(w))))
    case Stopped(m) => Abort(before.(mem := m))
    case Stored(m) => Retire(Advance(SetRegister(before.(mem := m), Rd(w), val)))
  }

  /** Only the flag is checked; the reserved address is not recorded. */
  function StoreConditional(s: State, w: u32, pa: u32): Effect {
    if !s.reservation then Retire(Advance(SetRegister(s, Rd(w), 1)))
    else
      match WriteWord(s.mem, pa, GetRegister(s, Rs2(w)))
      case Stopped(m) => Abort(s.(mem := m))
      case Stored(m) => Retire(Advance(SetRegister(s.(mem := m), Rd(w), 0).(reservation := false)))
  }

  // --- Register arithmetic ---

  function AluImm(op: Opcode, a: u32, imm: u32, shamt: reg): u32 {
    match op
    case ADDI => Add(a, imm)
    case SLTI => OneIf(Signed(a) < Signed(imm))
    case SLTIU => OneIf(a < imm)
    case XORI => Xor32(a, imm)
    case ORI => Or32(a, imm)
    case ANDI => And32(a, imm)
    case SLLI => Shl(a, shamt)
    case SRLI => Shr(a, shamt)
    case _ => Sar(a, shamt)
  }

  function Alu(op: Opcode, a: u32, b: u32): u32 {
    match op
    case ADD => Add(a, b)
    case SUB => Sub(a, b)
    case SLL => Shl(a, b % 32)
    case SLT => OneIf(Signed(a) < Signed(b))
    case SLTU => OneIf(a < b)
    case XOR => Xor32(a, b)
    case SRL => Shr(a, b % 32)
    case SRA => Sar(a, b % 32)
    case OR => Or32(a, b)
    case AND => And32(a, b)
    case MUL => MulDiv.Mul(a, b)
    case MULH => MulDiv.Mulh(a, b)
    case MULHU => MulDiv.Mulhu(a, b)
    case MULHSU => MulDiv.Mulhsu(a, b)
    case DIV => MulDiv.Div(a, b)
    case DIVU => MulDiv.Divu(a, b)
    case REM => MulDiv.Rem(a, b)
    case _ => MulDiv.Remu(a, b)
  }

  function ExecOpImm(s: State, w: u32): Effect {
    match DecodeOpcode(w)
    case None => Abort(s)
    case Some(op) =>
      Retire(Advance(SetRegister(s, Rd(w), AluImm(op, GetRegister(s, Rs1(w)), ImmI(w), Rs2(w)))))
  }

  function ExecOp(s: State, w: u32): Effect {
    match DecodeOpcode(w)
    case None => Abort(s)
    case Some(op) =>
      Retire(Advance(SetRegister(s, Rd(w), Alu(op, GetRegister(s, Rs1(w)), GetRegister(s, Rs2(w))))))
  }

  function ExecUpper(s: State, w: u32): Effect {
    match DecodeOpcode(w)
    case None => Abort(s)
    case Some(op) =>
      Retire(Advance(SetRegister(s, Rd(w), if op == LUI then ImmU(w) else Add(s.pc, ImmU(w)))))
  }

  // --- SYSTEM ---

  /** The SBI call of a supervisor ECALL, selected by a7. */
  function Sbi(s: State, ch: u32): Effect {
    var a0, a1 := s.gpr[10], s.gpr[11];
    match s.gpr[17]
    case 0 =>
      Retire(Advance(s.(timeCompare := a1 * 0x1_0000_0000 + a0, csr := s.csr.(sip := SetField(s.csr.sip, 5, 1, 0)))))
    case 1 => Retire(Advance(s.(out := s.out + [PutChar(a0 % 0x100)])))
    case 2 => Retire(Advance(s.(gpr := s.gpr[10 := ch])))
    case 8 => Retire(Advance(s.(out := s.out + [Shutdown], gpr := s.gpr[10 := 0])))
    case _ => Abort(s)
  }

  /** A user access to a counter that scounteren does not open. */
  predicate CounterClosed(csr: Csrs, addr: nat) {
    || (Bit(csr.scounteren, 0) == 0 && addr in {0xC00, 0xC80})
    || (Bit(csr.scounteren, 1) == 0 && addr in {0xC01, 0xC81})
    || (Bit(csr.scounteren, 2) == 0 && addr in {0xC02, 0xC82})
  }

  /** A write to a read-only CSR; the set and clear forms look at the value of rs1, immediate or not. */
  predicate WriteRefused(op: Opcode, t: AccessType, rs1Value: u32) {
    t == URO && match op
                case CSRRW | CSRRWI => true
                case _ => rs1Value != 0
  }

  function CsrResult(op: Opcode, old_: u32, rs1Value: u32, uimm: reg): u32 {
    match op
    case CSRRW => rs1Value
    case CSRRS => Or32(old_, rs1Value)
    case CSRRC => And32(old_, Not32(rs1Value))
    case CSRRWI => uimm
    case CSRRSI => Or32(old_, uimm)
    case _ => And32(old_, Not32(uimm))
  }

  /** rd is written before the check for a read-only CSR. */
  function ExecCsr(s: State, w: u32, op: Opcode): Effect {
    var addr, rs1Value := Imm12(w), GetRegister(s, Rs1(w));
    match GetAccessType(addr)
    case None => Abort(s)
    case Some(t) =>
      if !s.super && CounterClosed(s.csr, addr) then Trap(2, w, s)
      else if !s.super && t == SRW then Trap(2, w, s)
      else
        var before := ReadCsr(s.csr, addr);
        var read := SetRegister(s, Rd(w), before);
        if WriteRefused(op, t, rs1Value) then Trap(2, w, read)
        else Retire(Advance(read.(csr := WriteCsr(s.csr, addr, CsrResult(op, before, rs1Value, Rs1(w))))))
  }

  function ExecSystem(s: State, w: u32, ch: u32): Effect {
    match DecodeOpcode(w)
    case None => Abort(s)
    case Some(op) =>
      match op
      case SRET => Retire(Sret(s))
      case ECALL => if s.super then Sbi(s, ch) else Trap(8, 0, s)
      case SFENCE_VMA | SFENCE_INVAL_IR | SFENCE_W_INVAL | WFI => Retire(Advance(s))
      case _ => ExecCsr(s, w, op)
  }

  // --- Every instruction ---

  ghost function Exec(s: State, w: u32, ch: u32): Effect {
    match DecodeType(w)
    case None => Abort(s)
    case Some(t) =>
      match t
      case LOAD => ExecLoad(s, w)
      case STORE => ExecStore(s, w)
      case BRANCH => ExecBranch(s, w)
      case JUMP => ExecJump(s, w)
      case AMO => ExecAmo(s, w)
      case OP_IMM => ExecOpImm(s, w)
      case OP => ExecOp(s, w)
      case SYSTEM => ExecSystem(s, w, ch)
      case OP_UI => ExecUpper(s, w)
      case OP_FENCE => Retire(Advance(s))
  }
}
