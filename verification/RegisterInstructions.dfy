/**
 * What the register instructions compute, by conditions that determine the result (RISC-V Unprivileged ISA 20191213,
 * sections 2.4, 7.1 and 7.2), proved of the instructions as they execute.
 */
module RegisterInstructions {
  import opened Bits
  import opened Words
  import opened PageWalk
  import opened Instructions
  import opened Decoder
  import Encoding
  import Datapath
  import Departures
  import MulDiv
  import opened HartState
  import opened Execute
  import opened Effects

  // --- Conditions on a result ---

  ghost predicate Congruent(r: u32, x: int) {
    (r - x) % 0x1_0000_0000 == 0
  }

  /** `q` is `x / d`, rounded down. */
  ghost predicate Quotient(q: int, x: int, d: int) {
    q * d <= x < (q + 1) * d
  }

  ghost predicate BitwiseAnd(a: u32, b: u32, r: u32) {
    forall k: nat | k < 32 :: Bit(r, k) == if Bit(a, k) == 1 && Bit(b, k) == 1 then 1 else 0
  }

  ghost predicate BitwiseOr(a: u32, b: u32, r: u32) {
    forall k: nat | k < 32 :: Bit(r, k) == if Bit(a, k) == 1 || Bit(b, k) == 1 then 1 else 0
  }

  ghost predicate BitwiseXor(a: u32, b: u32, r: u32) {
    forall k: nat | k < 32 :: Bit(r, k) == if Bit(a, k) != Bit(b, k) then 1 else 0
  }

  ghost predicate Overflows(a: u32, b: u32) {
    Signed(a) == -0x8000_0000 && Signed(b) == -1
  }

  ghost predicate Divided(a: u32, b: u32, q: u32) {
    if b == 0 then Signed(q) == -1
    else if Overflows(a, b) then q == a
    else exists r: int :: MulDiv.Divides(Signed(a), Signed(b), Signed(q), r)
  }

  ghost predicate Remainder(a: u32, b: u32, r: u32) {
    if b == 0 then r == a
    else if Overflows(a, b) then r == 0
    else exists q: int :: MulDiv.Divides(Signed(a), Signed(b), q, Signed(r))
  }

  /** `r` is the result of the instruction for the operands `a` and `b`. */
  ghost predicate Computes(op: Opcode, a: u32, b: u32, r: u32) {
    match op
    case ADD => Congruent(r, a + b)
    case SUB => Congruent(r, a - b)
    case AND => BitwiseAnd(a, b, r)
    case OR => BitwiseOr(a, b, r)
    case XOR => BitwiseXor(a, b, r)
    case SLT => r == if Signed(a) < Signed(b) then 1 else 0
    case SLTU => r == if a < b then 1 else 0
    case SLL => Congruent(r, a * Pow2(b % 32))
    case SRL => Quotient(r, a, Pow2(b % 32))
    case SRA => Quotient(Signed(r), Signed(a), Pow2(b % 32))
    case MUL => Congruent(r, a * b)
    case MULH => Quotient(Signed(r), Signed(a) * Signed(b), 0x1_0000_0000)
    case MULHSU => Quotient(Signed(r), Signed(a) * b, 0x1_0000_0000)
    case MULHU => Quotient(r, a * b, 0x1_0000_0000)
    case DIV => Divided(a, b, r)
    case REM => Remainder(a, b, r)
    case DIVU => if b == 0 then r == 0xFFFF_FFFF else Quotient(r, a, b)
    case REMU => if b == 0 then r == a else r < b && (a - r) % b == 0
    case _ => false
  }

  predicate IsRegisterOp(op: Opcode) {
    op in {ADD, SUB, AND, OR, XOR, SLT, SLTU, SLL, SRL, SRA, MUL, MULH, MULHSU, MULHU, DIV, REM, DIVU, REMU}
  }

  // --- The conditions leave one result ---

  lemma CongruentUnique(r: u32, t: u32, x: int)
    requires Congruent(r, x) && Congruent(t, x)
    ensures r == t
  {
    var k, j := (r - x) / 0x1_0000_0000, (t - x) / 0x1_0000_0000;
    assert r - t == (k - j) * 0x1_0000_0000;
  }

  lemma QuotientUnique(q: int, p: int, x: int, d: nat)
    requires d > 0 && Quotient(q, x, d) && Quotient(p, x, d)
    ensures q == p
  {
    MulAtLeast(q - p, d);
    assert (q - p) * d == q * d - p * d;
    assert (q + 1) * d == q * d + d && (p + 1) * d == p * d + d;
  }

  lemma RemainderUnique(a: nat, b: nat, r: nat, t: nat)
    requires r < b && t < b && (a - r) % b == 0 && (a - t) % b == 0
    ensures r == t
  {
    Euclid(a - r, b);
    Euclid(a - t, b);
    var k, j := (a - r) / b, (a - t) / b;
    MulAtLeast(k - j, b);
    assert (k - j) * b == t - r by {
      assert (k - j) * b == k * b - j * b;
    }
  }

  lemma DivisionUnique(op: Opcode, a: u32, b: u32, r: u32, t: u32)
    requires op in {DIV, REM, DIVU, REMU} && Computes(op, a, b, r) && Computes(op, a, b, t)
    ensures r == t
  {
    hide MulDiv.Divides, Signed, Quotient;
    if b == 0 {
      SignedMatters(r, t);
    } else if op == DIV && !Overflows(a, b) {
      SignedNonZero(b);
      var x: int :| MulDiv.Divides(Signed(a), Signed(b), Signed(r), x);
      var y: int :| MulDiv.Divides(Signed(a), Signed(b), Signed(t), y);
      MulDiv.DividesUnique(Signed(a), Signed(b), Signed(r), x, Signed(t), y);
      SignedMatters(r, t);
    } else if op == REM && !Overflows(a, b) {
      SignedNonZero(b);
      var x: int :| MulDiv.Divides(Signed(a), Signed(b), x, Signed(r));
      var y: int :| MulDiv.Divides(Signed(a), Signed(b), y, Signed(t));
      MulDiv.DividesUnique(Signed(a), Signed(b), x, Signed(r), y, Signed(t));
      SignedMatters(r, t);
    } else if op == DIVU {
      QuotientUnique(r, t, a, b);
    } else if op == REMU {
      RemainderUnique(a, b, r, t);
    }
  }

  lemma SignedMatters(r: u32, t: u32)
    ensures Signed(r) == Signed(t) ==> r == t
  {
  }

  lemma SignedNonZero(b: u32)
    ensures b != 0 ==> Signed(b) != 0
  {
  }

  lemma BitwiseUnique(op: Opcode, a: u32, b: u32, r: u32, t: u32)
    requires op in {AND, OR, XOR} && Computes(op, a, b, r) && Computes(op, a, b, t)
    ensures r == t
  {
    hide Bit;
    Departures.SameBits(r, t);
  }

  lemma ProductUnique(op: Opcode, a: u32, b: u32, r: u32, t: u32)
    requires op in {MUL, MULH, MULHSU, MULHU} && Computes(op, a, b, r) && Computes(op, a, b, t)
    ensures r == t
  {
    hide Congruent, Quotient, Signed;
    if op == MUL {
      CongruentUnique(r, t, a * b);
    } else if op == MULH {
      QuotientUnique(Signed(r), Signed(t), Signed(a) * Signed(b), 0x1_0000_0000);
    } else if op == MULHSU {
      QuotientUnique(Signed(r), Signed(t), Signed(a) * b, 0x1_0000_0000);
    } else {
      QuotientUnique(r, t, a * b, 0x1_0000_0000);
    }
    SignedMatters(r, t);
  }

  lemma ShiftUnique(op: Opcode, a: u32, b: u32, r: u32, t: u32)
    requires op in {SLL, SRL, SRA} && Computes(op, a, b, r) && Computes(op, a, b, t)
    ensures r == t
  {
    hide Congruent, Quotient, Signed, Pow2;
    if op == SLL {
      CongruentUnique(r, t, a * Pow2(b % 32));
    } else if op == SRL {
      QuotientUnique(r, t, a, Pow2(b % 32));
    } else {
      QuotientUnique(Signed(r), Signed(t), Signed(a), Pow2(b % 32));
      SignedMatters(r, t);
    }
  }

  lemma SumUnique(op: Opcode, a: u32, b: u32, r: u32, t: u32)
    requires op in {ADD, SUB, SLT, SLTU} && Computes(op, a, b, r) && Computes(op, a, b, t)
    ensures r == t
  {
    hide Congruent, Signed;
    if op == ADD {
      CongruentUnique(r, t, a + b);
    } else if op == SUB {
      CongruentUnique(r, t, a - b);
    }
  }

  /** No two results satisfy the condition of an instruction. */
  lemma ComputesUnique(op: Opcode, a: u32, b: u32, r: u32, t: u32)
    requires Computes(op, a, b, r) && Computes(op, a, b, t)
    ensures r == t
  {
    hide Computes;
    if op in {DIV, REM, DIVU, REMU} {
      DivisionUnique(op, a, b, r, t);
    } else if op in {AND, OR, XOR} {
      BitwiseUnique(op, a, b, r, t);
    } else if op in {MUL, MULH, MULHSU, MULHU} {
      ProductUnique(op, a, b, r, t);
    } else if op in {SLL, SRL, SRA} {
      ShiftUnique(op, a, b, r, t);
    } else {
      OnlyRegisterOps(op, a, b, r);
      SumUnique(op, a, b, r, t);
    }
  }

  lemma OnlyRegisterOps(op: Opcode, a: u32, b: u32, r: u32)
    requires Computes(op, a, b, r)
    ensures IsRegisterOp(op)
  {
    hide Congruent, Quotient, BitwiseAnd, BitwiseOr, BitwiseXor, Divided, Remainder, Signed, Pow2;
  }

  // --- The results of the source meet them ---

  lemma WrapCongruent(x: int)
    ensures Congruent(Wrap(x), x)
  {
    Euclid(x, 0x1_0000_0000);
    var q := x / 0x1_0000_0000;
    assert Wrap(x) - x == (0 - q) * 0x1_0000_0000;
  }

  lemma DivQuotient(x: int, d: nat)
    requires d > 0
    ensures Quotient(x / d, x, d)
  {
    Euclid(x, d);
    assert (x / d + 1) * d == (x / d) * d + d;
  }

  lemma HighQuotient(hi: u32, lo: u32, x: int)
    ensures MulDiv.Signed64(hi, lo) == x ==> Quotient(Signed(hi), x, 0x1_0000_0000)
    ensures hi * 0x1_0000_0000 + lo == x ==> Quotient(hi, x, 0x1_0000_0000)
  {
  }

  lemma BitwiseHold(a: u32, b: u32)
    ensures BitwiseAnd(a, b, And32(a, b)) && BitwiseOr(a, b, Or32(a, b)) && BitwiseXor(a, b, Xor32(a, b))
  {
    hide Read, And, Or, Xor;
    forall k: nat | k < 32
      ensures Bit(And32(a, b), k) == if Bit(a, k) == 1 && Bit(b, k) == 1 then 1 else 0
      ensures Bit(Or32(a, b), k) == if Bit(a, k) == 1 || Bit(b, k) == 1 then 1 else 0
      ensures Bit(Xor32(a, b), k) == if Bit(a, k) != Bit(b, k) then 1 else 0
    {
      Datapath.AndBits(a, b, k);
      Datapath.OrXorBits(a, b, k);
    }
  }

  lemma SumsHold(a: u32, b: u32)
    ensures Computes(ADD, a, b, Alu(ADD, a, b)) && Computes(SUB, a, b, Alu(SUB, a, b))
  {
    hide Congruent, Wrap;
    WrapCongruent(a + b);
    WrapCongruent(a - b);
  }

  lemma OrdersHold(a: u32, b: u32)
    ensures Computes(SLT, a, b, Alu(SLT, a, b)) && Computes(SLTU, a, b, Alu(SLTU, a, b))
  {
    hide Signed;
  }

  lemma LogicHolds(a: u32, b: u32)
    ensures Computes(AND, a, b, Alu(AND, a, b)) && Computes(OR, a, b, Alu(OR, a, b))
    ensures Computes(XOR, a, b, Alu(XOR, a, b))
  {
    hide And32, Or32, Xor32, BitwiseAnd, BitwiseOr, BitwiseXor;
    BitwiseHold(a, b);
  }

  lemma ShiftsHold(a: u32, b: u32)
    ensures Computes(SLL, a, b, Alu(SLL, a, b)) && Computes(SRL, a, b, Alu(SRL, a, b))
    ensures Computes(SRA, a, b, Alu(SRA, a, b))
  {
    hide Pow2, Signed, Quotient, Congruent, Sar, Wrap;
    var d := Pow2(b % 32);
    WrapCongruent(a * d);
    DivQuotient(a, d);
    DivQuotient(Signed(a), d);
    Datapath.SarDivides(a, b % 32);
  }

  lemma SignedProductsHold(a: u32, b: u32)
    ensures Computes(MULH, a, b, Alu(MULH, a, b)) && Computes(MULHSU, a, b, Alu(MULHSU, a, b))
  {
    hide Signed, Quotient, Wrap, MulDiv.Mul, MulDiv.Mulh, MulDiv.Mulhsu, MulDiv.Signed64;
    MulDiv.MulhPair(a, b);
    MulDiv.MulhsuPair(a, b);
    HighQuotient(MulDiv.Mulh(a, b), MulDiv.Mul(a, b), Signed(a) * Signed(b));
    HighQuotient(MulDiv.Mulhsu(a, b), MulDiv.Mul(a, b), Signed(a) * b);
  }

  lemma UnsignedProductsHold(a: u32, b: u32)
    ensures Computes(MUL, a, b, Alu(MUL, a, b)) && Computes(MULHU, a, b, Alu(MULHU, a, b))
  {
    hide Quotient, Congruent, Wrap, MulDiv.Mulhu;
    WrapCongruent(a * b);
    MulDiv.MulhuPair(a, b);
    HighQuotient(MulDiv.Mulhu(a, b), MulDiv.Mul(a, b), a * b);
  }

  lemma OverflowIs(a: u32, b: u32)
    ensures Overflows(a, b) <==> a == 0x8000_0000 && b == 0xFFFF_FFFF
  {
  }

  lemma DividedHold(a: u32, b: u32)
    ensures Divided(a, b, MulDiv.Div(a, b)) && Remainder(a, b, MulDiv.Rem(a, b))
  {
    hide Signed, MulDiv.Divides, MulDiv.Div, MulDiv.Rem, Overflows;
    OverflowIs(a, b);
    if b == 0 {
      MulDiv.DivideByZero(a);
    } else {
      MulDiv.DivRem(a, b);
    }
  }

  lemma UnsignedDivision(a: u32, b: u32)
    requires b != 0
    ensures Quotient(MulDiv.Divu(a, b), a, b)
    ensures MulDiv.Remu(a, b) < b && (a - MulDiv.Remu(a, b)) % b == 0
  {
    hide MulDiv.Divu, MulDiv.Remu;
    MulDiv.DivuRemu(a, b);
    var q, r := MulDiv.Divu(a, b), MulDiv.Remu(a, b);
    assert (q + 1) * b == b * q + b;
    Multiple(a - r, q, b);
  }

  lemma Multiple(x: nat, q: nat, d: nat)
    requires d > 0 && x == d * q
    ensures x % d == 0
  {
    DivMod(x, q, 0, d);
  }

  lemma SignedDivisionsHold(a: u32, b: u32)
    ensures Computes(DIV, a, b, Alu(DIV, a, b)) && Computes(REM, a, b, Alu(REM, a, b))
  {
    hide Divided, Remainder, MulDiv.Div, MulDiv.Rem;
    DividedHold(a, b);
  }

  lemma UnsignedDivisionsHold(a: u32, b: u32)
    ensures Computes(DIVU, a, b, Alu(DIVU, a, b)) && Computes(REMU, a, b, Alu(REMU, a, b))
  {
    hide Quotient, MulDiv.Divu, MulDiv.Remu;
    if b == 0 {
      MulDiv.DivideByZero(a);
    } else {
      UnsignedDivision(a, b);
    }
  }

  lemma AluComputes(op: Opcode, a: u32, b: u32)
    requires IsRegisterOp(op)
    ensures Computes(op, a, b, Alu(op, a, b))
  {
    hide Computes, Alu;
    if op in {ADD, SUB} {
      SumsHold(a, b);
    } else if op in {SLT, SLTU} {
      OrdersHold(a, b);
    } else if op in {AND, OR, XOR} {
      LogicHolds(a, b);
    } else if op in {SLL, SRL, SRA} {
      ShiftsHold(a, b);
    } else if op in {MULH, MULHSU} {
      SignedProductsHold(a, b);
    } else if op in {MUL, MULHU} {
      UnsignedProductsHold(a, b);
    } else if op in {DIV, REM} {
      SignedDivisionsHold(a, b);
    } else {
      UnsignedDivisionsHold(a, b);
    }
  }

  // --- Immediate forms ---

  predicate IsImmediateOp(op: Opcode) {
    op in {ADDI, SLTI, SLTIU, XORI, ORI, ANDI, SLLI, SRLI, SRAI}
  }

  /** The register form of an immediate instruction. */
  function RegisterForm(op: Opcode): Opcode
    requires IsImmediateOp(op)
  {
    match op
    case ADDI => ADD
    case SLTI => SLT
    case SLTIU => SLTU
    case XORI => XOR
    case ORI => OR
    case ANDI => AND
    case SLLI => SLL
    case SRLI => SRL
    case _ => SRA
  }

  /** Its second operand: the sign-extended immediate, or the shift amount. */
  function Immediate(w: u32, op: Opcode): u32 {
    if op in {SLLI, SRLI, SRAI} then Rs2(w) else ImmI(w)
  }

  lemma ImmediateShifts(op: Opcode, a: u32, imm: u32, shamt: reg)
    requires op in {SLLI, SRLI, SRAI}
    ensures AluImm(op, a, imm, shamt) == Alu(RegisterForm(op), a, shamt)
  {
    hide Shl, Shr, Sar;
  }

  lemma ImmediateOthers(op: Opcode, a: u32, imm: u32, shamt: reg)
    requires op in {ADDI, SLTI, SLTIU, XORI, ORI, ANDI}
    ensures AluImm(op, a, imm, shamt) == Alu(RegisterForm(op), a, imm)
  {
    hide Add, Signed, Xor32, Or32, And32;
  }

  lemma ImmediateIsRegister(op: Opcode, a: u32, w: u32)
    requires IsImmediateOp(op)
    ensures AluImm(op, a, ImmI(w), Rs2(w)) == Alu(RegisterForm(op), a, Immediate(w, op))
    ensures IsRegisterOp(RegisterForm(op))
  {
    hide AluImm, Alu, ImmI, Rs2;
    if op in {SLLI, SRLI, SRAI} {
      ImmediateShifts(op, a, ImmI(w), Rs2(w));
    } else {
      ImmediateOthers(op, a, ImmI(w), Rs2(w));
    }
  }

  // --- The instructions as they execute ---

  /** `rd` holds `v` (register 0 holds zero) and every other register is as it was. */
  ghost predicate Written(g: Registers, h: Registers, rd: reg, v: u32) {
    && h[0] == 0 && (rd != 0 ==> h[rd] == v)
    && forall k | 0 < k < 32 && k != rd :: h[k] == g[k]
  }

  /** The instruction retires with `v` in rd and changes nothing else but the pc. */
  ghost predicate Yields(s: State, w: u32, e: Effect, v: u32) {
    && e.Retire?
    && Written(s.gpr, e.next.gpr, Rd(w), v)
    && e.next == s.(gpr := e.next.gpr, pc := Wrap(s.pc + 4))
  }

  lemma SetYields(s: State, w: u32, v: u32)
    ensures Yields(s, w, Retire(Advance(SetRegister(s, Rd(w), v))), v)
  {
    hide Rd;
  }

  lemma RegisterClass(w: u32, op: Opcode)
    requires IsOp(w, op)
    ensures IsRegisterOp(op) ==> IsType(w, OP)
    ensures IsImmediateOp(op) ==> IsType(w, OP_IMM)
    ensures op in {LUI, AUIPC} ==> IsType(w, OP_UI)
  {
    hide DecodeType, DecodeOpcode;
    Encoding.DecodedClass(w);
  }

  /** A register instruction puts in rd the one result that meets its condition for rs1 and rs2, in that order. */
  lemma RegisterOp(s: State, w: u32, ch: u32, op: Opcode) returns (v: u32)
    requires IsOp(w, op) && IsRegisterOp(op)
    ensures Yields(s, w, Exec(s, w, ch), v) && Computes(op, s.gpr[Rs1(w)], s.gpr[Rs2(w)], v)
  {
    hide Exec, Computes, Alu, Yields, DecodeType, DecodeOpcode, Rs1, Rs2, Rd;
    RegisterClass(w, op);
    v := Alu(op, GetRegister(s, Rs1(w)), GetRegister(s, Rs2(w)));
    AluComputes(op, GetRegister(s, Rs1(w)), GetRegister(s, Rs2(w)));
    SetYields(s, w, v);
    RegisterExec(s, w, ch, op);
  }

  lemma RegisterExec(s: State, w: u32, ch: u32, op: Opcode)
    requires IsOp(w, op) && IsType(w, OP)
    ensures Exec(s, w, ch)
         == Retire(Advance(SetRegister(s, Rd(w), Alu(op, GetRegister(s, Rs1(w)), GetRegister(s, Rs2(w))))))
  {
    hide DecodeType, DecodeOpcode, Alu, Rs1, Rs2, Rd;
  }

  /** An immediate instruction does what its register form does with the immediate in place of rs2. */
  lemma ImmediateOp(s: State, w: u32, ch: u32, op: Opcode) returns (v: u32)
    requires IsOp(w, op) && IsImmediateOp(op)
    ensures Yields(s, w, Exec(s, w, ch), v) && Computes(RegisterForm(op), s.gpr[Rs1(w)], Immediate(w, op), v)
  {
    hide Exec, Computes, Alu, AluImm, Yields, DecodeType, DecodeOpcode, Rs1, Rs2, Rd, ImmI, RegisterForm, Immediate;
    RegisterClass(w, op);
    v := AluImm(op, GetRegister(s, Rs1(w)), ImmI(w), Rs2(w));
    ImmediateIsRegister(op, GetRegister(s, Rs1(w)), w);
    AluComputes(RegisterForm(op), GetRegister(s, Rs1(w)), Immediate(w, op));
    SetYields(s, w, v);
    ImmediateExec(s, w, ch, op);
  }

  lemma ImmediateExec(s: State, w: u32, ch: u32, op: Opcode)
    requires IsOp(w, op) && IsType(w, OP_IMM)
    ensures Exec(s, w, ch)
         == Retire(Advance(SetRegister(s, Rd(w), AluImm(op, GetRegister(s, Rs1(w)), ImmI(w), Rs2(w)))))
  {
    hide DecodeType, DecodeOpcode, AluImm, Rs1, Rs2, Rd, ImmI;
  }

  /** LUI puts its immediate in rd, AUIPC the sum of the pc and the immediate. */
  lemma UpperOp(s: State, w: u32, ch: u32)
    ensures IsOp(w, LUI) ==> Yields(s, w, Exec(s, w, ch), ImmU(w))
    ensures IsOp(w, AUIPC) ==> Yields(s, w, Exec(s, w, ch), Wrap(s.pc + ImmU(w)))
  {
    hide Exec, Yields, DecodeType, DecodeOpcode, ImmU;
    if IsOp(w, LUI) {
      RegisterClass(w, LUI);
      SetYields(s, w, ImmU(w));
      UpperExec(s, w, ch);
    }
    if IsOp(w, AUIPC) {
      RegisterClass(w, AUIPC);
      SetYields(s, w, Wrap(s.pc + ImmU(w)));
      UpperExec(s, w, ch);
    }
  }

  lemma UpperExec(s: State, w: u32, ch: u32)
    requires IsType(w, OP_UI)
    ensures IsOp(w, LUI) ==> Exec(s, w, ch) == Retire(Advance(SetRegister(s, Rd(w), ImmU(w))))
    ensures IsOp(w, AUIPC) ==> Exec(s, w, ch) == Retire(Advance(SetRegister(s, Rd(w), Wrap(s.pc + ImmU(w)))))
  {
    hide DecodeType, DecodeOpcode, Rd, ImmU, SetRegister, Advance, Wrap;
    UpperClass(s, w, ch);
    hide Exec;
    assert IsOp(w, AUIPC) ==> Add(s.pc, ImmU(w)) == Wrap(s.pc + ImmU(w));
  }

  lemma UpperClass(s: State, w: u32, ch: u32)
    requires IsType(w, OP_UI)
    ensures Exec(s, w, ch) == ExecUpper(s, w)
  {
    hide DecodeType, ExecUpper;
  }
}
