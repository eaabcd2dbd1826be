/**
 * The instruction formats and listing of the RISC-V Unprivileged ISA (20191213), sections 2.2 and 2.3 and chapters
 * 2, 3 and 7 to 9, with SRET, WFI, SFENCE and SINVAL from the Privileged Specification (20211203), written from the
 * standards, and the round trip through the decoder.
 */
module Encoding {
  import opened Bits
  import opened Words
  import opened Wrappers
  import opened Instructions
  import opened Decoder

  datatype Format = R | A | I | S | B | U | J | Csr | Fixed

  /** The bits aq and rl of an atomic instruction. */
  type order = x: int | 0 <= x < 4

  /** What the standard calls an instruction's operands; a format uses only some of them. */
  datatype Operands = Operands(rd: reg, rs1: reg, rs2: reg, imm: int, order: order)

  /**
   * The instruction listing: class, format, opcode, funct3, and the constant above the operands
   * (funct7 of an R word, funct5 of an atomic word; bits 31..20 of a fixed word).
   */
  datatype Row = Row(class_: InstructionType, format: Format, major: nat, funct3: nat, high: nat)

  function Listing(op: Opcode): Row {
    match op
    case LUI => Row(OP_UI, U, 0x37, 0, 0)
    case AUIPC => Row(OP_UI, U, 0x17, 0, 0)
    case JAL => Row(JUMP, J, 0x6F, 0, 0)
    case JALR => Row(JUMP, I, 0x67, 0, 0)
    case BEQ => Row(BRANCH, B, 0x63, 0, 0)
    case BNE => Row(BRANCH, B, 0x63, 1, 0)
    case BLT => Row(BRANCH, B, 0x63, 4, 0)
    case BGE => Row(BRANCH, B, 0x63, 5, 0)
    case BLTU => Row(BRANCH, B, 0x63, 6, 0)
    case BGEU => Row(BRANCH, B, 0x63, 7, 0)
    case LB => Row(LOAD, I, 0x03, 0, 0)
    case LH => Row(LOAD, I, 0x03, 1, 0)
    case LW => Row(LOAD, I, 0x03, 2, 0)
    case LBU => Row(LOAD, I, 0x03, 4, 0)
    case LHU => Row(LOAD, I, 0x03, 5, 0)
    case SB => Row(STORE, S, 0x23, 0, 0)
    case SH => Row(STORE, S, 0x23, 1, 0)
    case SW => Row(STORE, S, 0x23, 2, 0)
    case ADDI => Row(OP_IMM, I, 0x13, 0, 0)
    case SLTI => Row(OP_IMM, I, 0x13, 2, 0)
    case SLTIU => Row(OP_IMM, I, 0x13, 3, 0)
    case XORI => Row(OP_IMM, I, 0x13, 4, 0)
    case ORI => Row(OP_IMM, I, 0x13, 6, 0)
    case ANDI => Row(OP_IMM, I, 0x13, 7, 0)
    case SLLI => Row(OP_IMM, R, 0x13, 1, 0)
    case SRLI => Row(OP_IMM, R, 0x13, 5, 0)
    case SRAI => Row(OP_IMM, R, 0x13, 5, 0x20)
    case ADD => Row(OP, R, 0x33, 0, 0)
    case SUB => Row(OP, R, 0x33, 0, 0x20)
    case SLL => Row(OP, R, 0x33, 1, 0)
    case SLT => Row(OP, R, 0x33, 2, 0)
    case SLTU => Row(OP, R, 0x33, 3, 0)
    case XOR => Row(OP, R, 0x33, 4, 0)
    case SRL => Row(OP, R, 0x33, 5, 0)
    case SRA => Row(OP, R, 0x33, 5, 0x20)
    case OR => Row(OP, R, 0x33, 6, 0)
    case AND => Row(OP, R, 0x33, 7, 0)
    case MUL => Row(OP, R, 0x33, 0, 1)
    case MULH => Row(OP, R, 0x33, 1, 1)
    case MULHSU => Row(OP, R, 0x33, 2, 1)
    case MULHU => Row(OP, R, 0x33, 3, 1)
    case DIV => Row(OP, R, 0x33, 4, 1)
    case DIVU => Row(OP, R, 0x33, 5, 1)
    case REM => Row(OP, R, 0x33, 6, 1)
    case REMU => Row(OP, R, 0x33, 7, 1)
    case FENCE => Row(OP_FENCE, I, 0x0F, 0, 0)
    case FENCE_I => Row(OP_FENCE, I, 0x0F, 1, 0)
    case ECALL => Row(SYSTEM, Fixed, 0x73, 0, 0)
    case EBREAK => Row(SYSTEM, Fixed, 0x73, 0, 0x001)
    case SRET => Row(SYSTEM, Fixed, 0x73, 0, 0x102)
    case WFI => Row(SYSTEM, Fixed, 0x73, 0, 0x105)
    case SFENCE_W_INVAL => Row(SYSTEM, Fixed, 0x73, 0, 0x180)
    case SFENCE_INVAL_IR => Row(SYSTEM, Fixed, 0x73, 0, 0x181)
    case SFENCE_VMA => Row(SYSTEM, R, 0x73, 0, 0x09)
    case SINVAL_VMA => Row(SYSTEM, R, 0x73, 0, 0x0B)
    case CSRRW => Row(SYSTEM, Csr, 0x73, 1, 0)
    case CSRRS => Row(SYSTEM, Csr, 0x73, 2, 0)
    case CSRRC => Row(SYSTEM, Csr, 0x73, 3, 0)
    case CSRRWI => Row(SYSTEM, Csr, 0x73, 5, 0)
    case CSRRSI => Row(SYSTEM, Csr, 0x73, 6, 0)
    case CSRRCI => Row(SYSTEM, Csr, 0x73, 7, 0)
    case LR_W => Row(AMO, A, 0x2F, 2, 0x02)
    case SC_W => Row(AMO, A, 0x2F, 2, 0x03)
    case AMOSWAP_W => Row(AMO, A, 0x2F, 2, 0x01)
    case AMOADD_W => Row(AMO, A, 0x2F, 2, 0x00)
    case AMOXOR_W => Row(AMO, A, 0x2F, 2, 0x04)
    case AMOAND_W => Row(AMO, A, 0x2F, 2, 0x0C)
    case AMOOR_W => Row(AMO, A, 0x2F, 2, 0x08)
    case AMOMIN_W => Row(AMO, A, 0x2F, 2, 0x10)
    case AMOMAX_W => Row(AMO, A, 0x2F, 2, 0x14)
    case AMOMINU_W => Row(AMO, A, 0x2F, 2, 0x18)
    case AMOMAXU_W => Row(AMO, A, 0x2F, 2, 0x1C)
  }

  /** The operands the format can carry. */
  predicate InRange(format: Format, x: Operands) {
    match format
    case R => true
    case A => true
    case I => -0x800 <= x.imm < 0x800
    case S => -0x800 <= x.imm < 0x800
    case B => -0x1000 <= x.imm < 0x1000 && x.imm % 2 == 0
    case U => 0 <= x.imm < 0x1_0000_0000 && x.imm % 0x1000 == 0
    case J => -0x10_0000 <= x.imm < 0x10_0000 && x.imm % 2 == 0
    case Csr => 0 <= x.imm < 0x1000
    case Fixed => true
  }

  // --- The word of each format, as the list of its fields ---

  datatype Field = Field(lo: nat, len: nat, v: nat)

  function Assemble(fields: seq<Field>): nat {
    if fields == [] then 0
    else Write(Assemble(fields[1..]), fields[0].lo, fields[0].len, fields[0].v)
  }

  function RWord(major: nat, funct3: nat, funct7: nat, rd: reg, rs1: reg, rs2: reg): seq<Field> {
    [Field(25, 7, funct7), Field(20, 5, rs2), Field(15, 5, rs1), Field(12, 3, funct3), Field(7, 5, rd),
        Field(0, 7, major)]
  }

  function IWord(major: nat, funct3: nat, rd: reg, rs1: reg, imm: nat): seq<Field> {
    [Field(20, 12, imm), Field(15, 5, rs1), Field(12, 3, funct3), Field(7, 5, rd), Field(0, 7, major)]
  }

  function SWord(major: nat, funct3: nat, rs1: reg, rs2: reg, imm: nat): seq<Field> {
    [Field(25, 7, Read(imm, 5, 7)), Field(20, 5, rs2), Field(15, 5, rs1), Field(12, 3, funct3),
     Field(7, 5, Read(imm, 0, 5)), Field(0, 7, major)]
  }

  function BWord(major: nat, funct3: nat, rs1: reg, rs2: reg, imm: nat): seq<Field> {
    [Field(31, 1, Read(imm, 12, 1)), Field(25, 6, Read(imm, 5, 6)), Field(20, 5, rs2), Field(15, 5, rs1),
     Field(12, 3, funct3), Field(8, 4, Read(imm, 1, 4)), Field(7, 1, Read(imm, 11, 1)), Field(0, 7, major)]
  }

  function UWord(major: nat, rd: reg, high: nat): seq<Field> {
    [Field(12, 20, high), Field(7, 5, rd), Field(0, 7, major)]
  }

  function JWord(major: nat, rd: reg, imm: nat): seq<Field> {
    [Field(31, 1, Read(imm, 20, 1)), Field(21, 10, Read(imm, 1, 10)), Field(20, 1, Read(imm, 11, 1)),
     Field(12, 8, Read(imm, 12, 8)), Field(7, 5, rd), Field(0, 7, major)]
  }

  /** The low `width` bits of a two's-complement immediate. */
  function Low(imm: int, width: nat): nat {
    imm % Pow2(width)
  }

  function Fields(row: Row, x: Operands): seq<Field>
    requires InRange(row.format, x)
  {
    match row.format
    case R => RWord(row.major, row.funct3, row.high, x.rd, x.rs1, x.rs2)
    case A => RWord(row.major, row.funct3, row.high * 4 + x.order, x.rd, x.rs1, x.rs2)
    case I => IWord(row.major, row.funct3, x.rd, x.rs1, Low(x.imm, 12))
    case S => SWord(row.major, row.funct3, x.rs1, x.rs2, Low(x.imm, 12))
    case B => BWord(row.major, row.funct3, x.rs1, x.rs2, Low(x.imm, 13))
    case U => UWord(row.major, x.rd, x.imm / 0x1000)
    case J => JWord(row.major, x.rd, Low(x.imm, 21))
    case Csr => IWord(row.major, row.funct3, x.rd, x.rs1, x.imm)
    case Fixed => IWord(row.major, row.funct3, 0, 0, row.high)
  }

  function EncodeRow(row: Row, x: Operands): nat
    requires InRange(row.format, x)
  {
    Assemble(Fields(row, x))
  }

  function Encode(op: Opcode, x: Operands): nat
    requires InRange(Listing(op).format, x)
  {
    EncodeRow(Listing(op), x)
  }

  /** The word has the constants its row lists. */
  predicate Fits(row: Row, w: u32) {
    && Major(w) == row.major
    && (row.format !in {U, J} ==> Funct3(w) == row.funct3)
    && (row.format == R ==> Funct7(w) == row.high)
    && (row.format == A ==> Funct7(w) / 4 == row.high)
    && (row.format == Fixed ==> Imm12(w) == row.high)
  }

  /** The word gives back the operands of its format. */
  predicate Carries(format: Format, w: u32, x: Operands) {
    match format
    case R => Rd(w) == x.rd && Rs1(w) == x.rs1 && Rs2(w) == x.rs2
    case A => Rd(w) == x.rd && Rs1(w) == x.rs1 && Rs2(w) == x.rs2 && Funct7(w) % 4 == x.order
    case I => Rd(w) == x.rd && Rs1(w) == x.rs1 && ImmI(w) == Wrap(x.imm)
    case S => Rs1(w) == x.rs1 && Rs2(w) == x.rs2 && ImmS(w) == Wrap(x.imm)
    case B => Rs1(w) == x.rs1 && Rs2(w) == x.rs2 && ImmB(w) == Wrap(x.imm)
    case U => Rd(w) == x.rd && ImmU(w) == x.imm
    case J => Rd(w) == x.rd && ImmJ(w) == Wrap(x.imm)
    case Csr => Rd(w) == x.rd && Rs1(w) == x.rs1 && Imm12(w) == x.imm
    case Fixed => true
  }

  // --- Field bookkeeping ---

  /** The fields fit, do not overlap, and stay in a word. */
  ghost predicate Layout(fields: seq<Field>) {
    && (forall i | 0 <= i < |fields| :: fields[i].v < Pow2(fields[i].len) && fields[i].lo + fields[i].len <= 32)
    && (forall i, j | 0 <= i < j < |fields| :: fields[j].lo + fields[j].len <= fields[i].lo)
  }

  lemma {:induction false} AssembleBound(fields: seq<Field>)
    requires Layout(fields)
    ensures Assemble(fields) < 0x1_0000_0000
  {
    Pow2Of32();
    if fields != [] {
      AssembleBound(fields[1..]);
      WriteBound(Assemble(fields[1..]), fields[0].lo, fields[0].len, fields[0].v, 32);
    }
  }

  lemma {:induction false} AssembleRead(fields: seq<Field>, i: nat)
    requires Layout(fields) && i < |fields|
    ensures Read(Assemble(fields), fields[i].lo, fields[i].len) == fields[i].v
  {
    var f, rest := fields[0], Assemble(fields[1..]);
    if i == 0 {
      ReadWritten(rest, f.lo, f.len, f.v);
      ReadLow(f.v, f.len);
    } else {
      AssembleRead(fields[1..], i - 1);
      ReadOther(rest, f.lo, f.len, f.v, fields[i].lo, fields[i].len);
    }
  }

  /** Every field of a laid-out word is read back. */
  lemma AssembleReads(fields: seq<Field>)
    requires Layout(fields)
    ensures Assemble(fields) < 0x1_0000_0000
    ensures forall i | 0 <= i < |fields| :: Read(Assemble(fields), fields[i].lo, fields[i].len) == fields[i].v
  {
    AssembleBound(fields);
    forall i | 0 <= i < |fields|
      ensures Read(Assemble(fields), fields[i].lo, fields[i].len) == fields[i].v
    {
      AssembleRead(fields, i);
    }
  }

  lemma Pow2Small()
    ensures Pow2(1) == 2 && Pow2(3) == 8 && Pow2(4) == 16 && Pow2(5) == 32 && Pow2(6) == 64 && Pow2(7) == 128
  {
  }

  lemma Pow2Medium()
    ensures Pow2(8) == 0x100 && Pow2(10) == 0x400 && Pow2(11) == 0x800 && Pow2(12) == 0x1000 && Pow2(13) == 0x2000
  {
    assert Pow2(8) == 0x100;
  }

  lemma Pow2Large()
    ensures Pow2(20) == 0x10_0000 && Pow2(21) == 0x20_0000
  {
    Pow2Medium();
    Pow2Add(10, 10);
    assert Pow2(21) == 2 * Pow2(20);
  }

  lemma ImmediateBounds(imm: nat)
    ensures Read(imm, 5, 7) < 128 && Read(imm, 0, 5) < 32 && Read(imm, 12, 1) < 2 && Read(imm, 5, 6) < 64
    ensures Read(imm, 1, 4) < 16 && Read(imm, 11, 1) < 2 && Read(imm, 20, 1) < 2
    ensures Read(imm, 1, 10) < 0x400 && Read(imm, 12, 8) < 0x100
  {
    Pow2Small();
    Pow2Medium();
    ReadBound(imm, 5, 7);
    ReadBound(imm, 0, 5);
    ReadBound(imm, 12, 1);
    ReadBound(imm, 5, 6);
    ReadBound(imm, 1, 4);
    ReadBound(imm, 11, 1);
    ReadBound(imm, 20, 1);
    ReadBound(imm, 1, 10);
    ReadBound(imm, 12, 8);
  }

  // --- Each format's fields are read back ---

  lemma RFields(major: nat, funct3: nat, funct7: nat, rd: reg, rs1: reg, rs2: reg)
    requires major < 128 && funct3 < 8 && funct7 < 128
    ensures var w := Assemble(RWord(major, funct3, funct7, rd, rs1, rs2));
      && w < 0x1_0000_0000
      && Read(w, 0, 7) == major && Read(w, 7, 5) == rd && Read(w, 12, 3) == funct3
      && Read(w, 15, 5) == rs1 && Read(w, 20, 5) == rs2 && Read(w, 25, 7) == funct7
  {
    var fields := RWord(major, funct3, funct7, rd, rs1, rs2);
    assert Layout(fields) by {
      Pow2Small();
    }
    AssembleReads(fields);
    assert fields[0] == Field(25, 7, funct7) && fields[1] == Field(20, 5, rs2) && fields[2] == Field(15, 5, rs1);
    assert fields[3] == Field(12, 3, funct3) && fields[4] == Field(7, 5, rd) && fields[5] == Field(0, 7, major);
  }

  lemma IFields(major: nat, funct3: nat, rd: reg, rs1: reg, imm: nat)
    requires major < 128 && funct3 < 8 && imm < 0x1000
    ensures var w := Assemble(IWord(major, funct3, rd, rs1, imm));
      && w < 0x1_0000_0000
      && Read(w, 0, 7) == major && Read(w, 7, 5) == rd && Read(w, 12, 3) == funct3
      && Read(w, 15, 5) == rs1 && Read(w, 20, 12) == imm
  {
    var fields := IWord(major, funct3, rd, rs1, imm);
    assert Layout(fields) by {
      Pow2Small();
      Pow2Medium();
    }
    AssembleReads(fields);
    assert fields[0] == Field(20, 12, imm) && fields[1] == Field(15, 5, rs1) && fields[2] == Field(12, 3, funct3);
    assert fields[3] == Field(7, 5, rd) && fields[4] == Field(0, 7, major);
  }

  lemma SFields(major: nat, funct3: nat, rs1: reg, rs2: reg, imm: nat)
    requires major < 128 && funct3 < 8
    ensures var w := Assemble(SWord(major, funct3, rs1, rs2, imm));
      && w < 0x1_0000_0000
      && Read(w, 0, 7) == major && Read(w, 12, 3) == funct3 && Read(w, 15, 5) == rs1 && Read(w, 20, 5) == rs2
      && Read(w, 7, 5) == Read(imm, 0, 5) && Read(w, 25, 7) == Read(imm, 5, 7)
  {
    ImmediateBounds(imm);
    RFields(major, funct3, Read(imm, 5, 7), Read(imm, 0, 5), rs1, rs2);
  }

  lemma BLayout(major: nat, funct3: nat, rs1: reg, rs2: reg, imm: nat)
    requires major < 128 && funct3 < 8
    ensures Layout(BWord(major, funct3, rs1, rs2, imm))
  {
    ImmediateBounds(imm);
    Pow2Small();
  }

  lemma BFields(major: nat, funct3: nat, rs1: reg, rs2: reg, imm: nat)
    requires major < 128 && funct3 < 8
    ensures var w := Assemble(BWord(major, funct3, rs1, rs2, imm));
      && w < 0x1_0000_0000
      && Read(w, 0, 7) == major && Read(w, 12, 3) == funct3 && Read(w, 15, 5) == rs1 && Read(w, 20, 5) == rs2
      && Read(w, 31, 1) == Read(imm, 12, 1) && Read(w, 7, 1) == Read(imm, 11, 1)
      && Read(w, 25, 6) == Read(imm, 5, 6) && Read(w, 8, 4) == Read(imm, 1, 4)
  {
    var fields := BWord(major, funct3, rs1, rs2, imm);
    BLayout(major, funct3, rs1, rs2, imm);
    AssembleReads(fields);
    assert fields[0] == Field(31, 1, Read(imm, 12, 1)) && fields[1] == Field(25, 6, Read(imm, 5, 6));
    assert fields[2] == Field(20, 5, rs2) && fields[3] == Field(15, 5, rs1) && fields[4] == Field(12, 3, funct3);
    assert fields[5] == Field(8, 4, Read(imm, 1, 4)) && fields[6] == Field(7, 1, Read(imm, 11, 1));
    assert fields[7] == Field(0, 7, major);
  }

  lemma UFields(major: nat, rd: reg, high: nat)
    requires major < 128 && high < 0x10_0000
    ensures var w := Assemble(UWord(major, rd, high));
      && w < 0x1_0000_0000
      && Read(w, 0, 7) == major && Read(w, 7, 5) == rd && Read(w, 12, 20) == high
  {
    var fields := UWord(major, rd, high);
    assert Layout(fields) by {
      Pow2Small();
      Pow2Large();
    }
    AssembleReads(fields);
    assert fields[0] == Field(12, 20, high) && fields[1] == Field(7, 5, rd) && fields[2] == Field(0, 7, major);
  }

  lemma JLayout(major: nat, rd: reg, imm: nat)
    requires major < 128
    ensures Layout(JWord(major, rd, imm))
  {
    ImmediateBounds(imm);
    Pow2Small();
    Pow2Medium();
  }

  lemma JFields(major: nat, rd: reg, imm: nat)
    requires major < 128
    ensures var w := Assemble(JWord(major, rd, imm));
      && w < 0x1_0000_0000
      && Read(w, 0, 7) == major && Read(w, 7, 5) == rd && Read(w, 31, 1) == Read(imm, 20, 1)
      && Read(w, 21, 10) == Read(imm, 1, 10) && Read(w, 20, 1) == Read(imm, 11, 1) && Read(w, 12, 8) == Read(imm, 12, 8)
  {
    var fields := JWord(major, rd, imm);
    JLayout(major, rd, imm);
    AssembleReads(fields);
    assert fields[0] == Field(31, 1, Read(imm, 20, 1)) && fields[1] == Field(21, 10, Read(imm, 1, 10));
    assert fields[2] == Field(20, 1, Read(imm, 11, 1)) && fields[3] == Field(12, 8, Read(imm, 12, 8));
    assert fields[4] == Field(7, 5, rd) && fields[5] == Field(0, 7, major);
  }

  // --- The scrambled immediates reassemble ---

  /** Sign extension undoes the truncation of an immediate that fits. */
  lemma SignExtendLow(imm: int, width: nat)
    requires 0 < width <= 32 && 0 - Pow2(width - 1) <= imm < Pow2(width - 1)
    ensures Low(imm, width) < Pow2(width) && SignExtend(Low(imm, width), width) == Wrap(imm)
  {
    var p := Pow2(width - 1);
    if imm >= 0 {
      DivMod(imm, 0, imm, 2 * p);
      DivMod(imm, 0, imm, p);
    } else {
      var n := imm + 2 * p;
      assert Low(imm, width) == n by {
        ModUnique(imm, -1, n, 2 * p);
      }
      DivMod(n, 1, n - p, p);
    }
  }

  lemma ModUnique(x: int, q: int, r: nat, d: nat)
    requires r < d && x == q * d + r
    ensures x % d == r
  {
    Euclid(x, d);
    assert (q - x / d) * d == x % d - r;
    MulAtLeast(q - x / d, d);
  }

  lemma SImmediate(imm: nat)
    requires imm < 0x1000
    ensures JoinS(Read(imm, 5, 7), Read(imm, 0, 5)) == imm
  {
    ReadAdjacent(imm, 0, 5, 7);
    Pow2Small();
    Pow2Medium();
    ReadLow(imm, 12);
  }

  lemma EvenLow(imm: nat, width: nat)
    requires imm < Pow2(width + 1) && imm % 2 == 0
    ensures 2 * Read(imm, 1, width) == imm
  {
    ReadAdjacent(imm, 0, 1, width);
    ReadLow(imm, width + 1);
    assert Read(imm, 0, 1) == imm % 2 + 2 * Read(imm / 2, 0, 0);
    assert Pow2(1) == 2;
  }

  lemma BImmediate(imm: nat)
    requires imm < 0x2000 && imm % 2 == 0
    ensures JoinB(Read(imm, 12, 1), Read(imm, 11, 1), Read(imm, 5, 6), Read(imm, 1, 4)) == imm
  {
    Pow2Medium();
    EvenLow(imm, 12);
    Pow2Small();
    ReadAdjacent(imm, 1, 4, 8);
    ReadAdjacent(imm, 5, 6, 2);
    ReadAdjacent(imm, 11, 1, 1);
  }

  lemma JImmediate(imm: nat)
    requires imm < 0x20_0000 && imm % 2 == 0
    ensures JoinJ(Read(imm, 20, 1), Read(imm, 12, 8), Read(imm, 11, 1), Read(imm, 1, 10)) == imm
  {
    Pow2Large();
    EvenLow(imm, 20);
    Pow2Small();
    Pow2Medium();
    ReadAdjacent(imm, 1, 10, 10);
    ReadAdjacent(imm, 11, 1, 9);
    ReadAdjacent(imm, 12, 8, 1);
  }

  lemma ImmediateS(w: u32, imm: int, n: nat)
    requires -0x800 <= imm < 0x800 && n == Low(imm, 12)
    requires Read(w, 25, 7) == Read(n, 5, 7) && Read(w, 7, 5) == Read(n, 0, 5)
    ensures ImmS(w) == Wrap(imm)
  {
    assert n < 0x1000 && SignExtend(n, 12) == Wrap(imm) by {
      Pow2Medium();
      SignExtendLow(imm, 12);
    }
    assert JoinS(Read(n, 5, 7), Read(n, 0, 5)) == n by {
      SImmediate(n);
    }
  }

  lemma ImmediateB(w: u32, imm: int, n: nat)
    requires -0x1000 <= imm < 0x1000 && imm % 2 == 0 && n == Low(imm, 13)
    requires Read(w, 31, 1) == Read(n, 12, 1) && Read(w, 7, 1) == Read(n, 11, 1)
    requires Read(w, 25, 6) == Read(n, 5, 6) && Read(w, 8, 4) == Read(n, 1, 4)
    ensures ImmB(w) == Wrap(imm)
  {
    EvenImmediate(imm, 13);
    assert n < 0x2000 by {
      Pow2Medium();
    }
    assert JoinB(Read(n, 12, 1), Read(n, 11, 1), Read(n, 5, 6), Read(n, 1, 4)) == n by {
      BImmediate(n);
    }
  }

  lemma EvenImmediate(imm: int, width: nat)
    requires width in {13, 21} && 0 - Pow2(width - 1) <= imm < Pow2(width - 1) && imm % 2 == 0
    ensures Low(imm, width) < Pow2(width) && Low(imm, width) % 2 == 0
    ensures SignExtend(Low(imm, width), width) == Wrap(imm)
  {
    assert Pow2(width) == 2 * Pow2(width - 1);
    hide Pow2, SignExtend;
    SignExtendLow(imm, width);
    EvenRemainder(imm, Pow2(width - 1));
  }

  lemma EvenRemainder(x: int, half: nat)
    requires half > 0 && x % 2 == 0
    ensures x % (2 * half) % 2 == 0
  {
    var k := x / (2 * half);
    Euclid(x, 2 * half);
    assert k * (2 * half) == 2 * (k * half);
  }

  lemma ImmediateU(w: u32, imm: int)
    requires 0 <= imm < 0x1_0000_0000 && imm % 0x1000 == 0
    requires Read(w, 12, 20) == imm / 0x1000
    ensures ImmU(w) == imm
  {
  }

  lemma ImmediateJ(w: u32, imm: int, n: nat)
    requires -0x10_0000 <= imm < 0x10_0000 && imm % 2 == 0 && n == Low(imm, 21)
    requires Read(w, 31, 1) == Read(n, 20, 1) && Read(w, 21, 10) == Read(n, 1, 10)
    requires Read(w, 20, 1) == Read(n, 11, 1) && Read(w, 12, 8) == Read(n, 12, 8)
    ensures ImmJ(w) == Wrap(imm)
  {
    LowJ(imm);
    JImmediate(n);
  }

  lemma LowJ(imm: int)
    requires -0x10_0000 <= imm < 0x10_0000 && imm % 2 == 0
    ensures Low(imm, 21) < 0x20_0000 && Low(imm, 21) % 2 == 0 && SignExtend(Low(imm, 21), 21) == Wrap(imm)
  {
    Pow2Large();
    EvenImmediate(imm, 21);
  }

  // --- The decoder recognises every word that fits a row ---

  /** A word with a constant above its operands: the immediate field, whole and in its two parts. */
  lemma HighParts(w: u32)
    ensures Rs2(w) + 32 * Funct7(w) == Imm12(w) && Imm12(w) < 0x1000
    ensures Imm12(w) < 0x800 ==> ImmI(w) == Imm12(w)
  {
    ReadAdjacent(w, 20, 5, 7);
    Pow2Small();
    Pow2Medium();
    ReadBound(w, 20, 12);
    if Imm12(w) < 0x800 {
      DivMod(Imm12(w), 0, Imm12(w), Pow2(11));
    }
  }

  predicate Proper(row: Row) {
    row.major < 128 && row.funct3 < 8 && row.high < match row.format case R => 128 case A => 32 case _ => 0x1000
  }

  /** Whatever its operand bits, a word with the constants of an instruction decodes to that instruction. */
  ghost predicate Recognises(op: Opcode, w: u32) {
    && Proper(Listing(op))
    && (Fits(Listing(op), w) ==> DecodeType(w) == Some(Listing(op).class_) && DecodeOpcode(w) == Some(op))
  }

  lemma RecognisedMemory(op: Opcode, w: u32)
    requires op in {LB, LH, LW, LBU, LHU, SB, SH, SW, BEQ, BNE, BLT, BGE, BLTU, BGEU}
    ensures Recognises(op, w)
  {
    hide Read, SignExtend;
  }

  lemma RecognisedImmediate(op: Opcode, w: u32)
    requires op in {ADDI, SLTI, SLTIU, XORI, ORI, ANDI, SLLI, SRLI, SRAI, JALR, LUI, AUIPC, JAL, FENCE, FENCE_I}
    ensures Recognises(op, w)
  {
    hide Read, SignExtend;
  }

  lemma RecognisedOp(op: Opcode, w: u32)
    requires op in {ADD, SUB, SLL, SLT, SLTU, XOR, SRL, SRA, OR, AND}
    ensures Recognises(op, w)
  {
    hide Read, SignExtend;
  }

  lemma RecognisedMulDiv(op: Opcode, w: u32)
    requires op in {MUL, MULH, MULHSU, MULHU, DIV, DIVU, REM, REMU}
    ensures Recognises(op, w)
  {
    hide Read, SignExtend;
  }

  lemma RecognisedAmo(op: Opcode, w: u32)
    requires op in {LR_W, SC_W, AMOSWAP_W, AMOADD_W, AMOXOR_W, AMOAND_W, AMOOR_W, AMOMIN_W, AMOMAX_W, AMOMINU_W,
        AMOMAXU_W}
    ensures Recognises(op, w)
  {
    hide Read, SignExtend;
  }

  lemma RecognisedCsr(op: Opcode, w: u32)
    requires op in {CSRRW, CSRRS, CSRRC, CSRRWI, CSRRSI, CSRRCI}
    ensures Recognises(op, w)
  {
    hide Read, SignExtend;
  }

  lemma RecognisedSystem(op: Opcode, w: u32)
    requires op in {ECALL, EBREAK, SRET, WFI, SFENCE_W_INVAL, SFENCE_INVAL_IR, SFENCE_VMA, SINVAL_VMA}
    ensures Recognises(op, w)
  {
    HighParts(w);
    hide Read, SignExtend;
  }

  lemma Recognised(op: Opcode, w: u32)
    ensures Recognises(op, w)
  {
    hide Recognises;
    if op in {LB, LH, LW, LBU, LHU, SB, SH, SW, BEQ, BNE, BLT, BGE, BLTU, BGEU} {
      RecognisedMemory(op, w);
    } else if op in {ADDI, SLTI, SLTIU, XORI, ORI, ANDI, SLLI, SRLI, SRAI, JALR, LUI, AUIPC, JAL, FENCE, FENCE_I} {
      RecognisedImmediate(op, w);
    } else if op in {ADD, SUB, SLL, SLT, SLTU, XOR, SRL, SRA, OR, AND} {
      RecognisedOp(op, w);
    } else if op in {MUL, MULH, MULHSU, MULHU, DIV, DIVU, REM, REMU} {
      RecognisedMulDiv(op, w);
    } else if op in {LR_W, SC_W, AMOSWAP_W, AMOADD_W, AMOXOR_W, AMOAND_W, AMOOR_W, AMOMIN_W, AMOMAX_W, AMOMINU_W,
        AMOMAXU_W} {
      RecognisedAmo(op, w);
    } else if op in {CSRRW, CSRRS, CSRRC, CSRRWI, CSRRSI, CSRRCI} {
      RecognisedCsr(op, w);
    } else {
      RecognisedSystem(op, w);
    }
  }

  // --- What else the decoder accepts ---

  /** The operand fields that the listing fixes at zero. */
  predicate ZeroFields(op: Opcode, w: u32) {
    match op
    case LR_W => Rs2(w) == 0
    case SFENCE_VMA | SINVAL_VMA => Rd(w) == 0
    case ECALL | EBREAK | SRET | WFI | SFENCE_W_INVAL | SFENCE_INVAL_IR => Rd(w) == 0 && Rs1(w) == 0
    case _ => true
  }

  /** The word is the instruction by the listing. */
  predicate Listed(op: Opcode, w: u32) {
    Fits(Listing(op), w) && ZeroFields(op, w)
  }

  /**
   * The words that the decoder takes for an instruction although they are none: it does not look at funct3 of JALR and
   * of atomics, at funct7 of most register instructions or at the fields that have to be zero, and an unmatched SYSTEM
   * word falls through to CSRRW.
   */
  predicate Loose(op: Opcode, w: u32) {
    match op
    case JALR => Funct3(w) != 0
    case SLLI | SLL | SLT | SLTU | XOR | OR | AND => Funct7(w) != 0
    case MUL | MULH | MULHSU | MULHU | DIV | DIVU | REM | REMU => Funct7(w) != 1
    case LR_W => Funct3(w) != 2 || Rs2(w) != 0
    case SC_W | AMOSWAP_W | AMOADD_W | AMOXOR_W | AMOAND_W | AMOOR_W => Funct3(w) != 2
    case AMOMIN_W | AMOMAX_W | AMOMINU_W | AMOMAXU_W => Funct3(w) != 2
    case CSRRW => Funct3(w) == 0
    case _ => !ZeroFields(op, w)
  }

  ghost predicate Sorted(op: Opcode, w: u32) {
    DecodeOpcode(w) == Some(op) ==> (Listed(op, w) <==> !Loose(op, w))
  }

  lemma SortedLoad(op: Opcode, w: u32)
    requires op in {LB, LH, LW, LBU, LHU}
    ensures Sorted(op, w)
  {
    hide Major, Funct3, Funct7, Imm12, ImmI, Rd, Rs1, Rs2;
  }

  lemma SortedStore(op: Opcode, w: u32)
    requires op in {SB, SH, SW}
    ensures Sorted(op, w)
  {
    hide Major, Funct3, Funct7, Imm12, ImmI, Rd, Rs1, Rs2;
  }

  lemma SortedBranchEqual(op: Opcode, w: u32)
    requires op in {BEQ, BNE, BLT}
    ensures Sorted(op, w)
  {
    hide Major, Funct3, Funct7, Imm12, ImmI, Rd, Rs1, Rs2;
  }

  lemma SortedBranchOrder(op: Opcode, w: u32)
    requires op in {BGE, BLTU, BGEU}
    ensures Sorted(op, w)
  {
    hide Major, Funct3, Funct7, Imm12, ImmI, Rd, Rs1, Rs2;
  }

  lemma SortedImmediateOrder(op: Opcode, w: u32)
    requires op in {ADDI, SLTI, SLTIU}
    ensures Sorted(op, w)
  {
    hide Major, Funct3, Funct7, Imm12, ImmI, Rd, Rs1, Rs2;
  }

  lemma SortedImmediateLogic(op: Opcode, w: u32)
    requires op in {XORI, ORI, ANDI}
    ensures Sorted(op, w)
  {
    hide Major, Funct3, Funct7, Imm12, ImmI, Rd, Rs1, Rs2;
  }

  lemma SortedShift(op: Opcode, w: u32)
    requires op in {SLLI, SRLI, SRAI}
    ensures Sorted(op, w)
  {
    hide Major, Funct3, Funct7, Imm12, ImmI, Rd, Rs1, Rs2;
  }

  lemma SortedJump(op: Opcode, w: u32)
    requires op in {JALR, LUI, AUIPC}
    ensures Sorted(op, w)
  {
    hide Major, Funct3, Funct7, Imm12, ImmI, Rd, Rs1, Rs2;
  }

  lemma SortedLink(op: Opcode, w: u32)
    requires op in {JAL, FENCE, FENCE_I}
    ensures Sorted(op, w)
  {
    hide Major, Funct3, Funct7, Imm12, ImmI, Rd, Rs1, Rs2;
  }

  lemma SortedSum(op: Opcode, w: u32)
    requires op in {ADD, SUB}
    ensures Sorted(op, w)
  {
    hide Major, Funct3, Funct7, Imm12, ImmI, Rd, Rs1, Rs2;
  }

  lemma SortedRightShift(op: Opcode, w: u32)
    requires op in {SRL, SRA}
    ensures Sorted(op, w)
  {
    hide Major, Funct3, Funct7, Imm12, ImmI, Rd, Rs1, Rs2;
  }

  lemma SortedOrder(op: Opcode, w: u32)
    requires op in {SLL, SLT, SLTU}
    ensures Sorted(op, w)
  {
    hide Major, Funct3, Funct7, Imm12, ImmI, Rd, Rs1, Rs2;
  }

  lemma SortedLogic(op: Opcode, w: u32)
    requires op in {XOR, OR, AND}
    ensures Sorted(op, w)
  {
    hide Major, Funct3, Funct7, Imm12, ImmI, Rd, Rs1, Rs2;
  }

  lemma SortedMul(op: Opcode, w: u32)
    requires op in {MUL, MULH}
    ensures Sorted(op, w)
  {
    hide Major, Funct3, Funct7, Imm12, ImmI, Rd, Rs1, Rs2;
  }

  lemma SortedMulMixed(op: Opcode, w: u32)
    requires op in {MULHSU, MULHU}
    ensures Sorted(op, w)
  {
    hide Major, Funct3, Funct7, Imm12, ImmI, Rd, Rs1, Rs2;
  }

  lemma SortedDiv(op: Opcode, w: u32)
    requires op in {DIV, DIVU}
    ensures Sorted(op, w)
  {
    hide Major, Funct3, Funct7, Imm12, ImmI, Rd, Rs1, Rs2;
  }

  lemma SortedRem(op: Opcode, w: u32)
    requires op in {REM, REMU}
    ensures Sorted(op, w)
  {
    hide Major, Funct3, Funct7, Imm12, ImmI, Rd, Rs1, Rs2;
  }

  lemma SortedReserve(op: Opcode, w: u32)
    requires op in {LR_W, SC_W}
    ensures Sorted(op, w)
  {
    hide Major, Funct3, Funct7, Imm12, ImmI, Rd, Rs1, Rs2;
  }

  lemma SortedAmoSum(op: Opcode, w: u32)
    requires op in {AMOSWAP_W, AMOADD_W, AMOXOR_W}
    ensures Sorted(op, w)
  {
    hide Major, Funct3, Funct7, Imm12, ImmI, Rd, Rs1, Rs2;
  }

  lemma SortedAmoLogic(op: Opcode, w: u32)
    requires op in {AMOAND_W, AMOOR_W}
    ensures Sorted(op, w)
  {
    hide Major, Funct3, Funct7, Imm12, ImmI, Rd, Rs1, Rs2;
  }

  lemma SortedAmoSigned(op: Opcode, w: u32)
    requires op in {AMOMIN_W, AMOMAX_W}
    ensures Sorted(op, w)
  {
    hide Major, Funct3, Funct7, Imm12, ImmI, Rd, Rs1, Rs2;
  }

  lemma SortedAmoUnsigned(op: Opcode, w: u32)
    requires op in {AMOMINU_W, AMOMAXU_W}
    ensures Sorted(op, w)
  {
    hide Major, Funct3, Funct7, Imm12, ImmI, Rd, Rs1, Rs2;
  }

  lemma SortedCsr(op: Opcode, w: u32)
    requires op in {CSRRW, CSRRS, CSRRC}
    ensures Sorted(op, w)
  {
    hide Major, Funct3, Funct7, Imm12, ImmI, Rd, Rs1, Rs2;
  }

  lemma SortedCsrImmediate(op: Opcode, w: u32)
    requires op in {CSRRWI, CSRRSI, CSRRCI}
    ensures Sorted(op, w)
  {
    hide Major, Funct3, Funct7, Imm12, ImmI, Rd, Rs1, Rs2;
  }

  lemma SortedCall(op: Opcode, w: u32)
    requires op in {ECALL, EBREAK}
    ensures Sorted(op, w)
  {
    hide Major, Funct3, Funct7, Imm12, ImmI, Rd, Rs1, Rs2;
    HighParts(w);
    ImmediateNumber(w);
  }

  lemma SortedReturn(op: Opcode, w: u32)
    requires op in {SRET, WFI}
    ensures Sorted(op, w)
  {
    hide Major, Funct3, Funct7, Imm12, ImmI, Rd, Rs1, Rs2;
    HighParts(w);
    ImmediateNumber(w);
  }

  lemma SortedFence(op: Opcode, w: u32)
    requires op in {SFENCE_VMA, SINVAL_VMA}
    ensures Sorted(op, w)
  {
    hide Major, Funct3, Funct7, Imm12, ImmI, Rd, Rs1, Rs2;
    HighParts(w);
    ImmediateNumber(w);
  }

  lemma SortedInval(op: Opcode, w: u32)
    requires op in {SFENCE_W_INVAL, SFENCE_INVAL_IR}
    ensures Sorted(op, w)
  {
    hide Major, Funct3, Funct7, Imm12, ImmI, Rd, Rs1, Rs2;
    HighParts(w);
    ImmediateNumber(w);
  }

  /** A small immediate is the number in the field. */
  lemma ImmediateNumber(w: u32)
    ensures ImmI(w) < 0x800 ==> Imm12(w) == ImmI(w)
  {
    Pow2Medium();
    hide Read;
    ReadBound(w, 20, 12);
  }

  /**
   * A word decoded as an instruction is that instruction by the listing if and only if it is not one of the loose
   * words.
   */
  lemma Accepted(op: Opcode, w: u32)
    requires DecodeOpcode(w) == Some(op)
    ensures Listed(op, w) <==> !Loose(op, w)
  {
    hide Listed, Loose, DecodeOpcode;
    assert Sorted(op, w) by {
      hide Sorted;
      if op in {LB, LH, LW, LBU, LHU} {
        SortedLoad(op, w);
      } else if op in {SB, SH, SW} {
        SortedStore(op, w);
      } else if op in {BEQ, BNE, BLT} {
        SortedBranchEqual(op, w);
      } else if op in {BGE, BLTU, BGEU} {
        SortedBranchOrder(op, w);
      } else if op in {ADDI, SLTI, SLTIU} {
        SortedImmediateOrder(op, w);
      } else if op in {XORI, ORI, ANDI} {
        SortedImmediateLogic(op, w);
      } else if op in {SLLI, SRLI, SRAI} {
        SortedShift(op, w);
      } else if op in {JALR, LUI, AUIPC} {
        SortedJump(op, w);
      } else if op in {JAL, FENCE, FENCE_I} {
        SortedLink(op, w);
      } else if op in {ADD, SUB} {
        SortedSum(op, w);
      } else if op in {SRL, SRA} {
        SortedRightShift(op, w);
      } else if op in {SLL, SLT, SLTU} {
        SortedOrder(op, w);
      } else if op in {XOR, OR, AND} {
        SortedLogic(op, w);
      } else if op in {MUL, MULH} {
        SortedMul(op, w);
      } else if op in {MULHSU, MULHU} {
        SortedMulMixed(op, w);
      } else if op in {DIV, DIVU} {
        SortedDiv(op, w);
      } else if op in {REM, REMU} {
        SortedRem(op, w);
      } else if op in {LR_W, SC_W} {
        SortedReserve(op, w);
      } else if op in {AMOSWAP_W, AMOADD_W, AMOXOR_W} {
        SortedAmoSum(op, w);
      } else if op in {AMOAND_W, AMOOR_W} {
        SortedAmoLogic(op, w);
      } else if op in {AMOMIN_W, AMOMAX_W} {
        SortedAmoSigned(op, w);
      } else if op in {AMOMINU_W, AMOMAXU_W} {
        SortedAmoUnsigned(op, w);
      } else if op in {CSRRW, CSRRS, CSRRC} {
        SortedCsr(op, w);
      } else if op in {CSRRWI, CSRRSI, CSRRCI} {
        SortedCsrImmediate(op, w);
      } else if op in {ECALL, EBREAK} {
        SortedCall(op, w);
      } else if op in {SRET, WFI} {
        SortedReturn(op, w);
      } else if op in {SFENCE_W_INVAL, SFENCE_INVAL_IR} {
        SortedInval(op, w);
      } else {
        SortedFence(op, w);
      }
    }
  }

  // --- Which words decode to an instruction ---

  /** A SYSTEM word that the switches on its immediate and on funct7 do not list. */
  predicate Unmatched(w: u32) {
    Imm12(w) !in {0x000, 0x001, 0x102, 0x105} && Funct7(w) !in {0x09, 0x0B, 0x0C}
  }

  /** The words that decode to an instruction: those of its row, and for some instructions more. */
  predicate Decodes(op: Opcode, w: u32) {
    match op
    case JALR => Major(w) == 0x67
    case SLLI => Major(w) == 0x13 && Funct3(w) == 1
    case SLL | SLT | SLTU | XOR | OR | AND =>
      Major(w) == 0x33 && Funct3(w) == Listing(op).funct3 && Funct7(w) % 2 == 0
    case MUL | MULH | MULHSU | MULHU | DIV | DIVU | REM | REMU =>
      Major(w) == 0x33 && Funct3(w) == Listing(op).funct3 && Funct7(w) % 2 == 1
    case LR_W | SC_W | AMOSWAP_W | AMOADD_W | AMOXOR_W | AMOAND_W | AMOOR_W =>
      Major(w) == 0x2F && Funct7(w) / 4 == Listing(op).high
    case AMOMIN_W | AMOMAX_W | AMOMINU_W | AMOMAXU_W =>
      Major(w) == 0x2F && Funct7(w) / 4 == Listing(op).high
    case CSRRW => Major(w) == 0x73 && (Funct3(w) == 1 || (Funct3(w) == 0 && Unmatched(w)))
    case _ => Fits(Listing(op), w)
  }

  ghost predicate Chosen(op: Opcode, w: u32) {
    DecodeOpcode(w) == Some(op) <==> Decodes(op, w)
  }

  lemma ChosenLoad(op: Opcode, w: u32)
    requires op in {LB, LH, LW, LBU, LHU}
    ensures Chosen(op, w)
  {
    hide Major, Funct3, Funct7, Imm12, ImmI, Rd, Rs1, Rs2;
  }

  lemma ChosenStore(op: Opcode, w: u32)
    requires op in {SB, SH, SW}
    ensures Chosen(op, w)
  {
    hide Major, Funct3, Funct7, Imm12, ImmI, Rd, Rs1, Rs2;
  }

  lemma ChosenBranchEqual(op: Opcode, w: u32)
    requires op in {BEQ, BNE, BLT}
    ensures Chosen(op, w)
  {
    hide Major, Funct3, Funct7, Imm12, ImmI, Rd, Rs1, Rs2;
  }

  lemma ChosenBranchOrder(op: Opcode, w: u32)
    requires op in {BGE, BLTU, BGEU}
    ensures Chosen(op, w)
  {
    hide Major, Funct3, Funct7, Imm12, ImmI, Rd, Rs1, Rs2;
  }

  lemma ChosenImmediateOrder(op: Opcode, w: u32)
    requires op in {ADDI, SLTI, SLTIU}
    ensures Chosen(op, w)
  {
    hide Major, Funct3, Funct7, Imm12, ImmI, Rd, Rs1, Rs2;
  }

  lemma ChosenImmediateLogic(op: Opcode, w: u32)
    requires op in {XORI, ORI, ANDI}
    ensures Chosen(op, w)
  {
    hide Major, Funct3, Funct7, Imm12, ImmI, Rd, Rs1, Rs2;
  }

  lemma ChosenShift(op: Opcode, w: u32)
    requires op in {SLLI, SRLI, SRAI}
    ensures Chosen(op, w)
  {
    hide Major, Funct3, Funct7, Imm12, ImmI, Rd, Rs1, Rs2;
  }

  lemma ChosenJump(op: Opcode, w: u32)
    requires op in {JALR, LUI, AUIPC}
    ensures Chosen(op, w)
  {
    hide Major, Funct3, Funct7, Imm12, ImmI, Rd, Rs1, Rs2;
  }

  lemma ChosenLink(op: Opcode, w: u32)
    requires op in {JAL, FENCE, FENCE_I}
    ensures Chosen(op, w)
  {
    hide Major, Funct3, Funct7, Imm12, ImmI, Rd, Rs1, Rs2;
  }

  lemma ChosenSum(op: Opcode, w: u32)
    requires op in {ADD, SUB}
    ensures Chosen(op, w)
  {
    hide Major, Funct3, Funct7, Imm12, ImmI, Rd, Rs1, Rs2;
  }

  lemma ChosenRightShift(op: Opcode, w: u32)
    requires op in {SRL, SRA}
    ensures Chosen(op, w)
  {
    hide Major, Funct3, Funct7, Imm12, ImmI, Rd, Rs1, Rs2;
  }

  lemma ChosenOrder(op: Opcode, w: u32)
    requires op in {SLL, SLT, SLTU}
    ensures Chosen(op, w)
  {
    hide Major, Funct3, Funct7, Imm12, ImmI, Rd, Rs1, Rs2;
  }

  lemma ChosenLogic(op: Opcode, w: u32)
    requires op in {XOR, OR, AND}
    ensures Chosen(op, w)
  {
    hide Major, Funct3, Funct7, Imm12, ImmI, Rd, Rs1, Rs2;
  }

  lemma ChosenMul(op: Opcode, w: u32)
    requires op in {MUL, MULH}
    ensures Chosen(op, w)
  {
    hide Major, Funct3, Funct7, Imm12, ImmI, Rd, Rs1, Rs2;
  }

  lemma ChosenMulMixed(op: Opcode, w: u32)
    requires op in {MULHSU, MULHU}
    ensures Chosen(op, w)
  {
    hide Major, Funct3, Funct7, Imm12, ImmI, Rd, Rs1, Rs2;
  }

  lemma ChosenDiv(op: Opcode, w: u32)
    requires op in {DIV, DIVU}
    ensures Chosen(op, w)
  {
    hide Major, Funct3, Funct7, Imm12, ImmI, Rd, Rs1, Rs2;
  }

  lemma ChosenRem(op: Opcode, w: u32)
    requires op in {REM, REMU}
    ensures Chosen(op, w)
  {
    hide Major, Funct3, Funct7, Imm12, ImmI, Rd, Rs1, Rs2;
  }

  lemma ChosenReserve(op: Opcode, w: u32)
    requires op in {LR_W, SC_W}
    ensures Chosen(op, w)
  {
    hide Major, Funct3, Funct7, Imm12, ImmI, Rd, Rs1, Rs2;
  }

  lemma ChosenAmoSum(op: Opcode, w: u32)
    requires op in {AMOSWAP_W, AMOADD_W, AMOXOR_W}
    ensures Chosen(op, w)
  {
    hide Major, Funct3, Funct7, Imm12, ImmI, Rd, Rs1, Rs2;
  }

  lemma ChosenAmoLogic(op: Opcode, w: u32)
    requires op in {AMOAND_W, AMOOR_W}
    ensures Chosen(op, w)
  {
    hide Major, Funct3, Funct7, Imm12, ImmI, Rd, Rs1, Rs2;
  }

  lemma ChosenAmoSigned(op: Opcode, w: u32)
    requires op in {AMOMIN_W, AMOMAX_W}
    ensures Chosen(op, w)
  {
    hide Major, Funct3, Funct7, Imm12, ImmI, Rd, Rs1, Rs2;
  }

  lemma ChosenAmoUnsigned(op: Opcode, w: u32)
    requires op in {AMOMINU_W, AMOMAXU_W}
    ensures Chosen(op, w)
  {
    hide Major, Funct3, Funct7, Imm12, ImmI, Rd, Rs1, Rs2;
  }

  lemma ChosenCsr(op: Opcode, w: u32)
    requires op in {CSRRW, CSRRS, CSRRC}
    ensures Chosen(op, w)
  {
    hide Major, Funct3, Funct7, Imm12, ImmI, Rd, Rs1, Rs2;
    FunctBound(w);
    HighParts(w);
    ImmediateNumber(w);
  }

  lemma ChosenCsrImmediate(op: Opcode, w: u32)
    requires op in {CSRRWI, CSRRSI, CSRRCI}
    ensures Chosen(op, w)
  {
    hide Major, Funct3, Funct7, Imm12, ImmI, Rd, Rs1, Rs2;
  }

  lemma ChosenCall(op: Opcode, w: u32)
    requires op in {ECALL, EBREAK}
    ensures Chosen(op, w)
  {
    hide Major, Funct3, Funct7, Imm12, ImmI, Rd, Rs1, Rs2;
    FunctBound(w);
    HighParts(w);
    ImmediateNumber(w);
  }

  lemma ChosenReturn(op: Opcode, w: u32)
    requires op in {SRET, WFI}
    ensures Chosen(op, w)
  {
    hide Major, Funct3, Funct7, Imm12, ImmI, Rd, Rs1, Rs2;
    FunctBound(w);
    HighParts(w);
    ImmediateNumber(w);
  }

  lemma ChosenFence(op: Opcode, w: u32)
    requires op in {SFENCE_VMA, SINVAL_VMA}
    ensures Chosen(op, w)
  {
    hide Major, Funct3, Funct7, Imm12, ImmI, Rd, Rs1, Rs2;
    FunctBound(w);
    HighParts(w);
    ImmediateNumber(w);
  }

  lemma ChosenInval(op: Opcode, w: u32)
    requires op in {SFENCE_W_INVAL, SFENCE_INVAL_IR}
    ensures Chosen(op, w)
  {
    hide Major, Funct3, Funct7, Imm12, ImmI, Rd, Rs1, Rs2;
    FunctBound(w);
    HighParts(w);
    ImmediateNumber(w);
  }

  lemma FunctBound(w: u32)
    ensures Rs2(w) < 32 && Imm12(w) == Rs2(w) + 32 * Funct7(w)
  {
    HighParts(w);
    hide Read;
  }

  /** A word decodes to an instruction if and only if it is one of the words named for it; other words throw. */
  lemma DecodesIff(op: Opcode, w: u32)
    ensures DecodeOpcode(w) == Some(op) <==> Decodes(op, w)
  {
    hide Decodes, DecodeOpcode;
    assert Chosen(op, w) by {
      hide Chosen;
      if op in {LB, LH, LW, LBU, LHU} {
        ChosenLoad(op, w);
      } else if op in {SB, SH, SW} {
        ChosenStore(op, w);
      } else if op in {BEQ, BNE, BLT} {
        ChosenBranchEqual(op, w);
      } else if op in {BGE, BLTU, BGEU} {
        ChosenBranchOrder(op, w);
      } else if op in {ADDI, SLTI, SLTIU} {
        ChosenImmediateOrder(op, w);
      } else if op in {XORI, ORI, ANDI} {
        ChosenImmediateLogic(op, w);
      } else if op in {SLLI, SRLI, SRAI} {
        ChosenShift(op, w);
      } else if op in {JALR, LUI, AUIPC} {
        ChosenJump(op, w);
      } else if op in {JAL, FENCE, FENCE_I} {
        ChosenLink(op, w);
      } else if op in {ADD, SUB} {
        ChosenSum(op, w);
      } else if op in {SRL, SRA} {
        ChosenRightShift(op, w);
      } else if op in {SLL, SLT, SLTU} {
        ChosenOrder(op, w);
      } else if op in {XOR, OR, AND} {
        ChosenLogic(op, w);
      } else if op in {MUL, MULH} {
        ChosenMul(op, w);
      } else if op in {MULHSU, MULHU} {
        ChosenMulMixed(op, w);
      } else if op in {DIV, DIVU} {
        ChosenDiv(op, w);
      } else if op in {REM, REMU} {
        ChosenRem(op, w);
      } else if op in {LR_W, SC_W} {
        ChosenReserve(op, w);
      } else if op in {AMOSWAP_W, AMOADD_W, AMOXOR_W} {
        ChosenAmoSum(op, w);
      } else if op in {AMOAND_W, AMOOR_W} {
        ChosenAmoLogic(op, w);
      } else if op in {AMOMIN_W, AMOMAX_W} {
        ChosenAmoSigned(op, w);
      } else if op in {AMOMINU_W, AMOMAXU_W} {
        ChosenAmoUnsigned(op, w);
      } else if op in {CSRRW, CSRRS, CSRRC} {
        ChosenCsr(op, w);
      } else if op in {CSRRWI, CSRRSI, CSRRCI} {
        ChosenCsrImmediate(op, w);
      } else if op in {ECALL, EBREAK} {
        ChosenCall(op, w);
      } else if op in {SRET, WFI} {
        ChosenReturn(op, w);
      } else if op in {SFENCE_W_INVAL, SFENCE_INVAL_IR} {
        ChosenInval(op, w);
      } else {
        ChosenFence(op, w);
      }
    }
  }

  // --- The round trip ---

  lemma RowI(row: Row, x: Operands)
    requires Proper(row) && row.format == I && InRange(I, x)
    ensures EncodeRow(row, x) < 0x1_0000_0000 && Fits(row, EncodeRow(row, x)) && Carries(I, EncodeRow(row, x), x)
  {
    hide Assemble, Read, JoinS, JoinB, JoinJ;
    var imm := Low(x.imm, 12);
    assert imm < 0x1000 && SignExtend(imm, 12) == Wrap(x.imm) by {
      Pow2Medium();
      SignExtendLow(x.imm, 12);
    }
    IFields(row.major, row.funct3, x.rd, x.rs1, imm);
  }

  lemma RowS(row: Row, x: Operands)
    requires Proper(row) && row.format == S && InRange(S, x)
    ensures EncodeRow(row, x) < 0x1_0000_0000 && Fits(row, EncodeRow(row, x)) && Carries(S, EncodeRow(row, x), x)
  {
    hide Assemble, Read, Pow2, SignExtend, JoinS, JoinB, JoinJ;
    var imm := Low(x.imm, 12);
    SFields(row.major, row.funct3, x.rs1, x.rs2, imm);
    ImmediateS(EncodeRow(row, x), x.imm, imm);
  }

  lemma RowB(row: Row, x: Operands)
    requires Proper(row) && row.format == B && InRange(B, x)
    ensures EncodeRow(row, x) < 0x1_0000_0000 && Fits(row, EncodeRow(row, x)) && Carries(B, EncodeRow(row, x), x)
  {
    hide Assemble, Read, Pow2, SignExtend, JoinS, JoinB, JoinJ;
    var imm := Low(x.imm, 13);
    BFields(row.major, row.funct3, x.rs1, x.rs2, imm);
    ImmediateB(EncodeRow(row, x), x.imm, imm);
  }

  lemma RowU(row: Row, x: Operands)
    requires Proper(row) && row.format == U && InRange(U, x)
    ensures EncodeRow(row, x) < 0x1_0000_0000 && Fits(row, EncodeRow(row, x)) && Carries(U, EncodeRow(row, x), x)
  {
    hide Assemble, Read, Pow2, SignExtend, JoinS, JoinB, JoinJ;
    UFields(row.major, x.rd, x.imm / 0x1000);
    ImmediateU(EncodeRow(row, x), x.imm);
  }

  lemma RowJ(row: Row, x: Operands)
    requires Proper(row) && row.format == J && InRange(J, x)
    ensures EncodeRow(row, x) < 0x1_0000_0000 && Fits(row, EncodeRow(row, x)) && Carries(J, EncodeRow(row, x), x)
  {
    hide Assemble, Read, Pow2, SignExtend, JoinS, JoinB, JoinJ;
    var imm := Low(x.imm, 21);
    JFields(row.major, x.rd, imm);
    ImmediateJ(EncodeRow(row, x), x.imm, imm);
  }

  lemma RowOther(row: Row, x: Operands)
    requires Proper(row) && row.format in {R, A, Csr, Fixed} && InRange(row.format, x)
    ensures EncodeRow(row, x) < 0x1_0000_0000 && Fits(row, EncodeRow(row, x))
        && Carries(row.format, EncodeRow(row, x), x)
  {
    hide Assemble, Read, Pow2, SignExtend, JoinS, JoinB, JoinJ;
    match row.format
    case R => RFields(row.major, row.funct3, row.high, x.rd, x.rs1, x.rs2);
    case A =>
      RFields(row.major, row.funct3, row.high * 4 + x.order, x.rd, x.rs1, x.rs2);
      DivMod(row.high * 4 + x.order, row.high, x.order, 4);
    case Csr => IFields(row.major, row.funct3, x.rd, x.rs1, x.imm);
    case Fixed => IFields(row.major, row.funct3, 0, 0, row.high);
  }

  /** Every instruction, with every register triple and every in-range immediate, survives encoding and decoding. */
  lemma DecodeEncode(op: Opcode, x: Operands)
    requires InRange(Listing(op).format, x)
    ensures var w := Encode(op, x);
      && w < 0x1_0000_0000
      && DecodeType(w) == Some(Listing(op).class_) && DecodeOpcode(w) == Some(op)
      && Carries(Listing(op).format, w, x)
  {
    hide Listing, EncodeRow, Fits, Carries, Recognises, DecodeType, DecodeOpcode;
    ListingProper(op);
    RowRoundTrip(Listing(op), x);
    RecognisedWord(op, Encode(op, x));
  }

  lemma ListingProper(op: Opcode)
    ensures Proper(Listing(op))
  {
    Recognised(op, 0);
    hide Listing, Fits;
  }

  lemma RecognisedWord(op: Opcode, w: u32)
    requires Fits(Listing(op), w)
    ensures DecodeType(w) == Some(Listing(op).class_) && DecodeOpcode(w) == Some(op)
  {
    Recognised(op, w);
    hide Listing, Fits, DecodeType, DecodeOpcode;
  }

  lemma RowRoundTrip(row: Row, x: Operands)
    requires Proper(row) && InRange(row.format, x)
    ensures EncodeRow(row, x) < 0x1_0000_0000 && Fits(row, EncodeRow(row, x))
        && Carries(row.format, EncodeRow(row, x), x)
  {
    match row.format
    case I => RowI(row, x);
    case S => RowS(row, x);
    case B => RowB(row, x);
    case U => RowU(row, x);
    case J => RowJ(row, x);
    case _ => RowOther(row, x);
  }

  /** An opcode is only ever decoded inside the class that the major opcode selects. */
  lemma DecodedClass(w: u32)
    ensures DecodeOpcode(w).Some? ==> DecodeType(w) == Some(Listing(DecodeOpcode(w).value).class_)
  {
    if DecodeType(w).Some? {
      SelectedClass(DecodeType(w).value, Major(w), Funct3(w), Funct7(w), Rs2(w), ImmI(w));
    }
  }

  predicate OfClass(op: Option<Opcode>, t: InstructionType) {
    op.Some? ==> Listing(op.value).class_ == t
  }

  lemma SelectedClass(t: InstructionType, major: nat, funct3: nat, funct7: nat, rs2: reg, immI: u32)
    ensures OfClass(Select(t, major, funct3, funct7, rs2, immI), t)
  {
    match t
    case OP =>
      SelectedOp(funct3, funct7);
      SelectedMulDiv(funct3);
    case AMO =>
      SelectedAmoLow(funct7 / 4);
      SelectedAmoHigh(funct7 / 4);
    case SYSTEM =>
      SelectedSystem(funct3, funct7, rs2, immI);
      SelectedCsr(funct3, funct7, rs2, immI);
    case LOAD =>
    case STORE =>
    case BRANCH =>
    case _ => SelectedRest(t, major, funct3, funct7, rs2, immI);
  }

  lemma SelectedOp(funct3: nat, funct7: nat)
    ensures OfClass(SelectOp(funct3, funct7), OP)
  {
  }

  lemma SelectedMulDiv(funct3: nat)
    ensures OfClass(SelectMulDiv(funct3), OP)
  {
  }

  lemma SelectedAmoLow(funct5: nat)
    ensures funct5 < 5 ==> OfClass(SelectAmo(funct5), AMO)
  {
  }

  lemma SelectedAmoHigh(funct5: nat)
    ensures funct5 >= 5 ==> OfClass(SelectAmo(funct5), AMO)
  {
  }

  lemma SelectedSystem(funct3: nat, funct7: nat, rs2: reg, immI: u32)
    ensures funct3 == 0 ==> OfClass(SelectSystem(funct3, funct7, rs2, immI), SYSTEM)
  {
  }

  lemma SelectedCsr(funct3: nat, funct7: nat, rs2: reg, immI: u32)
    ensures funct3 != 0 ==> OfClass(SelectSystem(funct3, funct7, rs2, immI), SYSTEM)
  {
  }

  lemma SelectedRest(t: InstructionType, major: nat, funct3: nat, funct7: nat, rs2: reg, immI: u32)
    requires t in {JUMP, OP_IMM, OP_UI, OP_FENCE}
    ensures OfClass(Select(t, major, funct3, funct7, rs2, immI), t)
  {
  }
}
