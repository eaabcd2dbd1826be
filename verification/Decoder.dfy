/** The instruction decoder (src/rv32/decoder.cpp). `None` stands for a thrown DecoderException. */
module Decoder {
  import opened Bits
  import opened Wrappers
  import opened Instructions

  datatype InstructionType =
    | LOAD | STORE | BRANCH | JUMP | AMO
    | OP_IMM | OP | SYSTEM | OP_UI | OP_FENCE

  datatype Opcode =
    | LUI | AUIPC | JAL | JALR
    | BEQ | BNE | BLT | BGE | BLTU | BGEU
    | LB | LH | LW | LBU | LHU
    | SB | SH | SW
    | ADDI | SLTI | SLTIU | XORI | ORI | ANDI | SLLI | SRLI | SRAI
    | ADD | SUB | SLL | SLT | SLTU | XOR | SRL | SRA | OR | AND
    | FENCE | ECALL | EBREAK | SRET | WFI | SFENCE_VMA | SINVAL_VMA | SFENCE_W_INVAL | SFENCE_INVAL_IR
    | CSRRW | CSRRS | CSRRC | CSRRWI | CSRRSI | CSRRCI
    | FENCE_I
    | MUL | MULH | MULHSU | MULHU | DIV | DIVU | REM | REMU
    | LR_W | SC_W | AMOSWAP_W | AMOADD_W | AMOXOR_W | AMOAND_W | AMOOR_W
    | AMOMIN_W | AMOMAX_W | AMOMINU_W | AMOMAXU_W

  function TypeOfMajor(major: nat): Option<InstructionType> {
    match major
    case 0x03 => Some(LOAD)
    case 0x23 => Some(STORE)
    case 0x63 => Some(BRANCH)
    case 0x67 => Some(JUMP)
    case 0x6F => Some(JUMP)
    case 0x2F => Some(AMO)
    case 0x13 => Some(OP_IMM)
    case 0x33 => Some(OP)
    case 0x73 => Some(SYSTEM)
    case 0x37 => Some(OP_UI)
    case 0x17 => Some(OP_UI)
    case 0x0F => Some(OP_FENCE)
    case _ => None
  }

  function DecodeType(w: u32): Option<InstructionType> {
    TypeOfMajor(Major(w))
  }

  function DecodeOpcode(w: u32): Option<Opcode> {
    match DecodeType(w)
    case None => None
    case Some(t) => Select(t, Major(w), Funct3(w), Funct7(w), Rs2(w), ImmI(w))
  }

  /** The nested switches of `decodeOpcode`, on the fields they look at. */
  function Select(t: InstructionType, major: nat, funct3: nat, funct7: nat, rs2: reg, immI: u32): Option<Opcode> {
    match t
    case LOAD => (
      match funct3
      case 0 => Some(LB)
      case 1 => Some(LH)
      case 2 => Some(LW)
      case 4 => Some(LBU)
      case 5 => Some(LHU)
      case _ => None)
    case STORE => (
      match funct3
      case 0 => Some(SB)
      case 1 => Some(SH)
      case 2 => Some(SW)
      case _ => None)
    case BRANCH => (
      match funct3
      case 0 => Some(BEQ)
      case 1 => Some(BNE)
      case 4 => Some(BLT)
      case 5 => Some(BGE)
      case 6 => Some(BLTU)
      case 7 => Some(BGEU)
      case _ => None)
    case JUMP => if major == 0x67 then Some(JALR) else Some(JAL)
    case AMO => SelectAmo(funct7 / 4)
    case OP_IMM => (
      match funct3
      case 0 => Some(ADDI)
      case 2 => Some(SLTI)
      case 3 => Some(SLTIU)
      case 4 => Some(XORI)
      case 6 => Some(ORI)
      case 7 => Some(ANDI)
      case 1 => Some(SLLI)
      case 5 => if funct7 == 0 then Some(SRLI) else if funct7 == 0x20 then Some(SRAI) else None
      case _ => None)
    case OP => if funct7 % 2 == 0 then SelectOp(funct3, funct7) else SelectMulDiv(funct3)
    case SYSTEM => SelectSystem(funct3, funct7, rs2, immI)
    case OP_UI => if major == 0x37 then Some(LUI) else Some(AUIPC)
    case OP_FENCE => if funct3 == 0 then Some(FENCE) else if funct3 == 1 then Some(FENCE_I) else None
  }

  function SelectAmo(funct5: nat): Option<Opcode> {
    match funct5
    case 0x02 => Some(LR_W)
    case 0x03 => Some(SC_W)
    case 0x01 => Some(AMOSWAP_W)
    case 0x00 => Some(AMOADD_W)
    case 0x04 => Some(AMOXOR_W)
    case 0x0C => Some(AMOAND_W)
    case 0x08 => Some(AMOOR_W)
    case 0x10 => Some(AMOMIN_W)
    case 0x14 => Some(AMOMAX_W)
    case 0x18 => Some(AMOMINU_W)
    case 0x1C => Some(AMOMAXU_W)
    case _ => None
  }

  function SelectOp(funct3: nat, funct7: nat): Option<Opcode> {
    match funct3
    case 0 => if funct7 == 0 then Some(ADD) else if funct7 == 0x20 then Some(SUB) else None
    case 1 => Some(SLL)
    case 2 => Some(SLT)
    case 3 => Some(SLTU)
    case 4 => Some(XOR)
    case 5 => if funct7 == 0 then Some(SRL) else if funct7 == 0x20 then Some(SRA) else None
    case 6 => Some(OR)
    case 7 => Some(AND)
    case _ => None
  }

  function SelectMulDiv(funct3: nat): Option<Opcode> {
    match funct3
    case 0 => Some(MUL)
    case 1 => Some(MULH)
    case 2 => Some(MULHSU)
    case 3 => Some(MULHU)
    case 4 => Some(DIV)
    case 5 => Some(DIVU)
    case 6 => Some(REM)
    case 7 => Some(REMU)
    case _ => None
  }

  /** With funct3 = 0 an unmatched word falls through to the CSRRW case. */
  function SelectSystem(funct3: nat, funct7: nat, rs2: reg, immI: u32): Option<Opcode> {
    match funct3
    case 0 =>
      if immI == 0x000 then Some(ECALL)
      else if immI == 0x001 then Some(EBREAK)
      else if immI == 0x102 then Some(SRET)
      else if immI == 0x105 then Some(WFI)
      else if funct7 == 0x09 then Some(SFENCE_VMA)
      else if funct7 == 0x0B then Some(SINVAL_VMA)
      else if funct7 == 0x0C then
        if rs2 == 0 then Some(SFENCE_W_INVAL) else if rs2 == 1 then Some(SFENCE_INVAL_IR) else None
      else Some(CSRRW)
    case 1 => Some(CSRRW)
    case 2 => Some(CSRRS)
    case 3 => Some(CSRRC)
    case 5 => Some(CSRRWI)
    case 6 => Some(CSRRSI)
    case 7 => Some(CSRRCI)
    case _ => None
  }
}
