/** The fields and immediates of an instruction word (src/rv32/instruction.hpp). */
module Instructions {
  import opened Bits
  import opened Words

  type reg = x: int | 0 <= x < 32

  function Major(w: u32): nat {
    Read(w, 0, 7)
  }

  function Rd(w: u32): reg {
    Field5(w, 7);
    Read(w, 7, 5)
  }

  function Funct3(w: u32): nat {
    Read(w, 12, 3)
  }

  function Rs1(w: u32): reg {
    Field5(w, 15);
    Read(w, 15, 5)
  }

  function Rs2(w: u32): reg {
    Field5(w, 20);
    Read(w, 20, 5)
  }

  function Funct7(w: u32): nat {
    Read(w, 25, 7)
  }

  /** Bits 31..20, the CSR number of a CSR instruction. */
  function Imm12(w: u32): nat {
    Read(w, 20, 12)
  }

  function ImmI(w: u32): u32 {
    SignExtend(Read(w, 20, 12), 12)
  }

  // The scattered parts of an immediate, each shifted to its place; the parts never overlap.

  function JoinS(imm_11_5: nat, imm_4_0: nat): nat {
    imm_11_5 * 0x20 + imm_4_0
  }

  function JoinB(imm_12: nat, imm_11: nat, imm_10_5: nat, imm_4_1: nat): nat {
    imm_12 * 0x1000 + imm_11 * 0x800 + imm_10_5 * 0x20 + imm_4_1 * 2
  }

  function JoinJ(imm_20: nat, imm_19_12: nat, imm_11: nat, imm_10_1: nat): nat {
    imm_20 * 0x10_0000 + imm_19_12 * 0x1000 + imm_11 * 0x800 + imm_10_1 * 2
  }

  function ImmS(w: u32): u32 {
    SignExtend(JoinS(Read(w, 25, 7), Read(w, 7, 5)), 12)
  }

  function ImmB(w: u32): u32 {
    SignExtend(JoinB(Read(w, 31, 1), Read(w, 7, 1), Read(w, 25, 6), Read(w, 8, 4)), 13)
  }

  function ImmU(w: u32): u32 {
    Wrap(Read(w, 12, 20) * 0x1000)
  }

  function ImmJ(w: u32): u32 {
    SignExtend(JoinJ(Read(w, 31, 1), Read(w, 12, 8), Read(w, 20, 1), Read(w, 21, 10)), 21)
  }

  lemma Field5(w: u32, lo: nat)
    ensures Read(w, lo, 5) < 32
  {
    ReadBound(w, lo, 5);
    assert Pow2(5) == 32;
  }
}
