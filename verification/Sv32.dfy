/**
 * Sv32 address translation, written from sections 4.3.1 and 4.3.2 of the RISC-V Privileged
 * Specification (20211203): page tables of two levels in a 34-bit physical memory.
 */
module Sv32 {
  import opened Bits
  import opened Wrappers

  datatype Access = READ | WRITE | EXECUTE

  type phys = x: int | 0 <= x < 0x4_0000_0000
  type ppn = x: int | 0 <= x < 0x40_0000

  /** A 34-bit physical memory; reading a missing byte violates a PMA or PMP check. */
  type Physical = imap<phys, u8>

  /** Figure 4.18: PPN[1] | PPN[0] | RSW | D A G U X W R V */
  datatype Pte = Pte(ppn1: nat, ppn0: nat, d: bool, a: bool, u: bool, x: bool, w: bool, r: bool, v: bool)

  ghost predicate Flag(bits: u32, k: nat) {
    Read(bits, k, 1) == 1
  }

  ghost function DecodePte(bits: u32): Pte {
    Pte(Read(bits, 20, 12), Read(bits, 10, 10),
        Flag(bits, 7), Flag(bits, 6), Flag(bits, 4), Flag(bits, 3), Flag(bits, 2), Flag(bits, 1), Flag(bits, 0))
  }

  /** The environment of a translation. */
  datatype Mode = Mode(super: bool, sum: bool, mxr: bool)

  datatype Result = Address(pa: nat) | PageFault | AccessFault

  /** Section 4.3.1: in a PTE that is not a leaf D, A and U are reserved for future standard use. */
  ghost predicate Reserved(p: Pte) {
    !IsLeaf(p) && (p.d || p.a || p.u)
  }

  /** Step 3, reserved encodings and bits included. */
  ghost predicate Invalid(p: Pte) {
    !p.v || (!p.r && p.w) || Reserved(p)
  }

  ghost predicate IsLeaf(p: Pte) {
    p.r || p.x
  }

  /** Step 5: the access is allowed by R, W, X and U under the privilege mode, SUM and MXR. */
  ghost predicate Allowed(p: Pte, access: Access, mode: Mode) {
    match access
    case EXECUTE => p.x && p.u == !mode.super
    case WRITE => p.w && DataPage(p, mode)
    case READ => (p.r || (mode.mxr && p.x)) && DataPage(p, mode)
  }

  /** Loads and stores: user pages for the user, and for the supervisor when SUM is set. */
  ghost predicate DataPage(p: Pte, mode: Mode) {
    if mode.super then p.u ==> mode.sum else p.u
  }

  /** Steps 5 to 8 for a leaf found at the given level. */
  ghost function AtLeaf(p: Pte, level: nat, va: u32, access: Access, mode: Mode): Result {
    if !Allowed(p, access, mode) then PageFault
    else if level > 0 && p.ppn0 != 0 then PageFault
    else if !p.a || (access == WRITE && !p.d) then PageFault
    else if level > 0 then Address(p.ppn1 * 0x40_0000 + va % 0x40_0000)
    else Address(p.ppn1 * 0x40_0000 + p.ppn0 * 0x1000 + va % 0x1000)
  }

  ghost function LoadPte(m: Physical, a: phys): Option<u32>
    requires a % 4 == 0
  {
    if a in m && a + 1 in m && a + 2 in m && a + 3 in m
    then Some(LittleEndian(m[a], m[a + 1], m[a + 2], m[a + 3]))
    else None
  }

  function LittleEndian(b0: u8, b1: u8, b2: u8, b3: u8): u32 {
    b0 + 0x100 * b1 + 0x1_0000 * b2 + 0x100_0000 * b3
  }

  ghost function Vpn1(va: u32): nat {
    va / 0x40_0000
  }

  ghost function Vpn0(va: u32): nat {
    va / 0x1000 % 0x400
  }

  /** Steps 1 to 4: the root table, then at most one more. */
  ghost function Translate(m: Physical, root: ppn, va: u32, access: Access, mode: Mode): Result {
    match LoadPte(m, root * 0x1000 + Vpn1(va) * 4)
    case None => AccessFault
    case Some(bits1) =>
      var p1 := DecodePte(bits1);
      if Invalid(p1) then PageFault
      else if IsLeaf(p1) then AtLeaf(p1, 1, va, access, mode)
      else LastLevel(m, NextTable(bits1), va, access, mode)
  }

  ghost function LastLevel(m: Physical, table: ppn, va: u32, access: Access, mode: Mode): Result {
    match LoadPte(m, table * 0x1000 + Vpn0(va) * 4)
    case None => AccessFault
    case Some(bits0) =>
      var p0 := DecodePte(bits0);
      if Invalid(p0) || !IsLeaf(p0) then PageFault
      else AtLeaf(p0, 0, va, access, mode)
  }

  /** The physical page number of a PTE, bits 31..10. */
  ghost function NextTable(bits: u32): ppn {
    ReadBound(bits, 10, 22);
    assert Pow2(22) == 0x40_0000 by {
      assert Pow2(11) == 0x800;
      Pow2Add(11, 11);
    }
    Read(bits, 10, 22)
  }
}
