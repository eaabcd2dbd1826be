/** Control and status registers (src/rv32/csr.hpp). */
module Csrs {
  import opened Bits
  import opened Words
  import opened Wrappers
  import opened PageWalk

  datatype Csrs = Csrs(
    cycle: u32, cycleh: u32, time: u32, timeh: u32, instret: u32, instreth: u32,
    sscratch: u32, sepc: u32, stval: u32, sstatus: u32, sie: u32, stvec: u32,
    scounteren: u32, scause: u32, sip: u32, satp: u32)

  datatype AccessType = URO | SRW

  /** `None` stands for the exception thrown on an unknown CSR. */
  function GetAccessType(addr: nat): Option<AccessType> {
    match addr
    case 0xC00 | 0xC01 | 0xC02 | 0xC80 | 0xC81 | 0xC82 => Some(URO)
    case 0x100 | 0x104 | 0x105 | 0x106 | 0x140 | 0x141 | 0x142 | 0x143 | 0x144 | 0x180 => Some(SRW)
    case _ => None
  }

  /** Reading through `operator[]`. */
  function ReadCsr(c: Csrs, addr: nat): u32
    requires GetAccessType(addr).Some?
  {
    match addr
    case 0xC00 => c.cycle
    case 0xC01 => c.time
    case 0xC02 => c.instret
    case 0xC80 => c.cycleh
    case 0xC81 => c.timeh
    case 0xC82 => c.instreth
    case 0x100 => c.sstatus
    case 0x104 => c.sie
    case 0x105 => c.stvec
    case 0x106 => c.scounteren
    case 0x140 => c.sscratch
    case 0x141 => c.sepc
    case 0x142 => c.scause
    case 0x143 => c.stval
    case 0x144 => c.sip
    case _ => c.satp
  }

  /** Assigning through `operator[]`. */
  function WriteCsr(c: Csrs, addr: nat, v: u32): Csrs
    requires GetAccessType(addr).Some?
  {
    match addr
    case 0xC00 => c.(cycle := v)
    case 0xC01 => c.(time := v)
    case 0xC02 => c.(instret := v)
    case 0xC80 => c.(cycleh := v)
    case 0xC81 => c.(timeh := v)
    case 0xC82 => c.(instreth := v)
    case 0x100 => c.(sstatus := v)
    case 0x104 => c.(sie := v)
    case 0x105 => c.(stvec := v)
    case 0x106 => c.(scounteren := v)
    case 0x140 => c.(sscratch := v)
    case 0x141 => c.(sepc := v)
    case 0x142 => c.(scause := v)
    case 0x143 => c.(stval := v)
    case 0x144 => c.(sip := v)
    case _ => c.(satp := v)
  }

  /** A CSR gives back what was assigned to it, and no other CSR changes. */
  lemma ReadWriteCsr(c: Csrs, addr: nat, v: u32, other: nat)
    requires GetAccessType(addr).Some? && GetAccessType(other).Some?
    ensures ReadCsr(WriteCsr(c, addr, v), other) == if other == addr then v else ReadCsr(c, other)
  {
  }

  // --- sstatus on trap entry and SRET ---

  function OneIf(b: bool): nat {
    if b then 1 else 0
  }

  /** spp := mode; spie := sie; sie := 0 (src/rv32/hart.cpp:630-634, 670-674) */
  function EnterStatus(status: u32, super: bool): u32 {
    var a := SetField(status, 8, 1, OneIf(super));
    var b := SetField(a, 5, 1, Bit(a, 1));
    SetField(b, 1, 1, 0)
  }

  /** sie := spie; spie := 1; spp := 0 (src/rv32/hart.cpp:454-456) */
  function SretStatus(status: u32): u32 {
    var a := SetField(status, 1, 1, Bit(status, 5));
    var b := SetField(a, 5, 1, 1);
    SetField(b, 8, 1, 0)
  }

  /** One single-bit assignment. */
  lemma SetBit(w: u32, k: nat, v: nat)
    requires k < 32 && v < 2
    ensures Bit(SetField(w, k, 1, v), k) == v
    ensures forall j: nat | j != k :: Bit(SetField(w, k, 1, v), j) == Bit(w, j)
  {
    hide Read, Write;
    ReadWritten(w, k, 1, v);
    assert Pow2(1) == 2;
    ReadLow(v, 1);
    forall j: nat | j != k
      ensures Bit(SetField(w, k, 1, v), j) == Bit(w, j)
    {
      ReadOther(w, k, 1, v, j, 1);
    }
  }

  lemma BitBound(w: nat, k: nat)
    ensures Bit(w, k) < 2
  {
    ReadBound(w, k, 1);
    assert Pow2(1) == 2;
  }

  /** Trap entry saves the mode in spp and sie in spie, clears sie, and touches no other bit. */
  lemma EnterStatusBits(status: u32, super: bool)
    ensures var st := EnterStatus(status, super);
      && Bit(st, 8) == OneIf(super) && Bit(st, 5) == Bit(status, 1) && Bit(st, 1) == 0
      && forall j: nat | j !in {1, 5, 8} :: Bit(st, j) == Bit(status, j)
  {
    hide Bit, SetField;
    var a := SetField(status, 8, 1, OneIf(super));
    SetBit(status, 8, OneIf(super));
    BitBound(a, 1);
    var b := SetField(a, 5, 1, Bit(a, 1));
    SetBit(a, 5, Bit(a, 1));
    SetBit(b, 1, 0);
  }

  /** SRET restores sie from spie, sets spie, clears spp, and touches no other bit. */
  lemma SretStatusBits(status: u32)
    ensures var st := SretStatus(status);
      && Bit(st, 1) == Bit(status, 5) && Bit(st, 5) == 1 && Bit(st, 8) == 0
      && forall j: nat | j !in {1, 5, 8} :: Bit(st, j) == Bit(status, j)
  {
    hide Bit, SetField;
    BitBound(status, 5);
    var a := SetField(status, 1, 1, Bit(status, 5));
    SetBit(status, 1, Bit(status, 5));
    var b := SetField(a, 5, 1, 1);
    SetBit(a, 5, 1);
    SetBit(b, 8, 0);
  }

  // --- scause and stvec ---

  /** exceptionCode := code; interrupt := flag */
  function SetCause(scause: u32, code: nat, interrupt: bool): u32 {
    SetField(SetField(scause, 0, 31, code), 31, 1, OneIf(interrupt))
  }

  /** The whole of scause is determined by the two assignments. */
  lemma CauseIs(scause: u32, code: nat, interrupt: bool)
    requires code < 0x8000_0000
    ensures SetCause(scause, code, interrupt) == code + 0x8000_0000 * OneIf(interrupt)
    ensures Read(SetCause(scause, code, interrupt), 0, 31) == code
  {
    hide Read, Write;
    var a := SetField(scause, 0, 31, code);
    var b := SetField(a, 31, 1, OneIf(interrupt));
    Pow2Of31();
    assert Pow2(1) == 2;
    Pow2Of32();
    hide Pow2;
    ReadWritten(scause, 0, 31, code);
    ReadLow(code, 31);
    ReadOther(a, 31, 1, OneIf(interrupt), 0, 31);
    ReadWritten(a, 31, 1, OneIf(interrupt));
    ReadLow(OneIf(interrupt), 1);
    ReadAdjacent(b, 0, 31, 1);
    ReadLow(b, 32);
  }

  lemma Pow2Of31()
    ensures Pow2(31) == 0x8000_0000
  {
    assert Pow2(9) == 0x200;
    assert Pow2(11) == 0x800;
    Pow2Add(11, 11);
    Pow2Add(9, 22);
  }

  /** `stvec.base << 2` */
  function VectorBase(stvec: u32): u32 {
    Wrap(Read(stvec, 2, 30) * 4)
  }

  function VectorMode(stvec: u32): nat {
    Read(stvec, 0, 2)
  }

  lemma VectorBaseAligned(stvec: u32)
    ensures VectorBase(stvec) % 4 == 0
  {
    hide Read;
  }
}
