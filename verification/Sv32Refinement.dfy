/** The page walk of the emulator against the translation of the standard. */
module Sv32Refinement {
  import opened Bits
  import opened Words
  import opened Wrappers
  import opened FlatMemory
  import Sv32
  import opened PageWalk
  import opened PointerChain

  type Access = Sv32.Access

  /** The emulator's memory as the low part of the 34-bit physical memory; nothing lies above. */
  ghost function Embed(m: Bytes): Sv32.Physical {
    imap a: Sv32.phys | a < 0x1_0000_0000 && a in m :: m[a]
  }

  ghost function ModeOf(super: bool, sum: nat, mxr: nat): Sv32.Mode {
    Sv32.Mode(super, sum == 1, mxr == 1)
  }

  /** What the emulator must answer when the standard answers `r`: physical 0 counts as a fault. */
  ghost function Expected(r: Sv32.Result): Translation {
    match r
    case PageFault => Fault
    case AccessFault => Thrown
    case Address(pa) => Deliver(pa)
  }

  // --- Reading a PTE ---

  lemma WordIsPte(m: Bytes, a: u32)
    requires a % 4 == 0
    ensures Sv32.LoadPte(Embed(m), a) == ReadWord(m, a)
  {
    Offsets(a);
    if a in m && a + 1 in m && a + 2 in m && a + 3 in m {
      Joined(m[a], m[a + 1], m[a + 2], m[a + 3]);
    }
  }

  lemma Joined(b0: u8, b1: u8, b2: u8, b3: u8)
    ensures JoinHalves(JoinBytes(b0, b1), JoinBytes(b2, b3)) == Sv32.LittleEndian(b0, b1, b2, b3)
  {
  }

  lemma PageLiterals()
    ensures Pow2(10) == 0x400 && Pow2(12) == 0x1000 && Pow2(22) == 0x40_0000 && Pow2(34) == 0x4_0000_0000
  {
    assert Pow2(10) == 0x400;
    assert Pow2(12) == 0x1000;
    Pow2Add(10, 12);
    Pow2Add(12, 22);
  }

  lemma VirtualFields(va: u32)
    ensures Read(va, 22, 10) == Sv32.Vpn1(va) < 0x400
    ensures Read(va, 12, 10) == Sv32.Vpn0(va) < 0x400
    ensures Read(va, 0, 12) == va % 0x1000
  {
    hide Read;
    PageLiterals();
    hide Pow2;
    ReadIsDivMod(va, 22, 10);
    ReadIsDivMod(va, 12, 10);
    ReadIsDivMod(va, 0, 12);
    assert Pow2(0) == 1 by {
      Pow2Add(0, 0);
    }
  }

  lemma TableIs(pte: u32)
    ensures TableOf(pte) == Sv32.NextTable(pte) * 0x1000
  {
    hide Read;
    PageLiterals();
    hide Pow2;
    ReadAdjacent(pte, 10, 10, 12);
  }

  // --- The leaf ---

  lemma BitRange(w: nat, k: nat)
    ensures Bit(w, k) == 0 || Bit(w, k) == 1
  {
    ReadBound(w, k, 1);
    assert Pow2(1) == 2;
  }

  lemma FlagRanges(pte: u32)
    ensures forall k | k in {0, 1, 2, 3, 4, 6, 7} :: Bit(pte, k) == 0 || Bit(pte, k) == 1
  {
    hide Bit;
    BitRange(pte, 0);
    BitRange(pte, 1);
    BitRange(pte, 2);
    BitRange(pte, 3);
    BitRange(pte, 4);
    BitRange(pte, 6);
    BitRange(pte, 7);
  }

  /** The order-dependent checks of the source amount to the permission rule of the standard. */
  lemma PermitsIsAllowed(pte: u32, i: u32, access: Access, super: bool, sum: nat, mxr: nat)
    requires sum < 2 && mxr < 2
    requires !(Bit(pte, 1) == 0 && Bit(pte, 2) == 1)
    ensures var p := Sv32.DecodePte(pte);
      Permits(pte, i, access, super, sum, mxr)
      <==> (Sv32.Allowed(p, access, ModeOf(super, sum, mxr))
            && (i == 1 ==> p.ppn0 == 0) && p.a && (access == Sv32.WRITE ==> p.d))
  {
    hide Read;
    FlagRanges(pte);
  }

  /** A word below 2^34 is its three fields put side by side. */
  lemma ThreeFields(w: nat)
    requires w < 0x4_0000_0000
    ensures w == Read(w, 0, 12) + 0x1000 * Read(w, 12, 10) + 0x40_0000 * Read(w, 22, 12)
  {
    hide Read;
    PageLiterals();
    hide Pow2;
    ReadLow(w, 34);
    ReadAdjacent(w, 0, 12, 22);
    ReadAdjacent(w, 12, 10, 12);
  }

  /** One field write in a 34-bit result. */
  lemma WriteField(bits: nat, lo: nat, len: nat, v: nat, lo': nat, len': nat)
    requires bits < Pow2(34) && lo + len <= 34 && v < Pow2(len)
    requires lo + len <= lo' || lo' + len' <= lo
    ensures Write(bits, lo, len, v) < Pow2(34)
    ensures Read(Write(bits, lo, len, v), lo, len) == v
    ensures Read(Write(bits, lo, len, v), lo', len') == Read(bits, lo', len')
  {
    WriteBound(bits, lo, len, v, 34);
    ReadWritten(bits, lo, len, v);
    ReadLow(v, len);
    ReadOther(bits, lo, len, v, lo', len');
  }

  /** The four field assignments of the source compute the address of section 4.3.2, step 8. */
  lemma ComposeIs(pte: u32, i: u32, va: u32)
    ensures Compose(pte, i, va)
         == Read(pte, 20, 12) * 0x40_0000
            + (if i == 1 then Read(va, 12, 10) else Read(pte, 10, 10)) * 0x1000
            + va % 0x1000
    ensures Compose(pte, i, va) < 0x4_0000_0000
  {
    hide Read, Write;
    PageLiterals();
    hide Pow2;
    VirtualFields(va);
    ReadBound(pte, 10, 10);
    ReadBound(pte, 20, 12);
    var offset := Write(0, 0, 12, Read(va, 0, 12));
    var low := Write(offset, 12, 10, Read(pte, 10, 10));
    var high := Write(low, 22, 12, Read(pte, 20, 12));
    WriteField(0, 0, 12, Read(va, 0, 12), 12, 10);
    WriteField(offset, 12, 10, Read(pte, 10, 10), 0, 12);
    WriteField(low, 22, 12, Read(pte, 20, 12), 0, 12);
    WriteField(low, 22, 12, Read(pte, 20, 12), 12, 10);
    ThreeFields(high);
    if i == 1 {
      var super := Write(high, 12, 10, Read(va, 12, 10));
      WriteField(high, 12, 10, Read(va, 12, 10), 0, 12);
      WriteField(high, 12, 10, Read(va, 12, 10), 22, 12);
      ThreeFields(super);
    }
  }

  /** A leaf at loop counter 1 or 0 is concluded as the standard concludes it at level 1 or 0. */
  lemma LeafAgrees(pte: u32, level: u32, va: u32, access: Access, super: bool, sum: nat, mxr: nat)
    requires level < 2 && sum < 2 && mxr < 2
    requires !(Bit(pte, 1) == 0 && Bit(pte, 2) == 1)
    ensures Conclude(Leaf(pte, level), va, access, super, sum, mxr)
         == Expected(Sv32.AtLeaf(Sv32.DecodePte(pte), level, va, access, ModeOf(super, sum, mxr)))
  {
    hide Read, Permits, Compose, Sv32.Allowed, Deliver, Sv32.Flag;
    PermitsIsAllowed(pte, level, access, super, sum, mxr);
    LeafAddress(pte, level, va);
  }

  lemma LeafAddress(pte: u32, level: u32, va: u32)
    requires level < 2
    ensures Compose(pte, level, va)
         == if level > 0 then Read(pte, 20, 12) * 0x40_0000 + va % 0x40_0000
            else Read(pte, 20, 12) * 0x40_0000 + Read(pte, 10, 10) * 0x1000 + va % 0x1000
  {
    ComposeIs(pte, level, va);
    VirtualFields(va);
    LowPart(va);
    hide Read, Compose, Sv32.Vpn0, Sv32.Vpn1;
  }

  lemma LowPart(va: u32)
    ensures va % 0x40_0000 == Sv32.Vpn0(va) * 0x1000 + va % 0x1000
    ensures va == Sv32.Vpn1(va) * 0x40_0000 + va % 0x40_0000
  {
    var page := va / 0x1000;
    HalveSplit(page);
  }

  lemma HalveSplit(page: nat)
    ensures page == page / 0x400 * 0x400 + page % 0x400
  {
  }

  // --- The walk ---

  /** The second PTE read is, like the first, a pointer to a further table. */
  ghost predicate SecondPointer(m: Bytes, satp: u32, va: u32) {
    match Iterate(m, va, Root(satp), 1)
    case Continue(table) => Iterate(m, va, table, 0).Continue?
    case Break(_) => false
  }

  /** The standard's translation for the hart's satp, in the hart's memory. */
  ghost function Standard(m: Bytes, satp: u32, super: bool, sum: nat, mxr: nat, va: u32, access: Access): Sv32.Result {
    SatpPpn(satp);
    Sv32.Translate(Embed(m), Read(satp, 0, 22), va, access, ModeOf(super, sum, mxr))
  }

  lemma SatpPpn(satp: u32)
    ensures Read(satp, 0, 22) < 0x40_0000
  {
    ReadBound(satp, 0, 22);
    PageLiterals();
  }

  /** A PTE that sends the emulator to another table: only V of V, R, W and X is set. */
  ghost predicate Pointer(pte: u32) {
    var p := Sv32.DecodePte(pte);
    p.v && !p.r && !p.w && !p.x
  }

  /** How one iteration of the loop and one step of the standard classify a PTE. */
  ghost predicate SameStep(pte: u32, i: u32, it: Iteration) {
    var p := Sv32.DecodePte(pte);
    if Pointer(pte) then it == Continue(Sv32.NextTable(pte) * 0x1000) && !Sv32.IsLeaf(p)
        && (Sv32.Invalid(p) <==> Sv32.Reserved(p))
    else if Sv32.IsLeaf(p) && !Sv32.Invalid(p) then it == Break(Leaf(pte, i)) && !(Bit(pte, 1) == 0 && Bit(pte, 2) == 1)
    else it == Break(NotValid) && Sv32.Invalid(p)
  }

  lemma StepsAlike(m: Bytes, va: u32, base: nat, i: u32, pte: u32)
    requires ReadWord(m, PteAddress(va, base, i)) == Some(pte)
    ensures SameStep(pte, i, Iterate(m, va, base, i))
  {
    TableIs(pte);
    FlagRanges(pte);
    hide Read, ReadWord, PteAddress, TableOf, Sv32.NextTable;
  }

  /** A table below 2^32 is indexed without wrap-around. */
  lemma IndexNoWrap(va: u32, table: nat, i: u32)
    requires i < 2 && table < 0x10_0000
    ensures PteAddress(va, table * 0x1000, i) == table * 0x1000 + (if i == 0 then Sv32.Vpn0(va) else Sv32.Vpn1(va)) * 4
    ensures PteAddress(va, table * 0x1000, i) % 4 == 0
  {
    VirtualFields(va);
    hide Read, Sv32.Vpn0, Sv32.Vpn1;
    var vpn := if i == 0 then Sv32.Vpn0(va) else Sv32.Vpn1(va);
    WrapSmall(table * 0x1000 + vpn * 4);
    WordIndex(table, vpn);
  }

  lemma WordIndex(table: nat, vpn: nat)
    ensures (table * 0x1000 + vpn * 4) % 4 == 0
  {
    assert table * 0x1000 + vpn * 4 == (table * 0x400 + vpn) * 4;
  }

  lemma WrapSmall(n: int)
    requires 0 <= n < 0x1_0000_0000
    ensures Wrap(n) == n
  {
  }

  lemma RootIs(satp: u32)
    requires Read(satp, 0, 22) < 0x10_0000
    ensures Root(satp) == Read(satp, 0, 22) * 0x1000
  {
    hide Read;
  }

  // --- Where the standard and the emulator part ---

  /**
   * `Together`: both finish on the same PTE. Otherwise the standard stops, with a page fault or an access
   * fault, at a PTE or table that the emulator walks through.
   */
  datatype Parting = Together | PageFaultDue | AccessFaultDue

  /** Decided by at most two PTEs, and by the page numbers of the tables they lie in. */
  ghost function PartingOf(m: Bytes, satp: u32, va: u32): Parting {
    if Read(satp, 0, 22) >= 0x10_0000 then AccessFaultDue
    else
      match ReadWord(m, PteAddress(va, Root(satp), 1))
      case None => Together
      case Some(pte1) =>
        if !Pointer(pte1) then Together
        else if Sv32.Reserved(Sv32.DecodePte(pte1)) then PageFaultDue
        else if Sv32.NextTable(pte1) >= 0x10_0000 then AccessFaultDue
        else
          match ReadWord(m, PteAddress(va, Sv32.NextTable(pte1) * 0x1000, 0))
          case None => Together
          case Some(pte0) => if Pointer(pte0) then PageFaultDue else Together
  }

  /** The second and last level of the standard against the second iteration. */
  lemma LastLevelAgrees(m: Bytes, table: nat, va: u32, access: Access, super: bool, sum: nat, mxr: nat)
    requires table < 0x10_0000 && sum < 2 && mxr < 2
    ensures match Iterate(m, va, table * 0x1000, 0)
            case Break(end) =>
              Conclude(end, va, access, super, sum, mxr)
              == Expected(Sv32.LastLevel(Embed(m), table, va, access, ModeOf(super, sum, mxr)))
            case Continue(_) => Sv32.LastLevel(Embed(m), table, va, access, ModeOf(super, sum, mxr)) == Sv32.PageFault
    ensures Iterate(m, va, table * 0x1000, 0).Continue?
       <==> var word := ReadWord(m, PteAddress(va, table * 0x1000, 0)); word.Some? && Pointer(word.value)
  {
    hide Read, ReadWord, PteAddress, TableOf, Embed, Permits, Compose, Deliver, Pointer;
    hide Sv32.LoadPte, Sv32.AtLeaf, Sv32.DecodePte, Sv32.Vpn0, Sv32.NextTable, Sv32.Invalid, Sv32.IsLeaf;
    IndexNoWrap(va, table, 0);
    var a := PteAddress(va, table * 0x1000, 0);
    WordIsPte(m, a);
    if ReadWord(m, a).Some? {
      var pte := ReadWord(m, a).value;
      StepsAlike(m, va, table * 0x1000, 0, pte);
      if Iterate(m, va, table * 0x1000, 0).Break? && Iterate(m, va, table * 0x1000, 0).end.Leaf? {
        LeafAgrees(pte, 0, va, access, super, sum, mxr);
      }
    }
  }

  /** No table at or above 2^32 holds anything. */
  lemma OutOfReach(m: Bytes, a: Sv32.phys)
    requires a % 4 == 0 && a >= 0x1_0000_0000
    ensures Sv32.LoadPte(Embed(m), a) == None
  {
  }

  lemma HighIndex(table: nat, vpn: nat)
    requires 0x10_0000 <= table < 0x40_0000 && vpn < 0x400
    ensures 0x1_0000_0000 <= table * 0x1000 + vpn * 4 < 0x4_0000_0000
    ensures (table * 0x1000 + vpn * 4) % 4 == 0
  {
    WordIndex(table, vpn);
  }

  /** The root level: both finish at the root PTE, or go on to the table it names. */
  lemma RootAgrees(m: Bytes, satp: u32, va: u32, access: Access, super: bool, sum: nat, mxr: nat)
    requires sum < 2 && mxr < 2 && Read(satp, 0, 22) < 0x10_0000
    ensures var word := ReadWord(m, PteAddress(va, Root(satp), 1));
      match Iterate(m, va, Root(satp), 1)
      case Break(end) =>
        && !(word.Some? && Pointer(word.value))
        && Conclude(end, va, access, super, sum, mxr) == Expected(Standard(m, satp, super, sum, mxr, va, access))
      case Continue(base) =>
        && word.Some? && Pointer(word.value) && base == Sv32.NextTable(word.value) * 0x1000
        && Standard(m, satp, super, sum, mxr, va, access)
           == if Sv32.Reserved(Sv32.DecodePte(word.value)) then Sv32.PageFault
              else Sv32.LastLevel(Embed(m), Sv32.NextTable(word.value), va, access, ModeOf(super, sum, mxr))
  {
    hide Read, ReadWord, PteAddress, TableOf, Embed, Permits, Compose, Deliver, Pointer;
    hide Sv32.LoadPte, Sv32.AtLeaf, Sv32.DecodePte, Sv32.Vpn1, Sv32.NextTable, Sv32.Invalid, Sv32.IsLeaf;
    hide Sv32.Reserved, Sv32.LastLevel;
    var table := Read(satp, 0, 22);
    RootIs(satp);
    IndexNoWrap(va, table, 1);
    var a := PteAddress(va, table * 0x1000, 1);
    WordIsPte(m, a);
    if ReadWord(m, a).Some? {
      var pte := ReadWord(m, a).value;
      StepsAlike(m, va, table * 0x1000, 1, pte);
      var it := Iterate(m, va, Root(satp), 1);
      if it.Break? && it.end.Leaf? {
        LeafAgrees(pte, 1, va, access, super, sum, mxr);
      }
    }
  }

  /** The walk ends within two PTE reads exactly when the second PTE consulted is not a pointer. */
  lemma TwoReads(m: Bytes, satp: u32, va: u32)
    ensures Walk(m, va, Root(satp), 1, 2).Some? <==> !SecondPointer(m, satp, va)
  {
    hide Iterate, Root;
    match Iterate(m, va, Root(satp), 1)
    case Break(_) =>
    case Continue(base) =>
      assert Decrement(1) == 0;
      assert Walk(m, va, Root(satp), 1, 2) == Walk(m, va, base, 0, 1);
  }

  /** The standard, where it parts from the emulator. */
  lemma StandardParts(m: Bytes, satp: u32, super: bool, sum: nat, mxr: nat, va: u32, access: Access)
    requires sum < 2 && mxr < 2
    ensures PartingOf(m, satp, va) == PageFaultDue ==> Standard(m, satp, super, sum, mxr, va, access) == Sv32.PageFault
    ensures PartingOf(m, satp, va) == AccessFaultDue
        ==> Standard(m, satp, super, sum, mxr, va, access) == Sv32.AccessFault
  {
    VirtualFields(va);
    SatpPpn(satp);
    hide Read, ReadWord, PteAddress, Embed, Pointer, Expected, Conclude, Iterate, Root;
    hide Sv32.LoadPte, Sv32.AtLeaf, Sv32.DecodePte, Sv32.Vpn1, Sv32.Vpn0, Sv32.NextTable, Sv32.Invalid;
    hide Sv32.IsLeaf, Sv32.Reserved;
    var root := Read(satp, 0, 22);
    if root >= 0x10_0000 {
      HighIndex(root, Sv32.Vpn1(va));
      OutOfReach(m, root * 0x1000 + Sv32.Vpn1(va) * 4);
    } else {
      hide Standard;
      RootAgrees(m, satp, va, access, super, sum, mxr);
      if PartingOf(m, satp, va) != Together {
        var pte1 := ReadWord(m, PteAddress(va, Root(satp), 1)).value;
        var table := Sv32.NextTable(pte1);
        if table >= 0x10_0000 {
          HighIndex(table, Sv32.Vpn0(va));
          OutOfReach(m, table * 0x1000 + Sv32.Vpn0(va) * 4);
        } else {
          hide Sv32.LastLevel;
          LastLevelAgrees(m, table, va, access, super, sum, mxr);
        }
      }
    }
  }

  /** The emulator does what the standard does, in at most two PTE reads, where they do not part. */
  lemma WalksTogether(m: Bytes, satp: u32, super: bool, sum: nat, mxr: nat, va: u32, access: Access)
    requires Bit(satp, 31) == 1 && sum < 2 && mxr < 2 && PartingOf(m, satp, va) == Together
    ensures Walk(m, va, Root(satp), 1, 2).Some?
    ensures Translate(m, satp, super, sum, mxr, va, access) == Expected(Standard(m, satp, super, sum, mxr, va, access))
  {
    hide Read, ReadWord, PteAddress, Pointer, Iterate, Walk, Ends, EndOf, Conclude, Expected, Standard, Bit, Root;
    hide Sv32.LastLevel, Sv32.Reserved, Sv32.NextTable, Sv32.DecodePte;
    TwoReads(m, satp, va);
    RootAgrees(m, satp, va, access, super, sum, mxr);
    EndStep(m, va, Root(satp), 1);
    match Iterate(m, va, Root(satp), 1)
    case Break(_) =>
    case Continue(base) =>
      assert Decrement(1) == 0;
      EndStep(m, va, base, 0);
      LastLevelAgrees(m, base / 0x1000, va, access, super, sum, mxr);
  }

  // --- What the emulator makes of the rest of the chain ---

  /** The rules of section 4.3.2 for a leaf, at level 1 if the counter is 1 and at level 0 otherwise. */
  ghost predicate Usable(p: Sv32.Pte, i: u32, access: Access, mode: Sv32.Mode) {
    && Sv32.Allowed(p, access, mode)
    && (i == 1 ==> p.ppn0 == 0) && p.a && (access == Sv32.WRITE ==> p.d)
  }

  /** A chain whose end the emulator answers with a page fault: no PTE, no permission, or physical address 0. */
  ghost predicate FaultingEnd(end: End, va: u32, access: Access, mode: Sv32.Mode) {
    match end
    case NotValid => true
    case NoHandler => false
    case Leaf(pte, i) =>
      var p := Sv32.DecodePte(pte);
      !Usable(p, i, access, mode)
      || (p.ppn1 == 0 && if i == 1 then va % 0x40_0000 == 0 else p.ppn0 == 0 && va % 0x1000 == 0)
  }

  /** A chain whose end makes the emulator throw: unmapped memory, or a frame at or above 2^32. */
  ghost predicate ThrowingEnd(end: End, va: u32, access: Access, mode: Sv32.Mode) {
    match end
    case NotValid => false
    case NoHandler => true
    case Leaf(pte, i) => Usable(Sv32.DecodePte(pte), i, access, mode) && Sv32.DecodePte(pte).ppn1 >= 0x400
  }

  lemma EndDecides(end: End, va: u32, access: Access, super: bool, sum: nat, mxr: nat)
    requires sum < 2 && mxr < 2
    requires end.Leaf? ==> !(Bit(end.pte, 1) == 0 && Bit(end.pte, 2) == 1)
    ensures Conclude(end, va, access, super, sum, mxr) == Fault
        <==> FaultingEnd(end, va, access, ModeOf(super, sum, mxr))
    ensures Conclude(end, va, access, super, sum, mxr) == Thrown
        <==> ThrowingEnd(end, va, access, ModeOf(super, sum, mxr))
  {
    hide Read, Bit, Permits, Compose, Sv32.Allowed, Sv32.Flag;
    if end.Leaf? {
      PermitsIsAllowed(end.pte, end.i, access, super, sum, mxr);
      ComposeIs(end.pte, end.i, va);
      VirtualFields(va);
      LowPart(va);
      PpnBounds(end.pte);
      hide Sv32.Vpn0, Sv32.Vpn1;
    }
  }

  lemma PpnBounds(pte: u32)
    ensures Read(pte, 20, 12) < 0x1000 && Read(pte, 10, 10) < 0x400
  {
    PageLiterals();
    ReadBound(pte, 20, 12);
    ReadBound(pte, 10, 10);
  }

  /** The emulator's faults and exceptions, by the end of the chain of pointers from the root. */
  lemma ChainDecides(m: Bytes, satp: u32, super: bool, sum: nat, mxr: nat, va: u32, access: Access)
    requires Bit(satp, 31) == 1 && sum < 2 && mxr < 2
    ensures Translate(m, satp, super, sum, mxr, va, access) == Fault
       <==> exists end :: Reaches(m, va, Root(satp), 1, end) && FaultingEnd(end, va, access, ModeOf(super, sum, mxr))
    ensures Translate(m, satp, super, sum, mxr, va, access) == Thrown
       <==> exists end :: Reaches(m, va, Root(satp), 1, end) && ThrowingEnd(end, va, access, ModeOf(super, sum, mxr))
  {
    hide Reaches, Ends, EndOf, Conclude, FaultingEnd, ThrowingEnd, ModeOf, Root, Bit;
    EndsWithin(m, va, Root(satp), 1);
    if Ends(m, va, Root(satp), 1) {
      var end := EndOf(m, va, Root(satp), 1);
      assert Reaches(m, va, Root(satp), 1, end);
      if end.Leaf? {
        LeafIsValid(m, va, Root(satp), 1);
      }
      EndDecides(end, va, access, super, sum, mxr);
    }
  }

  // --- The refinement ---

  /** The emulator and the standard give the same answer. */
  ghost predicate Agree(m: Bytes, satp: u32, super: bool, sum: nat, mxr: nat, va: u32, access: Access) {
    Translate(m, satp, super, sum, mxr, va, access) == Expected(Standard(m, satp, super, sum, mxr, va, access))
  }

  /**
   * For every satp, memory, address, access and mode: `translateAddress` agrees with section 4.3.2 if and
   * only if the two do not part, or the chain of pointers that the emulator goes on to follow ends in a PTE
   * that gives the fault due at the parting. Where they do not part, two PTE reads are enough.
   */
  lemma Refines(m: Bytes, satp: u32, super: bool, sum: nat, mxr: nat, va: u32, access: Access)
    requires Bit(satp, 31) == 1 && sum < 2 && mxr < 2
    ensures var mode := ModeOf(super, sum, mxr);
      Agree(m, satp, super, sum, mxr, va, access)
      <==> match PartingOf(m, satp, va)
           case Together => true
           case PageFaultDue => exists end :: Reaches(m, va, Root(satp), 1, end) && FaultingEnd(end, va, access, mode)
           case AccessFaultDue => exists end :: Reaches(m, va, Root(satp), 1, end) && ThrowingEnd(end, va, access, mode)
    ensures PartingOf(m, satp, va) == Together ==> Walk(m, va, Root(satp), 1, 2).Some?
    ensures PartingOf(m, satp, va) == PageFaultDue ==> Standard(m, satp, super, sum, mxr, va, access) == Sv32.PageFault
    ensures PartingOf(m, satp, va) == AccessFaultDue
        ==> Standard(m, satp, super, sum, mxr, va, access) == Sv32.AccessFault
  {
    hide Walk, Translate, Standard, PartingOf, Reaches, FaultingEnd, ThrowingEnd, ModeOf, Root, Bit;
    StandardParts(m, satp, super, sum, mxr, va, access);
    ChainDecides(m, satp, super, sum, mxr, va, access);
    if PartingOf(m, satp, va) == Together {
      WalksTogether(m, satp, super, sum, mxr, va, access);
    }
  }

  /**
   * Where the two do not part and the standard gives an address, the emulator gives that address if and only if it
   * is neither 0, which the emulator takes for a fault, nor out of 32 bits.
   */
  lemma AddressGiven(m: Bytes, satp: u32, super: bool, sum: nat, mxr: nat, va: u32, access: Access)
    requires Bit(satp, 31) == 1 && sum < 2 && mxr < 2 && PartingOf(m, satp, va) == Together
    requires Standard(m, satp, super, sum, mxr, va, access).Address?
    ensures var pa := Standard(m, satp, super, sum, mxr, va, access).pa;
      var t := Translate(m, satp, super, sum, mxr, va, access);
      && (t.Phys? && t.pa == pa <==> 0 < pa < 0x1_0000_0000)
      && (pa == 0 ==> t == Fault) && (pa >= 0x1_0000_0000 ==> t == Thrown)
  {
    hide Standard, Translate, PartingOf, Walk, Bit;
    WalksTogether(m, satp, super, sum, mxr, va, access);
  }
}
