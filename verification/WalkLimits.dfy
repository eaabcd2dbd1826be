/** Where the page walk departs from the standard, as page tables. */
module WalkLimits {
  import opened Bits
  import opened Words
  import opened Wrappers
  import opened FlatMemory
  import Sv32
  import opened PageWalk
  import opened Sv32Refinement
  import Datapath

  // --- Memories built from words ---

  function Byte(w: u32, k: nat): u8
    requires k < 4
  {
    var half := if k < 2 then w % 0x1_0000 else w / 0x1_0000;
    if k % 2 == 0 then half % 0x100 else half / 0x100
  }

  /** The memory that holds exactly the given words, at word addresses. */
  ghost function Holding(entries: map<u32, u32>): Bytes {
    imap a: u32 | a - a % 4 in entries :: Byte(entries[a - a % 4], a % 4)
  }

  lemma HoldingRead(entries: map<u32, u32>, a: u32)
    requires a % 4 == 0
    ensures a in entries ==> ReadWord(Holding(entries), a) == Some(entries[a])
    ensures a !in entries ==> ReadWord(Holding(entries), a) == None
  {
    hide Byte, JoinBytes, JoinHalves;
    Offsets(a);
    HoldingByte(entries, a, 0);
    HoldingByte(entries, a, 1);
    HoldingByte(entries, a, 2);
    HoldingByte(entries, a, 3);
    if a in entries {
      BytesJoin(entries[a]);
    }
  }

  lemma HoldingByte(entries: map<u32, u32>, a: u32, k: nat)
    requires a % 4 == 0 && k < 4
    ensures a + k < 0x1_0000_0000
    ensures ReadByte(Holding(entries), a + k) == if a in entries then Some(Byte(entries[a], k)) else None
  {
    DivMod(a + k, a / 4, k, 4);
  }

  lemma BytesJoin(w: u32)
    ensures JoinHalves(JoinBytes(Byte(w, 0), Byte(w, 1)), JoinBytes(Byte(w, 2), Byte(w, 3))) == w
  {
  }

  // --- Departures from the standard, as concrete tables ---

  lemma PpnFields(w: u32)
    ensures Read(w, 10, 10) == w / 0x400 % 0x400 && Read(w, 20, 12) == w / 0x10_0000 % 0x1000
  {
    hide Read;
    PageLiterals();
    assert Pow2(20) == 0x10_0000 by {
      Pow2Add(10, 10);
    }
    hide Pow2;
    ReadIsDivMod(w, 10, 10);
    ReadIsDivMod(w, 20, 12);
  }

  lemma LiteralTables()
    ensures TableOf(0x401) == 0x1000 && TableOf(0x801) == 0x2000
    ensures Read(0xCCF, 20, 12) == 0 && Read(0xCCF, 10, 10) == 3
    ensures Read(0x10_00CF, 20, 12) == 1 && Read(0x10_00CF, 10, 10) == 0
    ensures Read(0x10_00DF, 20, 12) == 1 && Read(0x10_00DF, 10, 10) == 0
  {
    hide Read;
    PpnFields(0x401);
    PpnFields(0x801);
    PpnFields(0xCCF);
    PpnFields(0x10_00CF);
    PpnFields(0x10_00DF);
  }

  /** 0x401 and 0x801: valid pointers to the tables in pages 1 and 2. */
  lemma PointerBits()
    ensures Bit(0x401, 0) == 1 && Bit(0x401, 1) == 0 && Bit(0x401, 2) == 0 && Bit(0x401, 3) == 0
    ensures Bit(0x801, 0) == 1 && Bit(0x801, 1) == 0 && Bit(0x801, 2) == 0 && Bit(0x801, 3) == 0
  {
  }

  /** 0xCCF: frame 3, readable, writable and executable by the supervisor, accessed and dirty. */
  lemma LeafBits()
    ensures Bit(0xCCF, 0) == 1 && Bit(0xCCF, 1) == 1 && Bit(0xCCF, 2) == 1 && Bit(0xCCF, 3) == 1
    ensures Bit(0xCCF, 4) == 0 && Bit(0xCCF, 6) == 1 && Bit(0xCCF, 7) == 1
  {
  }

  /** A root table at 0x1000 whose entries 0 and 1 are pointers, and a leaf in the table at 0x2000. */
  ghost function OverrunMemory(): Bytes {
    Holding(map[0x1000 := 0x401, 0x1004 := 0x801, 0x2000 := 0xCCF])
  }

  /** The three iterations through those tables. */
  lemma OverrunTable()
    ensures Iterate(OverrunMemory(), 0x1000, 0x1000, 1) == Continue(0x1000)
    ensures Iterate(OverrunMemory(), 0x1000, 0x1000, 0) == Continue(0x2000)
    ensures Iterate(OverrunMemory(), 0x1000, 0x2000, 0xFFFF_FFFF) == Break(Leaf(0xCCF, 0xFFFF_FFFF))
  {
    hide Read, Holding, ReadWord, TableOf, Bit;
    var entries: map<u32, u32> := map[0x1000 := 0x401, 0x1004 := 0x801, 0x2000 := 0xCCF];
    IndexLiteral();
    PointerBits();
    LeafBits();
    LiteralTables();
    HoldingRead(entries, 0x1000);
    HoldingRead(entries, 0x1004);
    HoldingRead(entries, 0x2000);
  }

  /**
   * The pointer at the last level is not faulted: va 0x1000 goes through the pointers at 0x1000 and
   * 0x1004 to a third table at 0x2000 and on to frame 3. The standard faults.
   */
  lemma OverrunSucceeds(sum: nat, mxr: nat)
    requires sum < 2 && mxr < 2
    ensures Bit(0x8000_0001, 31) == 1
    ensures Standard(OverrunMemory(), 0x8000_0001, true, sum, mxr, 0x1000, Sv32.READ) == Sv32.PageFault
    ensures Translate(OverrunMemory(), 0x8000_0001, true, sum, mxr, 0x1000, Sv32.READ) == Phys(0x3000)
  {
    var m := OverrunMemory();
    hide OverrunMemory, Read, Iterate, Bit, Compose, Root, Pointer, Sv32.LastLevel, ReadWord, PteAddress;
    OverrunTable();
    SatpLiteral();
    assert Decrement(1) == 0 && Decrement(0) == 0xFFFF_FFFF;
    RootAgrees(m, 0x8000_0001, 0x1000, Sv32.READ, true, sum, mxr);
    LastLevelAgrees(m, 1, 0x1000, Sv32.READ, true, sum, mxr);
    hide Standard;
    EndStep(m, 0x1000, 0x1000, 1);
    EndStep(m, 0x1000, 0x1000, 0);
    EndStep(m, 0x1000, 0x2000, 0xFFFF_FFFF);
    OverrunConclusion(sum, mxr);
  }

  lemma OverrunConclusion(sum: nat, mxr: nat)
    ensures Conclude(Leaf(0xCCF, 0xFFFF_FFFF), 0x1000, Sv32.READ, true, sum, mxr) == Phys(0x3000)
  {
    hide Read, Bit, Compose;
    LeafBits();
    LiteralTables();
    ComposeIs(0xCCF, 0xFFFF_FFFF, 0x1000);
  }

  /** 0x811: a pointer to the table in page 2 with the reserved bit U set. */
  lemma ReservedBits()
    ensures Bit(0x811, 0) == 1 && Bit(0x811, 1) == 0 && Bit(0x811, 2) == 0 && Bit(0x811, 3) == 0 && Bit(0x811, 4) == 1
  {
  }

  lemma ReservedPointer()
    ensures TableOf(0x811) == 0x2000 && Sv32.Reserved(Sv32.DecodePte(0x811))
  {
    ReservedBits();
    PpnFields(0x811);
    hide Read;
  }

  /** A root table at 0x1000 with such a pointer, and a leaf in the table at 0x2000. */
  ghost function ReservedMemory(): Bytes {
    Holding(map[0x1000 := 0x811, 0x2004 := 0xCCF])
  }

  lemma ReservedTable()
    ensures ReadWord(ReservedMemory(), PteAddress(0x1000, 0x1000, 1)) == Some(0x811)
    ensures Iterate(ReservedMemory(), 0x1000, 0x1000, 1) == Continue(0x2000)
    ensures Iterate(ReservedMemory(), 0x1000, 0x2000, 0) == Break(Leaf(0xCCF, 0))
  {
    hide Read, Holding, ReadWord, TableOf, Bit, Sv32.Reserved, Sv32.DecodePte;
    var entries: map<u32, u32> := map[0x1000 := 0x811, 0x2004 := 0xCCF];
    IndexLiteral();
    ReservedBits();
    ReservedPointer();
    LeafBits();
    HoldingRead(entries, 0x1000);
    HoldingRead(entries, 0x2004);
  }

  /**
   * A pointer with a reserved bit is followed: va 0x1000 goes through the pointer at 0x1000, which has U set, to
   * the leaf at 0x2004 and on to frame 3. The standard faults.
   */
  lemma ReservedFollowed(sum: nat, mxr: nat)
    requires sum < 2 && mxr < 2
    ensures Bit(0x8000_0001, 31) == 1 && !SecondPointer(ReservedMemory(), 0x8000_0001, 0x1000)
    ensures Standard(ReservedMemory(), 0x8000_0001, true, sum, mxr, 0x1000, Sv32.READ) == Sv32.PageFault
    ensures Translate(ReservedMemory(), 0x8000_0001, true, sum, mxr, 0x1000, Sv32.READ) == Phys(0x3000)
  {
    var m := ReservedMemory();
    hide ReservedMemory, Read, Iterate, Bit, Compose, Root, Pointer, Sv32.LastLevel, Sv32.Reserved;
    hide Sv32.DecodePte, ReadWord, PteAddress;
    ReservedTable();
    ReservedPointer();
    SatpLiteral();
    assert Decrement(1) == 0;
    RootAgrees(m, 0x8000_0001, 0x1000, Sv32.READ, true, sum, mxr);
    hide Standard;
    EndStep(m, 0x1000, 0x1000, 1);
    EndStep(m, 0x1000, 0x2000, 0);
    ReservedConclusion(sum, mxr);
  }

  lemma ReservedConclusion(sum: nat, mxr: nat)
    ensures Conclude(Leaf(0xCCF, 0), 0x1000, Sv32.READ, true, sum, mxr) == Phys(0x3000)
  {
    hide Read, Bit, Compose;
    LeafBits();
    LiteralTables();
    ComposeIs(0xCCF, 0, 0x1000);
  }

  /** 0xCF: a superpage at physical 0, open to the supervisor. */
  lemma ZeroLeafBits()
    ensures Bit(0xCF, 0) == 1 && Bit(0xCF, 1) == 1 && Bit(0xCF, 2) == 1 && Bit(0xCF, 3) == 1
    ensures Bit(0xCF, 4) == 0 && Bit(0xCF, 6) == 1 && Bit(0xCF, 7) == 1
  {
  }

  lemma ZeroLeaf()
    ensures var p := Sv32.DecodePte(0xCF);
      p.ppn1 == 0 && p.ppn0 == 0 && p.d && p.a && !p.u && p.x && p.w && p.r && p.v
  {
    hide Read;
    ZeroLeafBits();
    PpnFields(0xCF);
  }

  /** A root table at 0x1000 that maps the first 4 MiB to themselves. */
  ghost function ZeroMemory(): Bytes {
    Holding(map[0x1000 := 0xCF])
  }

  lemma ZeroPte()
    ensures PteAddress(0, 0x1000, 1) == 0x1000 && ReadWord(ZeroMemory(), 0x1000) == Some(0xCF)
  {
    hide Read, Holding, ReadWord;
    var entries: map<u32, u32> := map[0x1000 := 0xCF];
    VirtualFields(0);
    HoldingRead(entries, 0x1000);
  }

  /** The standard translates address 0 of such a mapping, the emulator faults. */
  lemma ZeroFaults(sum: nat, mxr: nat)
    requires sum < 2 && mxr < 2
    ensures Standard(ZeroMemory(), 0x8000_0001, true, sum, mxr, 0, Sv32.READ) == Sv32.Address(0)
    ensures Translate(ZeroMemory(), 0x8000_0001, true, sum, mxr, 0, Sv32.READ) == Fault
  {
    hide Read, ZeroMemory, ReadWord, PteAddress, Bit, Root, PartingOf, Translate;
    SatpLiteral();
    ZeroPte();
    ZeroLeaf();
    ZeroTogether(ZeroMemory());
    WordIsPte(ZeroMemory(), 0x1000);
    hide Sv32.DecodePte, Sv32.LoadPte, Embed;
    assert Standard(ZeroMemory(), 0x8000_0001, true, sum, mxr, 0, Sv32.READ) == Sv32.Address(0);
    hide Standard;
    AddressGiven(ZeroMemory(), 0x8000_0001, true, sum, mxr, 0, Sv32.READ);
  }

  lemma ZeroTogether(m: Bytes)
    requires ReadWord(m, PteAddress(0, 0x1000, 1)) == Some(0xCF)
    ensures PartingOf(m, 0x8000_0001, 0) == Together
  {
    hide Read, ReadWord, PteAddress, Root, Sv32.DecodePte;
    SatpLiteral();
    ZeroLeaf();
  }

  lemma SatpLiteral()
    ensures Bit(0x8000_0001, 31) == 1 && Root(0x8000_0001) == 0x1000 && Read(0x8000_0001, 0, 22) == 1
  {
    hide Read;
    PageLiterals();
    assert Pow2(0) == 1 && Pow2(1) == 2;
    assert Pow2(31) == 0x8000_0000 by {
      assert Pow2(9) == 0x200;
      Pow2Add(9, 22);
    }
    hide Pow2;
    ReadIsDivMod(0x8000_0001, 0, 22);
    ReadIsDivMod(0x8000_0001, 31, 1);
  }

  lemma IndexLiteral()
    ensures Read(0x1000, 22, 10) == 0 && Read(0x1000, 12, 10) == 1
  {
    hide Read;
    VirtualFields(0x1000);
  }

  /** A leaf whose frame is 0x400 and that permits everything to the given privilege mode. */
  function OpenLeaf(super: bool): u32 {
    if super then 0x10_00CF else 0x10_00DF
  }

  lemma OpenLeafBits(super: bool)
    ensures var pte := OpenLeaf(super);
      && Bit(pte, 0) == 1 && Bit(pte, 1) == 1 && Bit(pte, 2) == 1 && Bit(pte, 3) == 1
      && Bit(pte, 4) == (if super then 0 else 1) && Bit(pte, 6) == 1 && Bit(pte, 7) == 1
      && Read(pte, 20, 12) == 1 && Read(pte, 10, 10) == 0
  {
    hide Read, Bit;
    LiteralTables();
    if super {
      SuperLeafBits();
    } else {
      UserLeafBits();
    }
  }

  lemma SuperLeafBits()
    ensures Bit(0x10_00CF, 0) == 1 && Bit(0x10_00CF, 1) == 1 && Bit(0x10_00CF, 2) == 1 && Bit(0x10_00CF, 3) == 1
    ensures Bit(0x10_00CF, 4) == 0 && Bit(0x10_00CF, 6) == 1 && Bit(0x10_00CF, 7) == 1
  {
  }

  lemma UserLeafBits()
    ensures Bit(0x10_00DF, 0) == 1 && Bit(0x10_00DF, 1) == 1 && Bit(0x10_00DF, 2) == 1 && Bit(0x10_00DF, 3) == 1
    ensures Bit(0x10_00DF, 4) == 1 && Bit(0x10_00DF, 6) == 1 && Bit(0x10_00DF, 7) == 1
  {
  }

  /**
   * A root table at or above 2^32: its address wraps, so in some memory the emulator translates every
   * such access while the standard's table is out of reach.
   */
  lemma HighRootDeparts(satp: u32, super: bool, sum: nat, mxr: nat, va: u32, access: Sv32.Access)
    requires Bit(satp, 31) == 1 && sum < 2 && mxr < 2 && Read(satp, 0, 22) >= 0x10_0000
    ensures exists m: Bytes ::
      && Translate(m, satp, super, sum, mxr, va, access).Phys?
      && Standard(m, satp, super, sum, mxr, va, access) == Sv32.AccessFault
  {
    hide Read, Sv32.Vpn1;
    var a := PteAddress(va, Root(satp), 1);
    RootAligned(satp, va);
    var entries: map<u32, u32> := map[a := OpenLeaf(super)];
    var m := Holding(entries);
    HoldingRead(entries, a);
    OpenLeafBits(super);
    hide Holding, OpenLeaf;
    var pte := OpenLeaf(super);
    assert Iterate(m, va, Root(satp), 1) == Break(Leaf(pte, 1));
    EndStep(m, va, Root(satp), 1);
    VirtualFields(va);
    ComposeIs(pte, 1, va);
    SatpPpn(satp);
    hide Iterate, Compose, PteAddress, Root;
    assert Standard(m, satp, super, sum, mxr, va, access) == Sv32.AccessFault;
    assert Translate(m, satp, super, sum, mxr, va, access).Phys?;
  }

  /** The PTE that points to a table, with no other bit set. */
  function PointerTo(table: Sv32.ppn): u32 {
    table * 0x400 + 1
  }

  lemma PointerToBits(table: Sv32.ppn)
    ensures var pte := PointerTo(table);
      Bit(pte, 0) == 1 && Bit(pte, 1) == 0 && Bit(pte, 2) == 0 && Bit(pte, 3) == 0
  {
    LowBits(table * 0x40);
  }

  /** The four low bits of a word. */
  lemma LowBits(n: nat)
    ensures Read(n * 16 + 1, 0, 1) == 1 && Read(n * 16 + 1, 1, 1) == 0
    ensures Read(n * 16 + 1, 2, 1) == 0 && Read(n * 16 + 1, 3, 1) == 0
  {
    assert (n * 16 + 1) / 2 == n * 8 && n * 8 / 2 == n * 4 && n * 4 / 2 == n * 2;
    Datapath.BitOf(n * 16 + 1, 0);
    Datapath.BitOf(n * 16 + 1, 1);
    Datapath.BitOf(n * 16 + 1, 2);
    Datapath.BitOf(n * 16 + 1, 3);
    Datapath.BitOf(n * 8, 0);
    Datapath.BitOf(n * 8, 1);
    Datapath.BitOf(n * 8, 2);
    Datapath.BitOf(n * 4, 0);
    Datapath.BitOf(n * 4, 1);
    Datapath.BitOf(n * 2, 0);
    hide Read;
  }

  lemma PointerToTable(table: Sv32.ppn)
    ensures Sv32.NextTable(PointerTo(table)) == table && TableOf(PointerTo(table)) == table * 0x1000
  {
    hide Read, TableOf;
    TableIs(PointerTo(table));
    PageLiterals();
    hide Pow2;
    ReadIsDivMod(PointerTo(table), 10, 22);
    DivMod(PointerTo(table), table, 1, 0x400);
  }

  /** The two PTEs the emulator reads, the second in a table whose address is cut off. */
  lemma HighIterations(m: Bytes, base: nat, table: Sv32.ppn, super: bool, va: u32)
    requires ReadWord(m, PteAddress(va, base, 1)) == Some(PointerTo(table))
    requires ReadWord(m, PteAddress(va, table * 0x1000, 0)) == Some(OpenLeaf(super))
    ensures Iterate(m, va, base, 1) == Continue(table * 0x1000)
    ensures Iterate(m, va, table * 0x1000, 0) == Break(Leaf(OpenLeaf(super), 0))
  {
    hide Read, Bit, ReadWord, OpenLeaf, PointerTo, PteAddress, TableOf;
    PointerToBits(table);
    PointerToTable(table);
    OpenLeafBits(super);
  }

  lemma HighWalk(m: Bytes, satp: u32, table: Sv32.ppn, super: bool, sum: nat, mxr: nat, va: u32, access: Sv32.Access)
    requires Bit(satp, 31) == 1 && sum < 2 && mxr < 2
    requires Iterate(m, va, Root(satp), 1) == Continue(table * 0x1000)
    requires Iterate(m, va, table * 0x1000, 0) == Break(Leaf(OpenLeaf(super), 0))
    ensures Translate(m, satp, super, sum, mxr, va, access).Phys?
  {
    hide Read, Bit, OpenLeaf, Iterate, Root, Compose;
    assert Decrement(1) == 0;
    EndStep(m, va, Root(satp), 1);
    EndStep(m, va, table * 0x1000, 0);
    OpenLeafBits(super);
    ComposeIs(OpenLeaf(super), 0, va);
  }

  /** Its addresses are word addresses. */
  lemma PteAligned(va: u32, base: nat, i: u32)
    requires base % 4 == 0
    ensures PteAddress(va, base, i) % 4 == 0
  {
    hide Read;
    WordWrap(base, if i == 0 then Read(va, 12, 10) else Read(va, 22, 10));
  }

  lemma WordWrap(base: nat, vpn: nat)
    requires base % 4 == 0
    ensures Wrap(base + vpn * 4) % 4 == 0
  {
    var n := base / 4 + vpn;
    assert base + vpn * 4 == n * 4;
  }

  /**
   * A second table at or above 2^32: its address is cut off in the same way. For every root below 2^32 and every
   * such table, in some memory whose root PTE points to it the emulator translates what the standard cannot
   * reach, unless the cut-off address is the root PTE itself.
   */
  lemma HighTableDeparts(satp: u32, table: Sv32.ppn, super: bool, sum: nat, mxr: nat, va: u32, access: Sv32.Access)
    requires Bit(satp, 31) == 1 && sum < 2 && mxr < 2 && Read(satp, 0, 22) < 0x10_0000 <= table
    requires PteAddress(va, Root(satp), 1) != PteAddress(va, table * 0x1000, 0)
    ensures exists m: Bytes ::
      && ReadWord(m, PteAddress(va, Root(satp), 1)) == Some(PointerTo(table))
      && Translate(m, satp, super, sum, mxr, va, access).Phys?
      && Standard(m, satp, super, sum, mxr, va, access) == Sv32.AccessFault
  {
    hide Read, Bit, Iterate, Translate, Standard, OpenLeaf, PointerTo, ReadWord, PteAddress, Root, PartingOf;
    var m := HighMemory(satp, table, super, va);
    HighIterations(m, Root(satp), table, super, va);
    HighWalk(m, satp, table, super, sum, mxr, va, access);
    HighPointerParts(m, satp, table, va);
    StandardParts(m, satp, super, sum, mxr, va, access);
  }

  lemma HighMemory(satp: u32, table: Sv32.ppn, super: bool, va: u32) returns (m: Bytes)
    requires PteAddress(va, Root(satp), 1) != PteAddress(va, table * 0x1000, 0)
    ensures ReadWord(m, PteAddress(va, Root(satp), 1)) == Some(PointerTo(table))
    ensures ReadWord(m, PteAddress(va, table * 0x1000, 0)) == Some(OpenLeaf(super))
  {
    hide Read, OpenLeaf, PointerTo, ReadWord, PteAddress, Root;
    RootAligned(satp, va);
    PteAligned(va, table * 0x1000, 0);
    m := TwoWords(PteAddress(va, Root(satp), 1), PointerTo(table), PteAddress(va, table * 0x1000, 0), OpenLeaf(super));
  }

  /** A memory that holds two words. */
  lemma TwoWords(a: u32, v: u32, b: u32, w: u32) returns (m: Bytes)
    requires a % 4 == 0 && b % 4 == 0 && a != b
    ensures ReadWord(m, a) == Some(v) && ReadWord(m, b) == Some(w)
  {
    hide ReadWord, Holding;
    var entries: map<u32, u32> := map[a := v, b := w];
    m := Holding(entries);
    HoldingRead(entries, a);
    HoldingRead(entries, b);
  }

  lemma HighPointerParts(m: Bytes, satp: u32, table: Sv32.ppn, va: u32)
    requires Read(satp, 0, 22) < 0x10_0000 <= table
    requires ReadWord(m, PteAddress(va, Root(satp), 1)) == Some(PointerTo(table))
    ensures PartingOf(m, satp, va) == AccessFaultDue
  {
    PointerToBits(table);
    PointerToTable(table);
    PointerToFlags(table);
    hide Read, ReadWord, PointerTo, PteAddress, Root, TableOf, Sv32.NextTable, Bit, Sv32.Reserved, Pointer;
  }

  lemma PointerToFlags(table: Sv32.ppn)
    ensures Pointer(PointerTo(table)) && !Sv32.Reserved(Sv32.DecodePte(PointerTo(table)))
  {
    PointerToBits(table);
    HighBits(table * 4);
    hide Read, Sv32.NextTable;
  }

  lemma {:induction false} LowZeros(n: nat, z: nat, k: nat)
    requires k < z
    ensures Read(n * Pow2(z), k, 1) == 0
  {
    var half := n * Pow2(z - 1);
    assert n * Pow2(z) == 2 * half;
    Datapath.BitOf(2 * half, k);
    if k > 0 {
      LowZeros(n, z - 1, k - 1);
    }
  }

  lemma HighBits(n: nat)
    ensures Read(n * 0x100 + 1, 4, 1) == 0 && Read(n * 0x100 + 1, 6, 1) == 0 && Read(n * 0x100 + 1, 7, 1) == 0
  {
    assert (n * 0x100 + 1) / 2 == n * 0x80;
    assert Pow2(7) == 0x80;
    LowZeros(n, 7, 3);
    LowZeros(n, 7, 5);
    LowZeros(n, 7, 6);
    hide Read, Pow2;
    Datapath.BitOf(n * 0x100 + 1, 4);
    Datapath.BitOf(n * 0x100 + 1, 6);
    Datapath.BitOf(n * 0x100 + 1, 7);
  }

  lemma RootAligned(satp: u32, va: u32)
    ensures PteAddress(va, Root(satp), 1) % 4 == 0
  {
    hide Read;
    var n := Read(satp, 0, 22);
    assert Root(satp) % 0x1000 == 0;
    assert (Root(satp) + Read(va, 22, 10) * 4) % 4 == 0;
  }
}
