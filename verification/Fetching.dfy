/** Instruction fetch: alignment, and the retry after a page fault (src/rv32/hart.cpp:28-43). */
module Fetching {
  import opened Bits
  import opened Words
  import opened Wrappers
  import opened FlatMemory
  import Sv32
  import opened PageWalk
  import opened Sv32Refinement
  import opened TranslationLaws
  import opened Csrs
  import opened HartState
  import opened Steps
  import opened Fronts

  /** Entering an exception from supervisor mode leaves address translation as it was. */
  lemma EntryKeepsTranslation(s: State, code: nat, tval: u32, va: u32, access: Sv32.Access)
    requires s.super
    ensures TranslateIn(EnterException(s, code, tval), va, access) == TranslateIn(s, va, access)
  {
    EnterStatusBits(s.csr.sstatus, s.super);
    hide EnterStatus, SetCause, VectorBase, Bit, Translate;
  }

  /** Retrying at the address that just faulted, from supervisor mode, faults again. */
  lemma RetryStops(s: State)
    requires s.super && s.pc == VectorBase(s.csr.stvec) && TranslateIn(s, s.pc, Sv32.EXECUTE) == Fault
    ensures Fetch(s).FrontStop?
  {
    EntryKeepsTranslation(s, 12, s.pc, s.pc, Sv32.EXECUTE);
    hide EnterStatus, SetCause, VectorBase, TranslateIn;
  }

  /** A vectored address above the base and in its page fails together with the base. */
  lemma SamePageRetryStops(s: State, offset: nat)
    requires s.super && TranslateIn(s, s.pc, Sv32.EXECUTE) == Fault && offset < 0x1000
    requires s.pc == Add(VectorBase(s.csr.stvec), offset)
    requires s.pc / 0x1000 == VectorBase(s.csr.stvec) / 0x1000
    ensures Fetch(s).FrontStop?
  {
    var base := VectorBase(s.csr.stvec);
    EntryKeepsTranslation(s, 12, s.pc, base, Sv32.EXECUTE);
    OffsetOrder(base, offset);
    hide EnterStatus, SetCause, VectorBase, Translate;
    assert Bit(s.csr.satp, 31) != 0 by {
      BareNeverFaults(s, s.pc);
    }
    SamePage(s.mem, s.csr.satp, s.super, Bit(s.csr.sstatus, 18), Bit(s.csr.sstatus, 19), s.pc, base, Sv32.EXECUTE);
    hide Bit;
  }

  lemma BareNeverFaults(s: State, va: u32)
    requires TranslateIn(s, va, Sv32.EXECUTE) == Fault
    ensures Bit(s.csr.satp, 31) != 0
  {
    hide Walk, EndOf, Conclude, Bit;
  }

  /** Adding a small offset without leaving the page: the sum does not lie below the base. */
  lemma OffsetOrder(base: u32, offset: nat)
    requires offset < 0x1000 && Add(base, offset) / 0x1000 == base / 0x1000
    ensures Add(base, offset) % 0x1000 >= base % 0x1000
  {
    if base + offset >= 0x1_0000_0000 {
      assert false;
    }
    SameQuotient(base, base + offset);
  }

  lemma SameQuotient(a: nat, b: nat)
    requires a <= b && a / 0x1000 == b / 0x1000
    ensures a % 0x1000 <= b % 0x1000
  {
  }

  /**
   * Two trap entries before a successful fetch: the first is an interrupt, vectored to a page other than
   * the one of the stvec base. In every other case the retry repeats the failing translation and throws.
   */
  lemma TwoTrapsBeforeFetch(s: State)
    requires FrontOf(s).Fetched? && FrontTraps(s) == 2
    ensures s.pc % 4 == 0 && TakesInterrupt(s) && VectorMode(s.csr.stvec) == 1
    ensures Preamble(s).pc / 0x1000 != VectorBase(s.csr.stvec) / 0x1000
    ensures FrontOf(s).at.pc == VectorBase(s.csr.stvec)
  {
    hide VectorBase, VectorMode, TranslateIn, Fetch, Preamble, FrontTraps, TakesInterrupt, PendingCode, Add;
    PreambleCases(s);
    FaultsFirst(s);
    var b := Preamble(s);
    if s.pc % 4 != 0 || VectorMode(s.csr.stvec) != 1 {
      RetryStops(b);
      assert false;
    } else {
      if b.pc / 0x1000 == VectorBase(s.csr.stvec) / 0x1000 {
        CodeSmall(s.csr);
        SamePageRetryStops(b, 4 * PendingCode(s.csr).value);
        assert false;
      }
      RefetchesAtBase(b);
    }
  }

  lemma CodeSmall(csr: Csrs)
    ensures PendingCode(csr).Some? ==> PendingCode(csr).value < 16
  {
    hide Pending;
  }

  /** Two trap entries before the fetch: one in the preamble, and the page fault. */
  lemma FaultsFirst(s: State)
    requires FrontTraps(s) == 2
    ensures TranslateIn(Preamble(s), Preamble(s).pc, Sv32.EXECUTE) == Fault
    ensures s.pc % 4 != 0 || (TakesInterrupt(s) && PendingCode(s.csr).Some?)
  {
    PreambleFrame(s);
    hide EnterException, EnterInterrupt, Translate, InterruptsOpen, Pending;
  }

  /** Where the preamble leaves the pc when it entered a trap. */
  lemma PreambleCases(s: State)
    ensures s.pc % 4 != 0 ==> Preamble(s).super && Preamble(s).pc == VectorBase(s.csr.stvec)
    ensures s.pc % 4 == 0 && TakesInterrupt(s) ==>
              && Preamble(s).super
              && Preamble(s).pc == if VectorMode(s.csr.stvec) == 1
                 then Add(VectorBase(s.csr.stvec), 4 * PendingCode(s.csr).value) else VectorBase(s.csr.stvec)
    ensures Preamble(s).csr.stvec == s.csr.stvec
  {
    PreambleFrame(s);
    hide EnterStatus, SetCause, VectorBase, Bit, Pending, Read;
    if TakesInterrupt(s) {
      VectoredTo(s, PendingCode(s.csr).value);
      hide EnterInterrupt;
    }
  }

  lemma VectoredTo(s: State, code: nat)
    requires code < 0x100
    ensures var b := EnterInterrupt(s, code);
      && b.super && b.csr.stvec == s.csr.stvec
      && b.pc == if VectorMode(s.csr.stvec) == 1 then Add(VectorBase(s.csr.stvec), 4 * code)
          else VectorBase(s.csr.stvec)
  {
    hide EnterStatus, SetCause, VectorBase, VectorMode, Read, Add, Wrap;
    CauseIs(s.csr.scause, code, true);
    WrapSmall(4 * code);
  }

  lemma RefetchesAtBase(b: State)
    requires TranslateIn(b, b.pc, Sv32.EXECUTE) == Fault && Fetch(b).Fetched?
    ensures Fetch(b).at.pc == VectorBase(b.csr.stvec)
  {
    hide EnterStatus, SetCause, VectorBase, TranslateIn;
  }

  /** Every fetch is made at an aligned pc, from an aligned physical address, whatever put the pc there. */
  lemma FetchAligned(s: State)
    requires FrontOf(s).Fetched?
    ensures var at := FrontOf(s).at;
      && at.pc % 4 == 0
      && TranslateIn(at, at.pc, Sv32.EXECUTE).Phys?
      && TranslateIn(at, at.pc, Sv32.EXECUTE).pa % 4 == 0
      && ReadWord(at.mem, TranslateIn(at, at.pc, Sv32.EXECUTE).pa) == Some(FrontOf(s).instr)
      && FrontTraps(s) <= 2
  {
    hide EnterException, HandleInterrupts, AlignPc, TranslateIn, ReadWord, FrontTraps;
    FrontFrame(s);
    var at := FrontOf(s).at;
    PhysKeepsOffset(at, at.pc, Sv32.EXECUTE);
    AlignedOffset(at.pc, TranslateIn(at, at.pc, Sv32.EXECUTE).pa);
  }

  /** Translation keeps the page offset. */
  lemma PhysKeepsOffset(s: State, va: u32, access: Sv32.Access)
    requires TranslateIn(s, va, access).Phys?
    ensures TranslateIn(s, va, access).pa % 0x1000 == va % 0x1000
  {
    hide Bit, Walk, EndOf, Permits, Compose, Read;
    if Bit(s.csr.satp, 31) != 0 {
      SamePage(s.mem, s.csr.satp, s.super, Bit(s.csr.sstatus, 18), Bit(s.csr.sstatus, 19), va, va, access);
    }
  }

  lemma AlignedOffset(a: u32, b: u32)
    requires a % 0x1000 == b % 0x1000
    ensures a % 4 == b % 4 && a % 2 == b % 2
  {
    FinerOffset(a);
    FinerOffset(b);
  }

  lemma FinerOffset(a: u32)
    ensures a % 4 == a % 0x1000 % 4 && a % 2 == a % 0x1000 % 2
  {
    assert a == a / 0x1000 * 0x1000 + a % 0x1000;
  }
}
