/**
 * What a trap delivers and when an interrupt is due, by the numbers of the CSRs (RISC-V Privileged Specification
 * 20211203, sections 4.1.1 to 4.1.9), in any state and over a step.
 */
module TrapDelivery {
  import opened Bits
  import opened Words
  import Sv32
  import opened PageWalk
  import opened Csrs
  import Datapath
  import Departures
  import opened HartState
  import opened Execute
  import opened Steps
  import opened Effects
  import opened Fronts
  import opened Decoder
  import Precision
  import Fetching
  import opened Instructions
  import UserMode
  import FlatMemory
  import opened MemoryInstructions
  import TrapNesting

  const SSTATUS: nat := 0x100
  const SIE: nat := 0x104
  const STVEC: nat := 0x105
  const SEPC: nat := 0x141
  const SCAUSE: nat := 0x142
  const STVAL: nat := 0x143
  const SIP: nat := 0x144
  const SATP: nat := 0x180

  // --- What is delivered ---

  /** The base of stvec: its value with the two mode bits cleared. */
  function Base(stvec: u32): u32 {
    stvec - stvec % 4
  }

  /** spp holds the mode, spie holds sie, sie is clear, and no other bit has changed. */
  ghost predicate Saved(before: u32, super: bool, after: u32) {
    && Bit(after, 8) == (if super then 1 else 0) && Bit(after, 5) == Bit(before, 1) && Bit(after, 1) == 0
    && forall k: nat | k !in {1, 5, 8} :: Bit(after, k) == Bit(before, k)
  }

  lemma StatusSaved(status: u32, super: bool)
    ensures Saved(status, super, EnterStatus(status, super))
  {
    hide EnterStatus, Bit;
    EnterStatusBits(status, super);
  }

  /**
   * A trap has been taken in `s`: the CSRs say where, why and with what value, sstatus holds the mode and sie, and
   * nothing else has changed but the mode and the pc.
   */
  ghost predicate Delivered(s: State, t: State, cause: u32, tval: u32, target: u32) {
    && t.super && t.pc == target
    && ReadCsr(t.csr, SEPC) == s.pc && ReadCsr(t.csr, SCAUSE) == cause && ReadCsr(t.csr, STVAL) == tval
    && Saved(ReadCsr(s.csr, SSTATUS), s.super, ReadCsr(t.csr, SSTATUS))
    && t == s.(pc := t.pc, super := t.super, csr := t.csr)
    && t.csr == s.csr.(sstatus := t.csr.sstatus, sepc := t.csr.sepc, scause := t.csr.scause, stval := t.csr.stval)
  }

  lemma BaseIs(stvec: u32)
    ensures VectorBase(stvec) == Base(stvec) && VectorMode(stvec) == stvec % 4
  {
    hide Read;
    assert Pow2(2) == 4 && Pow2(0) == 1;
    assert Pow2(30) == 0x4000_0000 by {
      assert Pow2(10) == 0x400;
      Pow2Add(10, 10);
      Pow2Add(10, 20);
    }
    hide Pow2;
    ReadIsDivMod(stvec, 2, 30);
    ReadIsDivMod(stvec, 0, 2);
  }

  lemma ExceptionDelivered(s: State, code: nat, tval: u32)
    requires code < 0x8000_0000
    ensures Delivered(s, EnterException(s, code, tval), code, tval, Base(ReadCsr(s.csr, STVEC)))
  {
    hide EnterStatus, SetCause, VectorBase, VectorMode, Saved, Read, Base;
    StatusSaved(s.csr.sstatus, s.super);
    CauseIs(s.csr.scause, code, false);
    BaseIs(s.csr.stvec);
  }

  /** The address an interrupt goes to: the base, or with stvec in vectored mode an entry above it. */
  function Vector(stvec: u32, code: nat): u32 {
    if stvec % 4 == 1 then Wrap(Base(stvec) + 4 * code) else Base(stvec)
  }

  lemma InterruptTarget(s: State, code: nat)
    requires code < 0x100
    ensures EnterInterrupt(s, code).pc == Vector(s.csr.stvec, code) && EnterInterrupt(s, code).super
  {
    hide EnterInterrupt, VectorBase, VectorMode, Base, Wrap;
    Fetching.VectoredTo(s, code);
    BaseIs(s.csr.stvec);
  }

  lemma InterruptDelivered(s: State, code: nat)
    requires code < 0x100
    ensures Delivered(s, EnterInterrupt(s, code), 0x8000_0000 + code, 0, Vector(ReadCsr(s.csr, STVEC), code))
  {
    hide EnterStatus, SetCause, VectorBase, VectorMode, Vector, Saved, Read, Add;
    InterruptTarget(s, code);
    StatusSaved(s.csr.sstatus, s.super);
    CauseIs(s.csr.scause, code, true);
  }

  // --- When an interrupt is due ---

  /** The interrupts that are pending and enabled: ssip, stip and seip. */
  function Due(csr: Csrs): u32 {
    And32(And32(ReadCsr(csr, SIP), ReadCsr(csr, SIE)), 0x222)
  }

  /** Interrupts are taken in user mode, and in supervisor mode if sie is set. */
  ghost predicate Unmasked(s: State) {
    !s.super || Bit(ReadCsr(s.csr, SSTATUS), 1) == 1
  }

  lemma {:induction false} AboveIsZero(v: nat, k: nat)
    requires v < Pow2(k)
    ensures Read(v, k, 1) == 0
    decreases k
  {
    Datapath.BitOf(v, k);
    if k > 0 {
      AboveIsZero(v / 2, k - 1);
    }
  }

  lemma MaskLow(k: nat)
    requires k < 10
    ensures Read(0x222, k, 1) == if k in {1, 5, 9} then 1 else 0
  {
    hide Read;
    Datapath.BitOf(0x222, k);
    MaskMiddle(k);
  }

  lemma MaskMiddle(k: nat)
    ensures 0 < k < 10 ==> Read(0x111, k - 1, 1) == if k in {1, 5, 9} then 1 else 0
  {
    hide Read;
    if 0 < k < 10 {
      Datapath.BitOf(0x111, k - 1);
      if k > 1 {
        Datapath.BitOf(0x88, k - 2);
        if k > 2 {
          Datapath.BitOf(0x44, k - 3);
          if k > 3 {
            Datapath.BitOf(0x22, k - 4);
            if k > 4 {
              MaskTop(k);
            }
          }
        }
      }
    }
  }

  lemma MaskTop(k: nat)
    requires 4 < k < 10
    ensures Read(0x11, k - 5, 1) == if k in {5, 9} then 1 else 0
  {
    hide Read;
    Datapath.BitOf(0x11, k - 5);
    if k > 5 {
      Datapath.BitOf(8, k - 6);
      if k > 6 {
        Datapath.BitOf(4, k - 7);
        if k > 7 {
          Datapath.BitOf(2, k - 8);
          if k > 8 {
            Datapath.BitOf(1, k - 9);
          }
        }
      }
    }
  }

  lemma {:induction false} PowerGrows(k: nat)
    requires k >= 10
    ensures Pow2(k) >= 0x400
  {
    if k == 10 {
      assert Pow2(10) == 0x400;
    } else {
      PowerGrows(k - 1);
    }
  }

  lemma MaskBits(k: nat)
    ensures Bit(0x222, k) == if k in {1, 5, 9} then 1 else 0
  {
    hide Read;
    if k < 10 {
      MaskLow(k);
    } else {
      PowerGrows(k);
      AboveIsZero(0x222, k);
    }
  }

  lemma DueBits(csr: Csrs, k: nat)
    ensures Bit(Due(csr), k) == if k in {1, 5, 9} && Pending(csr, k) then 1 else 0
  {
    hide Read, And;
    var both := And32(csr.sip, csr.sie);
    Datapath.AndBits(csr.sip, csr.sie, k);
    Datapath.AndBits(both, 0x222, k);
    MaskBits(k);
  }

  lemma ZeroDue(csr: Csrs)
    ensures Due(csr) != 0 <==> PendingCode(csr).Some?
  {
    hide Bit, Due, Pending;
    if PendingCode(csr).None? {
      forall k: nat | k < 32
        ensures Bit(Due(csr), k) == Bit(0, k)
      {
        DueBits(csr, k);
        ZeroBit(k);
      }
      Departures.SameBits(Due(csr), 0);
    } else {
      var code := PendingCode(csr).value;
      DueBits(csr, code);
      ZeroBit(code);
    }
  }

  lemma ZeroBit(k: nat)
    ensures Bit(0, k) == 0
  {
    Datapath.ZeroBit(k);
    hide Read;
  }

  /** The interrupt of the lowest number is due first. */
  ghost predicate First(due: u32, code: nat) {
    && code in {1, 5, 9} && Bit(due, code) == 1
    && forall k: nat | k < code :: Bit(due, k) == 0
  }

  lemma FirstDue(csr: Csrs)
    requires PendingCode(csr).Some?
    ensures First(Due(csr), PendingCode(csr).value)
  {
    hide Bit, Due, Pending;
    var code := PendingCode(csr).value;
    DueBits(csr, code);
    forall k: nat | k < code
      ensures Bit(Due(csr), k) == 0
    {
      DueBits(csr, k);
    }
  }

  lemma TakesIffDue(s: State)
    ensures TakesInterrupt(s) <==> Unmasked(s) && Due(s.csr) != 0
  {
    ZeroDue(s.csr);
    hide Due, Bit, PendingCode;
  }

  /**
   * With an aligned pc, a step begins with the entry of the first interrupt due if interrupts are not masked and one
   * is due, and with nothing otherwise.
   */
  lemma InterruptStep(s: State)
    requires s.pc % 4 == 0
    ensures Unmasked(s) && Due(s.csr) != 0 ==>
      && (exists code: nat :: First(Due(s.csr), code)
            && Delivered(s, Preamble(s), 0x8000_0000 + code, 0, Vector(ReadCsr(s.csr, STVEC), code)))
      && |TrapNesting.FrontEvents(s)| > 0
      && TrapNesting.FrontEvents(s)[0] == TrapNesting.Entered(TrapNesting.View(s), TrapNesting.View(Preamble(s)))
    ensures !(Unmasked(s) && Due(s.csr) != 0) ==> Preamble(s) == s
  {
    hide Unmasked, Due, First, Delivered, EnterInterrupt, Vector, ReadCsr, TranslateIn, EnterException;
    hide TrapNesting.View;
    TakesIffDue(s);
    assert AlignPc(s) == s;
    if TakesInterrupt(s) {
      var code := PendingCode(s.csr).value;
      FirstDue(s.csr);
      InterruptDelivered(s, code);
    }
    hide InterruptsOpen, PendingCode;
  }

  /** With a misaligned pc it begins with that exception, and no interrupt follows. */
  lemma MisalignedStep(s: State)
    requires s.pc % 4 != 0
    ensures Delivered(s, Preamble(s), 0, s.pc, Base(ReadCsr(s.csr, STVEC)))
  {
    hide Delivered, EnterException, Base, ReadCsr, Bit, Pending;
    ExceptionDelivered(s, 0, s.pc);
    PreambleFrame(s);
  }

  /** A page fault of the fetch is delivered, and the instruction is fetched at the stvec base. */
  lemma FetchFaultStep(s: State)
    requires FrontOf(s).Fetched? && TranslateIn(Preamble(s), Preamble(s).pc, Sv32.EXECUTE).Fault?
    ensures var b := Preamble(s); Delivered(b, FrontOf(s).at, 12, b.pc, Base(ReadCsr(b.csr, STVEC)))
  {
    hide Delivered, EnterException, Base, ReadCsr, TranslateIn, Preamble, FetchFrom;
    ExceptionDelivered(Preamble(s), 12, Preamble(s).pc);
    TrapNesting.FetchAt(Preamble(s));
  }

  /** What a fetch at the pc finds: the word there, or the reason to stop. */
  ghost function Found(b: State, pa: u32): Front {
    if Backed(b.mem, pa, 4) then Fetched(b, NumberAt(b.mem, pa)) else FrontStop(b)
  }

  ghost function NumberAt(m: FlatMemory.Bytes, a: u32): u32 {
    NumberBound(m, a, 4);
    PowerFour();
    Number(m, a, 4)
  }

  lemma PowerFour()
    ensures Pow2(8) == 0x100 && Pow2(32) == 0x1_0000_0000
  {
    assert Pow2(8) == 0x100;
    Pow2Of32();
  }

  lemma {:induction false} NumberBound(m: FlatMemory.Bytes, a: int, n: nat)
    ensures Number(m, a, n) < Pow2(8 * n)
    decreases n
  {
    if n > 0 {
      NumberBound(m, a + 1, n - 1);
      PowerFour();
      Pow2Add(8, 8 * (n - 1));
    }
  }

  lemma FetchFinds(b: State, pa: u32)
    requires pa % 4 == 0
    ensures FetchFrom(b, pa) == Found(b, pa)
  {
    ReadsWord(b.mem, pa);
    hide Number, Backed, FlatMemory.ReadWord;
  }

  /** The translated address of an aligned pc is aligned. */
  lemma FetchAddress(b: State)
    requires b.pc % 4 == 0 && TranslateIn(b, b.pc, Sv32.EXECUTE).Phys?
    ensures TranslateIn(b, b.pc, Sv32.EXECUTE).pa % 4 == 0
  {
    hide TranslateIn;
    Fetching.PhysKeepsOffset(b, b.pc, Sv32.EXECUTE);
    Fetching.AlignedOffset(b.pc, TranslateIn(b, b.pc, Sv32.EXECUTE).pa);
  }

  /** The second attempt to fetch, for which a page fault is a stop. */
  ghost predicate SecondFetch(c: State, f: Front) {
    match TranslateIn(c, c.pc, Sv32.EXECUTE)
    case Endless => f == FrontNever
    case Phys(pa) => f == Found(c, pa)
    case _ => f == FrontStop(c)
  }

  /**
   * Every outcome of the fetch after the preamble: the little-endian word at the translated pc, the stop on unmapped
   * memory or an exception, and on a page fault one more attempt from the state in which it is delivered.
   */
  lemma FetchStep(s: State)
    ensures var b := Preamble(s);
      match TranslateIn(b, b.pc, Sv32.EXECUTE)
      case Endless => FrontOf(s) == FrontNever
      case Thrown => FrontOf(s) == FrontStop(b)
      case Phys(pa) => FrontOf(s) == Found(b, pa)
      case Fault =>
        exists c: State :: Delivered(b, c, 12, b.pc, Base(ReadCsr(b.csr, STVEC))) && SecondFetch(c, FrontOf(s))
  {
    hide Delivered, EnterException, Base, ReadCsr, TranslateIn, Preamble, FetchFrom, Found;
    var b := Preamble(s);
    PreambleFrame(s);
    if TranslateIn(b, b.pc, Sv32.EXECUTE).Phys? {
      FetchAddress(b);
      FetchFinds(b, TranslateIn(b, b.pc, Sv32.EXECUTE).pa);
    }
    var c := EnterException(b, 12, b.pc);
    ExceptionDelivered(b, 12, b.pc);
    ExceptionMasks(b, 12, b.pc);
    if TranslateIn(c, c.pc, Sv32.EXECUTE).Phys? {
      FetchAddress(c);
      FetchFinds(c, TranslateIn(c, c.pc, Sv32.EXECUTE).pa);
    }
    hide Masked, OnlyTrapState;
  }

  /** A trap of the instruction is delivered by the end of the step, by the numbers of the CSRs. */
  lemma TrapStep(s: State, input: Input, p: period)
    requires FrontOf(s).Fetched? && Exec(FrontOf(s).at, FrontOf(s).instr, input.ch).Trap?
    ensures var at, e := FrontOf(s).at, Exec(FrontOf(s).at, FrontOf(s).instr, input.ch);
      && Step(s, input, p).Next?
      && var t := Step(s, input, p).next;
      && t.super && t.pc == Base(ReadCsr(at.csr, STVEC))
      && ReadCsr(t.csr, SEPC) == at.pc && ReadCsr(t.csr, SCAUSE) == e.cause && ReadCsr(t.csr, STVAL) == e.tval
  {
    hide FrontOf, Exec, IncrementCounters, EnterException, Precision.RefusedWrite, Base, VectorBase, EnterStatus;
    Precision.PreciseStep(s, input, p);
    BaseIs(FrontOf(s).at.csr.stvec);
    hide Bit, Rd, SetRegister;
  }

  // --- Address translation, by the numbers of the CSRs ---

  lemma StatusPowers()
    ensures Pow2(1) == 2 && Pow2(18) == 0x4_0000 && Pow2(19) == 0x8_0000 && Pow2(31) == 0x8000_0000
  {
    assert Pow2(1) == 2 && Pow2(9) == 0x200;
    Pow2Add(9, 9);
    Pow2Add(1, 18);
    Pow2Of31();
  }

  /** The top bit of satp turns paging on; SUM and MXR are bits 18 and 19 of sstatus. */
  lemma StateTranslates(s: State, va: u32, access: Sv32.Access)
    ensures var satp, status := ReadCsr(s.csr, SATP), ReadCsr(s.csr, SSTATUS);
      TranslateIn(s, va, access)
      == if satp < 0x8000_0000 then Phys(va)
         else Translate(s.mem, satp, s.super, status / 0x4_0000 % 2, status / 0x8_0000 % 2, va, access)
  {
    hide Read, Ends, EndOf, Conclude, Root;
    StatusPowers();
    hide Pow2;
    ReadIsDivMod(s.csr.satp, 31, 1);
    ReadIsDivMod(s.csr.sstatus, 18, 1);
    ReadIsDivMod(s.csr.sstatus, 19, 1);
    assert s.csr.satp < 0x8000_0000 <==> s.csr.satp / 0x8000_0000 % 2 == 0;
  }

  // --- SRET ---

  /** SRET, by the numbers of the CSRs. */
  lemma SretOp(s: State, w: u32, ch: u32)
    requires IsOp(w, SRET)
    ensures Exec(s, w, ch).Retire?
    ensures var n := Exec(s, w, ch).next;
      var before, after := ReadCsr(s.csr, SSTATUS), ReadCsr(n.csr, SSTATUS);
      && n.pc == ReadCsr(s.csr, SEPC) && (n.super <==> Bit(before, 8) == 1)
      && Bit(after, 1) == Bit(before, 5) && Bit(after, 5) == 1 && Bit(after, 8) == 0
      && (forall k: nat | k !in {1, 5, 8} :: Bit(after, k) == Bit(before, k))
      && n == s.(pc := n.pc, super := n.super, csr := s.csr.(sstatus := n.csr.sstatus))
  {
    hide Exec, SretStatus, Bit, DecodeType, DecodeOpcode;
    UserMode.SretIsSystem(w);
    TrapNesting.ExecSret(s, w, ch);
    SretStatusBits(s.csr.sstatus);
  }
}
