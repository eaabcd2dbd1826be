/** Which memory a user instruction can change when paging is on. */
module Isolation {
  import opened Bits
  import opened Words
  import opened Wrappers
  import opened FlatMemory
  import Sv32
  import opened PageWalk
  import opened Sv32Refinement
  import opened Csrs
  import opened Instructions
  import opened Decoder
  import opened HartState
  import opened Execute
  import opened Steps
  import opened Effects
  import opened Fronts
  import opened Fetching

  /** A PTE that lets the user write: V, R, W, U, A and D are set. */
  ghost predicate UserWritable(pte: u32) {
    && Bit(pte, 0) == 1 && Bit(pte, 1) == 1 && Bit(pte, 2) == 1
    && Bit(pte, 4) == 1 && Bit(pte, 6) == 1 && Bit(pte, 7) == 1
  }

  /** The page tables lead the virtual address to a user-writable leaf that names the frame. */
  ghost predicate Granted(s: State, va: u32, frame: nat) {
    && Ends(s.mem, va, Root(s.csr.satp), 1)
    && EndOf(s.mem, va, Root(s.csr.satp), 1).Leaf?
    && var leaf := EndOf(s.mem, va, Root(s.csr.satp), 1);
       UserWritable(leaf.pte) && Compose(leaf.pte, leaf.i, va) / 0x1000 == frame
  }

  /** The virtual address a STORE or AMO instruction writes to. */
  function Target(s: State, w: u32): u32 {
    if DecodeType(w) == Some(STORE) then Add(GetRegister(s, Rs1(w)), ImmS(w)) else GetRegister(s, Rs1(w))
  }

  /** Every byte that differs lies in the one frame granted for the virtual address. */
  ghost predicate OnlyGranted(s: State, va: u32, m: Bytes) {
    || m == s.mem
    || exists frame: nat :: Granted(s, va, frame) && ChangedInFrame(s.mem, m, frame)
  }

  ghost predicate ChangedInFrame(m: Bytes, m': Bytes, frame: nat) {
    && m'.Keys == m.Keys
    && forall b: u32 | b in m && m'[b] != m[b] :: b / 0x1000 == frame
  }

  // --- A write translation names a granted frame ---

  lemma WriteGranted(s: State, va: u32)
    requires !s.super && Bit(s.csr.satp, 31) == 1 && TranslateIn(s, va, Sv32.WRITE).Phys?
    ensures Granted(s, va, TranslateIn(s, va, Sv32.WRITE).pa / 0x1000)
  {
    hide Read, Walk, EndOf, Compose, Root;
    var root := Root(s.csr.satp);
    assert Ends(s.mem, va, root, 1) && EndOf(s.mem, va, root, 1).Leaf?;
    LeafIsValid(s.mem, va, root, 1);
    FlagRanges(EndOf(s.mem, va, root, 1).pte);
    PermitsWrite(EndOf(s.mem, va, root, 1).pte, EndOf(s.mem, va, root, 1).i, Bit(s.csr.sstatus, 18),
        Bit(s.csr.sstatus, 19));
    hide Permits, Bit;
  }

  lemma PermitsWrite(pte: u32, i: u32, sum: nat, mxr: nat)
    requires Bit(pte, 0) != 0 && !(Bit(pte, 1) == 0 && Bit(pte, 2) == 1)
    requires Permits(pte, i, Sv32.WRITE, false, sum, mxr)
    ensures UserWritable(pte)
  {
    hide Read;
    FlagRanges(pte);
  }

  // --- An aligned access stays in its page ---

  lemma SpanInPage(a: u32, n: nat)
    requires n in {1, 2, 4} && a % n == 0
    ensures forall b | b in Span(a, n) :: b / 0x1000 == a / 0x1000
  {
    Spans(a);
    Offsets(a);
    if n == 4 {
      SameFour(a);
    } else if n == 2 {
      SameTwo(a);
    }
  }

  lemma SameFour(a: u32)
    requires a % 4 == 0
    ensures (a + 1) / 0x1000 == a / 0x1000 && (a + 2) / 0x1000 == a / 0x1000 && (a + 3) / 0x1000 == a / 0x1000
  {
  }

  lemma SameTwo(a: u32)
    requires a % 2 == 0
    ensures Add(a, 1) / 0x1000 == a / 0x1000
  {
    assert Add(a, 1) == a + 1;
  }

  lemma ChangedSpan(m: Bytes, m': Bytes, a: u32, n: nat)
    requires ChangedOnly(m, m', a, n) && n in {1, 2, 4} && a % n == 0
    ensures ChangedInFrame(m, m', a / 0x1000)
  {
    SpanInPage(a, n);
    hide Span;
  }

  lemma StoreChanges(op: Opcode, m: Bytes, a: u32, v: u32)
    requires op in {SB, SH, SW}
    ensures ChangedOnly(m, StoreValue(op, m, a, v).bytes, a, Width(op))
  {
    Spans(a);
    HalfwordRoundTrip(m, a, v % 0x1_0000);
    WordRoundTrip(m, a, v);
    hide WriteHalfword, WriteWord;
  }

  lemma StoreOps(w: u32)
    requires IsType(w, STORE) && DecodeOpcode(w).Some?
    ensures DecodeOpcode(w).value in {SB, SH, SW}
  {
    hide Funct3, Funct7, Rs2, ImmI, Major;
  }

  /** What a user store leaves in memory. */
  lemma StoreIsolated(s: State, w: u32)
    requires !s.super && Bit(s.csr.satp, 31) == 1 && IsType(w, STORE)
    ensures match ExecStore(s, w)
            case Retire(n) => OnlyGranted(s, Target(s, w), n.mem)
            case Trap(_, _, at) => at.mem == s.mem
            case Abort(last) => OnlyGranted(s, Target(s, w), last.mem)
            case Hang => true
  {
    hide DecodeType, DecodeOpcode, TranslateIn, StoreValue, Rs1, Rs2, ImmS, Granted, ChangedInFrame;
    var va := Add(GetRegister(s, Rs1(w)), ImmS(w));
    if TranslateIn(s, va, Sv32.WRITE).Phys? && DecodeOpcode(w).Some? {
      var pa, op := TranslateIn(s, va, Sv32.WRITE).pa, DecodeOpcode(w).value;
      if pa % Width(op) == 0 {
        StoreOps(w);
        WriteGranted(s, va);
        StoreChanges(op, s.mem, pa, GetRegister(s, Rs2(w)));
        ChangedSpan(s.mem, StoreValue(op, s.mem, pa, GetRegister(s, Rs2(w))).bytes, pa, Width(op));
      }
    }
  }

  lemma WordIsolated(s: State, va: u32, pa: u32, v: u32)
    requires !s.super && Bit(s.csr.satp, 31) == 1
    requires TranslateIn(s, va, Sv32.WRITE) == Phys(pa) && va % 4 == 0
    ensures OnlyGranted(s, va, WriteWord(s.mem, pa, v).bytes)
  {
    hide TranslateIn, WriteWord, Granted, ChangedInFrame;
    PhysKeepsOffset(s, va, Sv32.WRITE);
    AlignedOffset(va, pa);
    WriteGranted(s, va);
    WordRoundTrip(s.mem, pa, v);
    ChangedSpan(s.mem, WriteWord(s.mem, pa, v).bytes, pa, 4);
  }

  lemma AtomicIsolated(s: State, w: u32, op: Opcode, va: u32, pa: u32, val: u32)
    requires !s.super && Bit(s.csr.satp, 31) == 1
    requires op != LR_W ==> TranslateIn(s, va, Sv32.WRITE) == Phys(pa) && va % 4 == 0
    ensures match Atomic(s, w, op, pa, val)
            case Retire(n) => OnlyGranted(s, va, n.mem)
            case Trap(_, _, at) => at.mem == s.mem
            case Abort(last) => OnlyGranted(s, va, last.mem)
            case Hang => true
  {
    hide TranslateIn, WriteWord, Rmw, Rd, Rs2, Granted, ChangedInFrame;
    if op != LR_W {
      WordIsolated(s, va, pa, Rmw(op, val, GetRegister(s, Rs2(w))));
      WordIsolated(s, va, pa, GetRegister(s, Rs2(w)));
    }
  }

  lemma AmoIsolated(s: State, w: u32)
    requires !s.super && Bit(s.csr.satp, 31) == 1 && IsType(w, AMO)
    ensures match ExecAmo(s, w)
            case Retire(n) => OnlyGranted(s, Target(s, w), n.mem)
            case Trap(_, _, at) => at.mem == s.mem
            case Abort(last) => OnlyGranted(s, Target(s, w), last.mem)
            case Hang => true
  {
    hide DecodeOpcode, TranslateIn, ReadWord, Rs1, Atomic, Granted, ChangedInFrame;
    var va := GetRegister(s, Rs1(w));
    if DecodeOpcode(w).Some? && va % 4 == 0 {
      var op := DecodeOpcode(w).value;
      var t := TranslateIn(s, va, if op == LR_W then Sv32.READ else Sv32.WRITE);
      if t.Phys? && ReadWord(s.mem, t.pa).Some? {
        AtomicIsolated(s, w, op, va, t.pa, ReadWord(s.mem, t.pa).value);
      }
    }
  }

  lemma OthersIsolated(s: State, w: u32, e: Effect)
    requires Frame(s, w, e) && !IsType(w, STORE) && !IsType(w, AMO)
    ensures e.Retire? ==> e.next.mem == s.mem
    ensures e.Trap? ==> e.at.mem == s.mem
  {
    hide DecodeType;
  }

  /** Exceptions outside the memory classes leave memory alone. */
  lemma AbortsIsolated(s: State, w: u32, ch: u32)
    requires !IsType(w, STORE) && !IsType(w, AMO) && Exec(s, w, ch).Abort?
    ensures Exec(s, w, ch).last == s
  {
    hide DecodeType, DecodeOpcode, TranslateIn, LoadValue, Taken, Alu, AluImm, Rd, Rs1, Rs2, ImmI, ImmB, ImmJ;
    hide ImmU, Imm12;
    hide ReadCsr, WriteCsr, CsrResult, WriteRefused, CounterClosed, ExecStore, ExecAmo, SetField, Sret;
  }

  /**
   * With paging on, whatever a user instruction does (store, SC, AMO or anything else, retiring, trapping or
   * stopped by an exception), every byte it changes lies in the one 4 KiB frame that the leaf PTE of its own
   * virtual address names, and that PTE has V, R, W, U, A and D set.
   */
  lemma ExecIsolated(s: State, w: u32, ch: u32)
    requires !s.super && Bit(s.csr.satp, 31) == 1
    ensures match Exec(s, w, ch)
            case Retire(n) => OnlyGranted(s, Target(s, w), n.mem)
            case Trap(_, _, at) => at.mem == s.mem
            case Abort(last) => OnlyGranted(s, Target(s, w), last.mem)
            case Hang => true
  {
    hide DecodeType, OnlyGranted, Frame, ExecLoad, ExecStore, ExecBranch, ExecJump, ExecAmo, ExecOpImm, ExecOp;
    hide ExecSystem, ExecUpper;
    SameMemory(s, Target(s, w));
    if IsType(w, STORE) {
      StoreIsolated(s, w);
    } else if IsType(w, AMO) {
      AmoIsolated(s, w);
    } else {
      ExecFrame(s, w, ch);
      OthersIsolated(s, w, Exec(s, w, ch));
      if Exec(s, w, ch).Abort? {
        AbortsIsolated(s, w, ch);
      }
    }
  }

  lemma SameMemory(s: State, va: u32)
    ensures OnlyGranted(s, va, s.mem)
  {
  }

  /** The same for a whole step of a user program that is not interrupted before its fetch. */
  lemma StepIsolated(s: State, input: Input, p: period)
    requires !s.super && Bit(s.csr.satp, 31) == 1 && FrontTraps(s) == 0 && FrontOf(s).Fetched?
    ensures match Step(s, input, p)
            case Next(t) => OnlyGranted(s, Target(s, FrontOf(s).instr), t.mem)
            case Stop(last) => OnlyGranted(s, Target(s, FrontOf(s).instr), last.mem)
            case Never => true
  {
    hide FrontOf, Exec, FrontTraps, OnlyGranted, Bit, EnterStatus, SetCause, UpdateTimer, CountInstruction;
    FrontFrame(s);
    SameMemory(s, Target(s, FrontOf(s).instr));
    ExecIsolated(s, FrontOf(s).instr, input.ch);
    UpdateKeepsMemory(s, input, p);
  }

  lemma UpdateKeepsMemory(s: State, input: Input, p: period)
    ensures forall t: State :: UpdateTimer(t, input.now, p).mem == t.mem
  {
    hide SetField, Ticks, Elapsed, Time;
  }
}
