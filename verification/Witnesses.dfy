/**
 * Concrete states in which the departures show, and a run with a trap that is served and closed.
 */
module Witnesses {
  import opened Bits
  import opened Words
  import opened Wrappers
  import opened FlatMemory
  import Sv32
  import opened PageWalk
  import opened WalkLimits
  import Sv32Refinement
  import Datapath
  import opened Csrs
  import opened Instructions
  import opened Decoder
  import opened Encoding
  import opened HartState
  import opened Execute
  import opened Steps
  import opened Privilege
  import opened Departures
  import opened Idling
  import opened TrapNesting
  import opened Counters
  import opened Effects

  /** An instruction as a word. */
  function Word(op: Opcode, x: Operands): u32
    requires InRange(Listing(op).format, x)
  {
    DecodeEncode(op, x);
    Encode(op, x)
  }

  function ZeroCsrs(): Csrs {
    Csrs(0, 0, 0, 0, 0, 0, 0, 0, 0, 0, 0, 0, 0, 0, 0, 0)
  }

  /** Registers and pc zero. */
  ghost function Blank(super: bool, csr: Csrs, m: Bytes): State {
    State(Zeros(), csr, 0, super, false, 0, 0, m, [])
  }

  // --- Read-only CSRs ---

  const CYCLE: nat := 0xC00

  /** csrrsi x5, cycle, 1 and csrrs x5, cycle, x1 */
  function SetCycleImmediate(): u32 {
    hide Word, Encode;
    Word(CSRRSI, Operands(5, 1, 0, CYCLE, 0))
  }

  function SetCycle(): u32 {
    hide Word, Encode;
    Word(CSRRS, Operands(5, 1, 0, CYCLE, 0))
  }

  lemma SetCycleWords()
    ensures var w := SetCycleImmediate();
      IsSystem(w, CSRRSI) && Rs1(w) == 1 && Imm12(w) == CYCLE
    ensures var w := SetCycle();
      IsSystem(w, CSRRS) && Rs1(w) == 1 && Imm12(w) == CYCLE
  {
    hide Encode, DecodeType, DecodeOpcode, Rs1, Rd, Imm12;
    DecodeEncode(CSRRSI, Operands(5, 1, 0, CYCLE, 0));
    DecodeEncode(CSRRS, Operands(5, 1, 0, CYCLE, 0));
  }

  ghost predicate IsSystem(w: u32, op: Opcode) {
    DecodeType(w) == Some(SYSTEM) && DecodeOpcode(w) == Some(op)
  }

  /** A user who may read cycle. */
  ghost function Reader(): State {
    Blank(false, ZeroCsrs().(scounteren := 1), Fences())
  }

  lemma ReaderIs()
    ensures var s := Reader(); !s.super && s.gpr[1] == 0 && ReadCsr(s.csr, CYCLE) == 0 && Bit(s.csr.scounteren, 0) == 1
  {
    hide Fences, Read;
    Datapath.BitOf(1, 0);
  }

  lemma CycleOpen(csr: Csrs)
    requires Bit(csr.scounteren, 0) == 1
    ensures !CounterClosed(csr, CYCLE)
  {
    hide Bit;
  }

  lemma SystemRuns(s: State, w: u32, ch: u32, op: Opcode)
    requires IsSystem(w, op) && op in {CSRRW, CSRRS, CSRRC, CSRRWI, CSRRSI, CSRRCI}
    ensures Exec(s, w, ch) == ExecCsr(s, w, op)
  {
    hide DecodeType, DecodeOpcode, ExecCsr;
  }

  /** Either word retires for a reader whose x1 is zero, and the first sets bit 0. */
  lemma SetsCycle(s: State, w: u32, ch: u32, op: Opcode)
    requires op in {CSRRS, CSRRSI} && IsSystem(w, op) && Rs1(w) == 1 && Imm12(w) == CYCLE
    requires s.gpr[1] == 0 && ReadCsr(s.csr, CYCLE) == 0 && Bit(s.csr.scounteren, 0) == 1
    ensures Exec(s, w, ch).Retire?
    ensures op == CSRRSI ==> ReadCsr(Exec(s, w, ch).next.csr, CYCLE) == 1
  {
    hide DecodeType, DecodeOpcode, Exec, Rs1, Imm12, CounterClosed, Bit, Or32, And32, Not32, ReadCsr, ExecCsr;
    SystemRuns(s, w, ch, op);
    CycleOpen(s.csr);
    ReadOnlyKept(s, w, op);
    assert Or32(0, 1) == 1 by {
      OrOne();
    }
  }

  lemma OrOne()
    ensures Or32(0, 1) == 1
  {
  }

  /** In user mode csrrsi x5, cycle, 1 retires and sets bit 0 of cycle, where section 9.1 traps. */
  lemma UserChangesCycle(ch: u32)
    ensures !Reader().super && StandardRefuses(CSRRSI, Rs1(SetCycleImmediate()))
    ensures ReadCsr(Reader().csr, CYCLE) == 0
    ensures var e := Exec(Reader(), SetCycleImmediate(), ch); e.Retire? && ReadCsr(e.next.csr, CYCLE) == 1
  {
    hide SetCycleImmediate, SetCycle, Reader, DecodeType, DecodeOpcode, Rs1, Imm12, Bit, Exec, ReadCsr;
    SetCycleWords();
    ReaderIs();
    SetsCycle(Reader(), SetCycleImmediate(), ch, CSRRSI);
  }

  /** csrrs x5, cycle, x1 with x1 zero retires too. */
  lemma ZeroRegisterRetires(ch: u32)
    ensures StandardRefuses(CSRRS, Rs1(SetCycle())) && Exec(Reader(), SetCycle(), ch).Retire?
  {
    hide SetCycleImmediate, SetCycle, Reader, DecodeType, DecodeOpcode, Rs1, Imm12, Bit, Exec, ReadCsr;
    SetCycleWords();
    ReaderIs();
    SetsCycle(Reader(), SetCycle(), ch, CSRRS);
  }

  // --- Supervisor instructions in user mode ---

  /** The user's SRET retires, where section 3.3.2 traps. */
  lemma UserReturns(ch: u32)
    ensures !Reader().super && Exec(Reader(), Return(), ch) == Retire(Sret(Reader()))
    ensures Exec(Reader(), Return(), ch) != StandardPrivileged(Reader(), Return(), SRET)
  {
    hide Exec, Sret, Reader, Return, ReadCsr, Bit;
    ReaderIs();
    ReturnExec(Reader(), ch);
  }

  lemma ReturnExec(s: State, ch: u32)
    ensures Exec(s, Return(), ch) == Retire(Sret(s))
  {
    hide Sret, Return, Exec, DecodeOpcode, DecodeType;
    CallWords();
    ExecSret(s, Return(), ch);
  }

  // --- AMOSWAP ---

  /** amoswap.w x5, x6, (x0) */
  function Swap(): u32 {
    hide Word, Encode;
    Word(AMOSWAP_W, Operands(5, 0, 6, 0, 0))
  }

  ghost predicate IsSwap(w: u32) {
    DecodeType(w) == Some(AMO) && DecodeOpcode(w) == Some(AMOSWAP_W) && Rd(w) == 5 && Rs1(w) == 0 && Rs2(w) == 6
  }

  lemma SwapWord()
    ensures IsSwap(Swap())
  {
    hide Encode, DecodeType, DecodeOpcode, Rs1, Rs2, Rd;
    DecodeEncode(AMOSWAP_W, Operands(5, 0, 6, 0, 0));
  }

  /** Registers zero, and the word 1 at address 0. */
  ghost function Swapper(): State {
    Blank(true, ZeroCsrs(), Holding(map[0 := 1]))
  }

  ghost predicate CanSwap(s: State) {
    && s.gpr[0] == 0 && s.gpr[6] == 0 && Bit(s.csr.satp, 31) == 0
    && ReadWord(s.mem, 0) == Some(1) && WriteWord(s.mem, 0, 0).Stored?
  }

  lemma SwapperIs()
    ensures CanSwap(Swapper())
  {
    hide Holding, ReadWord, WriteWord, CanSwap, Blank;
    var entries: map<u32, u32> := map[0 := 1];
    HoldingRead(entries, 0);
    StoredWhenRead(Holding(entries), 0, 0);
    BlankSwaps(ZeroCsrs(), Holding(entries));
  }

  lemma BlankSwaps(csr: Csrs, m: Bytes)
    requires csr.satp == 0 && ReadWord(m, 0) == Some(1) && WriteWord(m, 0, 0).Stored?
    ensures CanSwap(Blank(true, csr, m))
  {
    ZeroBits();
    hide ReadWord, WriteWord, Bit;
  }

  lemma ReadMapped(m: Bytes, a: u32)
    requires ReadWord(m, a).Some?
    ensures Mapped(m, a, 4)
  {
    Spans(a);
  }

  lemma StoredWhenRead(m: Bytes, a: u32, v: u32)
    requires ReadWord(m, a).Some?
    ensures WriteWord(m, a, v).Stored?
  {
    hide WriteWord, ReadWord, Mapped;
    ReadMapped(m, a);
    WordRoundTrip(m, a, v);
  }

  lemma SwapExec(s: State, w: u32, ch: u32)
    requires IsSwap(w) && CanSwap(s)
    ensures Exec(s, w, ch) == ReadModifyWrite(s, w, AMOSWAP_W, 0, 1)
  {
    hide DecodeType, DecodeOpcode, Rd, Rs1, Rs2, ReadWord, WriteWord, TranslateIn, ReadModifyWrite, Bit, Atomic;
    PagingOff(s, 0, Sv32.WRITE);
    SwapAtomic(s, w);
  }

  lemma SwapAtomic(s: State, w: u32)
    ensures Atomic(s, w, AMOSWAP_W, 0, 1) == ReadModifyWrite(s, w, AMOSWAP_W, 0, 1)
  {
    hide ReadModifyWrite, StoreConditional, Rd;
  }

  /** The swap puts the old word in rd and in rs2, where section 8.4 leaves rs2 alone. */
  lemma SwapOverwrites(s: State, w: u32, ch: u32)
    requires IsSwap(w) && CanSwap(s)
    ensures var e := Exec(s, w, ch);
      && e.Retire? && e.next.gpr[5] == 1 && e.next.gpr[6] == 1
      && e.next != StandardAmo(s, w, e.next.mem, 1)
  {
    hide Exec, DecodeType, DecodeOpcode, ReadWord, WriteWord, Bit, Rd, Rs1, Rs2, Rmw, StandardAmo;
    SwapExec(s, w, ch);
    assert Rmw(AMOSWAP_W, 1, 0) == 0 by {
      SwapStores();
    }
    AmoStandard(s, w, AMOSWAP_W, 0, 1);
  }

  lemma SwapStores()
    ensures Rmw(AMOSWAP_W, 1, 0) == 0
  {
  }

  lemma SwapExists()
    ensures IsSwap(Swap()) && CanSwap(Swapper())
  {
    hide Swap, Swapper, IsSwap, CanSwap;
    SwapWord();
    SwapperIs();
  }

  // --- The order of interrupts ---

  /** Software and external interrupts pending and enabled: software is served, the standard serves external. */
  lemma SoftwareFirst()
    ensures var csr := ZeroCsrs().(sip := 0x202, sie := 0x202);
      PendingCode(csr) == Some(1) && StandardCode(csr) == Some(9)
  {
    hide Bit;
    BothPending();
  }

  lemma BothPending()
    ensures Bit(0x202, 1) == 1 && Bit(0x202, 9) == 1
  {
    hide Read;
    assert Pow2(1) == 2 && Pow2(9) == 0x200;
    hide Pow2;
    ReadIsDivMod(0x202, 1, 1);
    ReadIsDivMod(0x202, 9, 1);
  }

  // --- Misaligned accesses ---

  /** The page of va 0x1000 in frame 3. */
  ghost function PageThree(): Bytes {
    Holding(map[0x1000 := 0x801, 0x2004 := 0xCCF])
  }

  lemma PageThreeTable()
    ensures Iterate(PageThree(), 0x1002, 0x1000, 1) == Continue(0x2000)
    ensures Iterate(PageThree(), 0x1002, 0x2000, 0) == Break(End.Leaf(0xCCF, 0))
  {
    hide Read, Holding, ReadWord, TableOf, Bit;
    var entries: map<u32, u32> := map[0x1000 := 0x801, 0x2004 := 0xCCF];
    MisalignedIndex();
    PointerBits();
    LeafBits();
    LiteralTables();
    HoldingRead(entries, 0x1000);
    HoldingRead(entries, 0x2004);
  }

  lemma MisalignedIndex()
    ensures Read(0x1002, 22, 10) == 0 && Read(0x1002, 12, 10) == 1
  {
    hide Read;
    Sv32Refinement.VirtualFields(0x1002);
  }

  /** A supervisor with x1 = 0x1002 and that page. */
  ghost function Misaligner(): State {
    Blank(true, ZeroCsrs().(satp := 0x8000_0001), PageThree()).(gpr := Zeros()[1 := 0x1002])
  }

  /** A supervisor whose page tables put va 0x1002 at 0x3002. */
  ghost predicate MapsToThree(s: State) {
    && s.super && Bit(s.csr.satp, 31) == 1 && Root(s.csr.satp) == 0x1000
    && Iterate(s.mem, 0x1002, 0x1000, 1) == Continue(0x2000)
    && Iterate(s.mem, 0x1002, 0x2000, 0) == Break(End.Leaf(0xCCF, 0))
  }

  lemma MisalignerIs()
    ensures MapsToThree(Misaligner()) && Misaligner().gpr[1] == 0x1002
  {
    hide Read, Bit, Iterate, PageThree, Root;
    SatpLiteral();
    PageThreeTable();
  }

  lemma ThreeTranslates(s: State, access: Sv32.Access)
    requires MapsToThree(s) && access != Sv32.EXECUTE
    ensures TranslateIn(s, 0x1002, access) == Phys(0x3002)
  {
    hide Read, Bit, Iterate, Root, Conclude;
    assert Decrement(1) == 0;
    EndStep(s.mem, 0x1002, 0x1000, 1);
    EndStep(s.mem, 0x1002, 0x2000, 0);
    MisalignedLeaf(access, Bit(s.csr.sstatus, 18), Bit(s.csr.sstatus, 19));
  }

  lemma MisalignedLeaf(access: Sv32.Access, sum: nat, mxr: nat)
    requires access != Sv32.EXECUTE
    ensures Conclude(End.Leaf(0xCCF, 0), 0x1002, access, true, sum, mxr) == Phys(0x3002)
  {
    hide Read, Bit, Compose;
    LeafBits();
    LiteralTables();
    Sv32Refinement.ComposeIs(0xCCF, 0, 0x1002);
  }

  /** lw x5, 0(x1) and sw x5, 0(x1) */
  function LoadInstr(): u32 {
    hide Word, Encode;
    Word(LW, Operands(5, 1, 0, 0, 0))
  }

  function StoreInstr(): u32 {
    hide Word, Encode;
    Word(SW, Operands(0, 1, 5, 0, 0))
  }

  ghost predicate IsLoad(w: u32) {
    DecodeType(w) == Some(LOAD) && DecodeOpcode(w) == Some(LW) && Rs1(w) == 1 && ImmI(w) == 0
  }

  ghost predicate IsStore(w: u32) {
    DecodeType(w) == Some(STORE) && DecodeOpcode(w) == Some(SW) && Rs1(w) == 1 && ImmS(w) == 0
  }

  lemma AccessWords()
    ensures IsLoad(LoadInstr()) && IsStore(StoreInstr())
  {
    hide Encode, DecodeType, DecodeOpcode, Rs1, Rs2, Rd, ImmI, ImmS;
    DecodeEncode(LW, Operands(5, 1, 0, 0, 0));
    DecodeEncode(SW, Operands(0, 1, 5, 0, 0));
  }

  lemma LoadTraps(s: State, w: u32, ch: u32)
    requires IsLoad(w) && s.gpr[1] == 0x1002 && TranslateIn(s, 0x1002, Sv32.READ) == Phys(0x3002)
    ensures Exec(s, w, ch) == Effect.Trap(4, 0x3002, s)
  {
    hide DecodeType, DecodeOpcode, Rs1, Rd, ImmI, TranslateIn, LoadValue;
  }

  lemma StoreTraps(s: State, w: u32, ch: u32)
    requires IsStore(w) && s.gpr[1] == 0x1002 && TranslateIn(s, 0x1002, Sv32.WRITE) == Phys(0x3002)
    ensures Exec(s, w, ch) == Effect.Trap(6, 0x3002, s)
  {
    hide DecodeType, DecodeOpcode, Rs1, Rs2, ImmS, TranslateIn, StoreValue;
  }

  /** A load and a store at virtual 0x1002 report 0x3002. */
  lemma ReportsPhysical(ch: u32)
    ensures Exec(Misaligner(), LoadInstr(), ch) == Effect.Trap(4, 0x3002, Misaligner())
    ensures Exec(Misaligner(), StoreInstr(), ch) == Effect.Trap(6, 0x3002, Misaligner())
  {
    hide Exec, LoadInstr, StoreInstr, Misaligner, IsLoad, IsStore, TranslateIn, MapsToThree;
    AccessWords();
    MisalignerIs();
    ThreeTranslates(Misaligner(), Sv32.READ);
    ThreeTranslates(Misaligner(), Sv32.WRITE);
    LoadTraps(Misaligner(), LoadInstr(), ch);
    StoreTraps(Misaligner(), StoreInstr(), ch);
  }

  /** MRET has no case of its own and is decoded as CSRRW. */
  lemma MretFallsThrough()
    ensures DecodeOpcode(0x3020_0073) == Some(CSRRW)
  {
    MretFields();
    hide Read, DecodeOpcode, ImmI, Funct7, Major, Funct3;
    SystemFallthrough(0x3020_0073);
  }

  lemma MretFields()
    ensures Major(0x3020_0073) == 0x73 && Funct3(0x3020_0073) == 0 && Funct7(0x3020_0073) == 0x18
    ensures ImmI(0x3020_0073) == 0x302
  {
    hide Read, SignExtend;
    assert Pow2(0) == 1;
    Pow2Small();
    Pow2Medium();
    Pow2Large();
    assert Pow2(25) == 0x200_0000 by {
      Pow2Add(5, 20);
    }
    hide Pow2;
    ReadIsDivMod(0x3020_0073, 0, 7);
    ReadIsDivMod(0x3020_0073, 12, 3);
    ReadIsDivMod(0x3020_0073, 25, 7);
    ReadIsDivMod(0x3020_0073, 20, 12);
    HighParts(0x3020_0073);
  }

  // --- A trap, served and closed ---

  function Call(): u32 {
    hide Word, Encode;
    Word(ECALL, Operands(0, 0, 0, 0, 0))
  }

  function Return(): u32 {
    hide Word, Encode;
    Word(SRET, Operands(0, 0, 0, 0, 0))
  }

  lemma CallWords()
    ensures IsSystem(Call(), ECALL) && IsSystem(Return(), SRET)
    ensures IsOp(Return(), SRET)
  {
    hide Encode, DecodeType, DecodeOpcode, Word, Listing;
    FixedWord(ECALL);
    FixedWord(SRET);
  }

  lemma FixedWord(op: Opcode)
    requires op in {ECALL, SRET}
    ensures IsSystem(Word(op, Operands(0, 0, 0, 0, 0)), op)
  {
    hide Encode, DecodeType, DecodeOpcode;
    DecodeEncode(op, Operands(0, 0, 0, 0, 0));
  }

  /** ECALL at 0, SRET at 4. */
  ghost function CallMemory(): Bytes {
    Holding(map[0 := Call(), 4 := Return()])
  }

  lemma CallMemoryReads()
    ensures ReadWord(CallMemory(), 0) == Some(Call()) && ReadWord(CallMemory(), 4) == Some(Return())
  {
    hide Call, Return, Holding, ReadWord;
    var entries: map<u32, u32> := map[0 := Call(), 4 := Return()];
    HoldingRead(entries, 0);
    HoldingRead(entries, 4);
  }

  /** A user program at 0 with its trap handler at 4. */
  ghost function Caller(): State {
    Blank(false, ZeroCsrs().(stvec := 4), CallMemory())
  }

  lemma CallStep(s: State, input: Input, p: period)
    requires Calm(s) && !s.super && ReadWord(s.mem, s.pc) == Some(Call())
    ensures Step(s, input, p) == Next(IncrementCounters(EnterException(s, 8, 0), input.now, p))
    ensures FrontEvents(s) == []
    ensures LastEvent(s, input, p).Entered?
  {
    hide Call, Return, ReadWord, Calm, DecodeType, DecodeOpcode, IncrementCounters, EnterException, FrontOf;
    hide FrontTraps, Sret;
    CallWords();
    CalmFront(s, Call());
    CallExec(s, Call(), input.ch);
    hide Exec;
    NoFrontEvents(s);
    hide FrontEvents;
  }

  lemma CallExec(s: State, w: u32, ch: u32)
    requires IsSystem(w, ECALL) && !s.super
    ensures Exec(s, w, ch) == Effect.Trap(8, 0, s)
  {
    hide DecodeType, DecodeOpcode, Sbi, Sret;
  }

  lemma NoFrontEvents(s: State)
    requires FrontTraps(s) == 0
    ensures FrontEvents(s) == []
  {
    hide EnterException, EnterInterrupt, TranslateIn, TakesInterrupt;
  }

  lemma ReturnStep(s: State, input: Input, p: period)
    requires Calm(s) && ReadWord(s.mem, s.pc) == Some(Return())
    ensures Step(s, input, p) == Next(IncrementCounters(Sret(s), input.now, p))
    ensures FrontEvents(s) == []
    ensures var e := LastEvent(s, input, p); e.Retired? && e.word == Return() && e.from == View(s)
  {
    hide Call, Return, ReadWord, Calm, DecodeType, DecodeOpcode, IncrementCounters, FrontOf, FrontTraps, Sret;
    CallWords();
    CalmFront(s, Return());
    ExecSret(s, Return(), input.ch);
    hide Exec;
    NoFrontEvents(s);
    hide FrontEvents;
  }

  lemma VectorFour()
    ensures VectorBase(4) == 4
  {
    assert Pow2(30) > 1 by {
      Pow2Add(1, 29);
      assert Pow2(1) == 2;
    }
    ReadLow(1, 30);
    assert Read(4, 2, 30) == Read(1, 0, 30) by {
      hide Pow2;
    }
  }

  lemma CallerIs()
    ensures Calm(Caller()) && !Caller().super && Caller().csr.stvec == 4 && Caller().mem == CallMemory()
    ensures ReadWord(Caller().mem, Caller().pc) == Some(Call())
  {
    hide Call, CallMemory, ReadWord, Bit;
    CallMemoryReads();
    CalmZero(false, ZeroCsrs().(stvec := 4), CallMemory());
  }

  lemma CalmZero(super: bool, csr: Csrs, m: Bytes)
    requires csr.satp == 0 && csr.sie == 0
    ensures Calm(Blank(super, csr, m))
  {
    ZeroBits();
    hide Bit;
  }

  /** The handler's first state. */
  lemma Handled(s: State, now: int, p: period)
    requires Calm(s) && s.csr.stvec == 4 && s.mem == CallMemory()
    ensures var t := IncrementCounters(EnterException(s, 8, 0), now, p);
      Calm(t) && ReadWord(t.mem, t.pc) == Some(Return())
  {
    CallMemoryReads();
    VectorFour();
    hide Call, Return, CallMemory, ReadWord, Bit, EnterStatus, SetCause, VectorBase;
    var e := EnterException(s, 8, 0);
    CountersKeep(e, now, p);
    CountersKeepControl(e, now, p);
    hide IncrementCounters;
  }

  /** A run of two steps that takes a trap and closes it, for every pair of inputs. */
  lemma ServedRun(first: Input, second: Input, p: period)
    ensures Run(Caller(), [first, second], p).Next?
    ensures Bracketed(Events(Caller(), [first, second], p), Nested(Empty, Empty))
  {
    hide Caller, Call, Return, ReadWord, Calm, IncrementCounters, EnterException, Sret, Step, FrontEvents;
    hide LastEvent, View;
    hide CallMemory, Run, Events, IsSystem, Bracketed;
    CallerIs();
    CallWords();
    Handled(Caller(), first.now, p);
    CallStep(Caller(), first, p);
    var t := Step(Caller(), first, p).next;
    ReturnStep(t, second, p);
    TwoSteps(Caller(), first, second, p);
    ServedEvents(Caller(), first, second, p);
  }

  /** A run of two steps, and its events when neither has a trap in its front. */
  lemma TwoSteps(s: State, first: Input, second: Input, p: period)
    requires Step(s, first, p).Next? && FrontEvents(s) == []
    requires var t := Step(s, first, p).next; Step(t, second, p).Next? && FrontEvents(t) == []
    ensures Run(s, [first, second], p) == Step(Step(s, first, p).next, second, p)
    ensures Events(s, [first, second], p) == [LastEvent(s, first, p), LastEvent(Step(s, first, p).next, second, p)]
  {
    hide Step, FrontEvents, LastEvent;
    var t := Step(s, first, p).next;
    var u := Step(t, second, p).next;
    assert [first, second][1..] == [second] && [second][1..] == [];
    assert Run(u, [], p) == Next(u) && Events(u, [], p) == [];
    assert Run(t, [second], p) == Next(u);
    assert Events(t, [second], p) == [LastEvent(t, second, p)];
  }

  lemma ServedEvents(s: State, first: Input, second: Input, p: period)
    requires Run(s, [first, second], p).Next?
    requires var events := Events(s, [first, second], p);
      && |events| == 2 && events[0].Entered? && events[1].Retired? && IsOp(events[1].word, SRET)
    ensures Bracketed(Events(s, [first, second], p), Nested(Empty, Empty))
  {
    hide Events, Run, View, Bracketed, Linked, IsOp;
    RunLinked(s, [first, second], p);
    QuietHandler(View(s), Events(s, [first, second], p), View(Run(s, [first, second], p).next));
  }

  lemma QuietHandler(c: Control, events: seq<Event>, d: Control)
    requires Linked(c, events, d) && |events| == 2 && events[0].Entered? && events[1].Retired?
        && IsOp(events[1].word, SRET)
    ensures Bracketed(events, Nested(Empty, Empty))
  {
    hide IsOp, Faithful;
    assert events[1..1] == [] && events[2..] == [];
  }

  // --- A trapped instruction in instret ---

  /** The same run counts two instructions, and one retires. */
  lemma ServedCounts(first: Input, second: Input, p: period)
    ensures Run(Caller(), [first, second], p).Next?
    ensures InstructionTraps(Caller(), [first, second], p) == 1 && Retirements(Caller(), [first, second], p) == 1
  {
    hide Caller, Call, Return, ReadWord, Calm, IncrementCounters, EnterException, Sret, Step, FrontEvents, LastEvent;
    hide CallMemory, Run, IsSystem, TrapsFirst, Events, Retirements, InstructionTraps;
    CallerIs();
    Handled(Caller(), first.now, p);
    CallStep(Caller(), first, p);
    var t := Step(Caller(), first, p).next;
    ReturnStep(t, second, p);
    TwoSteps(Caller(), first, second, p);
    EventTraps(Caller(), first, p);
    EventTraps(t, second, p);
    TwoTraps(Caller(), first, second, p);
    EveryStep(Caller(), [first, second], p);
  }

  lemma EventTraps(s: State, input: Input, p: period)
    requires Step(s, input, p).Next?
    ensures LastEvent(s, input, p).Entered? <==> TrapsFirst(s, input)
  {
    hide FrontOf, Exec, IncrementCounters, EnterException;
  }

  lemma TwoTraps(s: State, first: Input, second: Input, p: period)
    requires Run(s, [first, second], p).Next? && Step(s, first, p).Next?
        && Step(Step(s, first, p).next, second, p).Next?
    ensures InstructionTraps(s, [first, second], p)
         == (if TrapsFirst(s, first) then 1 else 0) + (if TrapsFirst(Step(s, first, p).next, second) then 1 else 0)
  {
    hide Step, TrapsFirst;
    var t := Step(s, first, p).next;
    var u := Step(t, second, p).next;
    assert [first, second][1..] == [second] && [second][1..] == [];
    assert Run(u, [], p) == Next(u) && InstructionTraps(u, [], p) == 0;
    assert Run(t, [second], p) == Next(u);
    assert InstructionTraps(t, [second], p) == if TrapsFirst(t, second) then 1 else 0;
  }
}
