/**
 * What loads and stores do (RISC-V Unprivileged ISA 20191213, section 2.6), byte by byte, proved of the instructions as
 * they execute.
 */
module MemoryInstructions {
  import opened Bits
  import opened Words
  import opened Wrappers
  import opened FlatMemory
  import Sv32
  import opened PageWalk
  import opened Instructions
  import opened Decoder
  import Encoding
  import Datapath
  import opened HartState
  import opened Execute
  import opened Effects
  import opened Sv32Refinement
  import TranslationLaws
  import opened IsolationRuns
  import opened RegisterInstructions

  predicate IsLoad(op: Opcode) {
    op in {LB, LBU, LH, LHU, LW}
  }

  predicate IsStore(op: Opcode) {
    op in {SB, SH, SW}
  }

  /** The number of bytes accessed. */
  function Size(op: Opcode): (n: nat)
    ensures n in {1, 2, 4}
  {
    if op in {LB, LBU, SB} then 1 else if op in {LH, LHU, SH} then 2 else 4
  }

  /** A byte of memory; 0 where there is none. */
  ghost function ByteAt(m: Bytes, a: int): nat {
    if 0 <= a < 0x1_0000_0000 && a in m then m[a] else 0
  }

  /** The `n` bytes from `a` on as a number, the lowest first. */
  ghost function Number(m: Bytes, a: int, n: nat): nat
    decreases n
  {
    if n == 0 then 0 else ByteAt(m, a) + 0x100 * Number(m, a + 1, n - 1)
  }

  /** The bytes from `a` on are all there. */
  ghost predicate Backed(m: Bytes, a: u32, n: nat) {
    forall b: u32 | a <= b < a + n :: b in m
  }

  lemma MemoryClass(w: u32, op: Opcode)
    requires IsOp(w, op)
    ensures IsLoad(op) ==> IsType(w, LOAD)
    ensures IsStore(op) ==> IsType(w, STORE)
  {
    hide DecodeType, DecodeOpcode;
    Encoding.DecodedClass(w);
  }

  // --- Aligned accesses, in bytes ---

  lemma Numbers(m: Bytes, a: int)
    ensures Number(m, a, 1) == ByteAt(m, a)
    ensures Number(m, a, 2) == ByteAt(m, a) + 0x100 * ByteAt(m, a + 1)
    ensures Number(m, a, 4)
         == ByteAt(m, a) + 0x100 * (ByteAt(m, a + 1) + 0x100 * (ByteAt(m, a + 2) + 0x100 * ByteAt(m, a + 3)))
  {
    hide ByteAt;
    assert Number(m, a + 1, 1) == ByteAt(m, a + 1);
    assert Number(m, a + 3, 1) == ByteAt(m, a + 3);
    assert Number(m, a + 2, 2) == ByteAt(m, a + 2) + 0x100 * ByteAt(m, a + 3);
    assert Number(m, a + 1, 3) == ByteAt(m, a + 1) + 0x100 * Number(m, a + 2, 2);
  }

  lemma ReadsByte(m: Bytes, a: u32)
    ensures ReadByte(m, a).Some? <==> Backed(m, a, 1)
    ensures Backed(m, a, 1) ==> ReadByte(m, a) == Some(Number(m, a, 1))
  {
    Numbers(m, a);
    hide Number;
  }

  lemma NextByte(a: u32)
    requires a % 2 == 0
    ensures a + 1 < 0x1_0000_0000 && Add(a, 1) == a + 1
  {
  }

  lemma ReadsHalfword(m: Bytes, a: u32)
    requires a % 2 == 0
    ensures ReadHalfword(m, a).Some? <==> Backed(m, a, 2)
    ensures Backed(m, a, 2) ==> ReadHalfword(m, a) == Some(Number(m, a, 2))
  {
    NextByte(a);
    Numbers(m, a);
    hide Number;
    BackedTwo(m, a);
    hide Backed;
  }

  lemma BackedTwo(m: Bytes, a: u32)
    requires a + 1 < 0x1_0000_0000
    ensures Backed(m, a, 2) <==> a in m && a + 1 in m
  {
  }

  lemma BackedFour(m: Bytes, a: u32)
    requires a + 3 < 0x1_0000_0000
    ensures Backed(m, a, 4) <==> a in m && a + 1 in m && a + 2 in m && a + 3 in m
  {
  }

  lemma ReadsWord(m: Bytes, a: u32)
    requires a % 4 == 0
    ensures ReadWord(m, a).Some? <==> Backed(m, a, 4)
    ensures Backed(m, a, 4) ==> ReadWord(m, a) == Some(Number(m, a, 4))
  {
    Offsets(a);
    Numbers(m, a);
    hide Number;
    BackedFour(m, a);
    hide Backed, Add;
  }

  // --- Loads ---

  /** What a load makes of the number in memory: its low bits, extended with zeros or with the sign. */
  ghost predicate Extends(op: Opcode, n: nat, v: u32) {
    if op == LB then SignedValue(v, n, 0x80)
    else if op == LH then SignedValue(v, n, 0x8000)
    else v == n
  }

  /** `n` below twice `half`, read as two's complement. */
  ghost predicate SignedValue(v: u32, n: nat, half: nat) {
    Signed(v) == if n < half then n else n - 2 * half
  }

  lemma ExtendByte(n: u8)
    ensures SignedValue(SignExtend(n, 8), n, 0x80)
  {
    Datapath.NarrowPowers();
    hide Pow2;
  }

  lemma ExtendHalfword(n: u16)
    ensures SignedValue(SignExtend(n, 16), n, 0x8000)
  {
    Datapath.NarrowPowers();
    hide Pow2;
  }

  lemma LoadByteValue(op: Opcode, m: Bytes, a: u32)
    requires op in {LB, LBU}
    ensures LoadValue(op, m, a).Some? <==> Backed(m, a, 1)
    ensures Backed(m, a, 1) ==> Extends(op, Number(m, a, 1), LoadValue(op, m, a).value)
  {
    ReadsByte(m, a);
    if a in m {
      ExtendByte(m[a]);
    }
    hide SignExtend, Number, Backed, SignedValue;
  }

  lemma LoadHalfwordValue(op: Opcode, m: Bytes, a: u32)
    requires op in {LH, LHU} && a % 2 == 0
    ensures LoadValue(op, m, a).Some? <==> Backed(m, a, 2)
    ensures Backed(m, a, 2) ==> Extends(op, Number(m, a, 2), LoadValue(op, m, a).value)
  {
    hide SignExtend, Number, Backed, SignedValue, ReadHalfword;
    ReadsHalfword(m, a);
    if ReadHalfword(m, a).Some? {
      HalfwordValue(op, m, a, ReadHalfword(m, a).value);
    }
    hide ReadByte, ReadWord, Extends;
  }

  lemma HalfwordValue(op: Opcode, m: Bytes, a: u32, n: u16)
    requires op in {LH, LHU} && ReadHalfword(m, a) == Some(n)
    ensures LoadValue(op, m, a).Some? && Extends(op, n, LoadValue(op, m, a).value)
  {
    hide SignExtend, SignedValue, ReadHalfword;
    ExtendHalfword(n);
    WrapSmall(n);
    hide Wrap;
  }

  lemma LoadIs(op: Opcode, m: Bytes, a: u32)
    requires IsLoad(op) && a % Size(op) == 0
    ensures LoadValue(op, m, a).Some? <==> Backed(m, a, Size(op))
    ensures Backed(m, a, Size(op)) ==> Extends(op, Number(m, a, Size(op)), LoadValue(op, m, a).value)
  {
    hide Number, Backed, LoadValue, Extends;
    if op in {LB, LBU} {
      LoadByteValue(op, m, a);
    } else if op in {LH, LHU} {
      LoadHalfwordValue(op, m, a);
    } else {
      LoadWordValue(m, a);
    }
  }

  lemma LoadWordValue(m: Bytes, a: u32)
    requires a % 4 == 0
    ensures LoadValue(LW, m, a).Some? <==> Backed(m, a, 4)
    ensures Backed(m, a, 4) ==> Extends(LW, Number(m, a, 4), LoadValue(LW, m, a).value)
  {
    ReadsWord(m, a);
    hide Number, Backed, ReadWord;
  }

  lemma WidthIs(op: Opcode)
    requires IsLoad(op) || IsStore(op)
    ensures Width(op) == Size(op)
  {
  }

  /** The whole of what a load can do at a virtual address. */
  ghost predicate Loads(s: State, w: u32, op: Opcode, e: Effect) {
    var va := Wrap(s.gpr[Rs1(w)] + ImmI(w));
    match TranslateIn(s, va, Sv32.READ)
    case Endless => e == Hang
    case Thrown => e == Abort(s)
    case Fault => e == Trap(13, va, s)
    case Phys(pa) =>
      if pa % Size(op) != 0 then e == Trap(4, pa, s)
      else if !Backed(s.mem, pa, Size(op)) then e == Abort(s)
      else exists v: u32 :: Extends(op, Number(s.mem, pa, Size(op)), v) && Yields(s, w, e, v)
  }

  lemma LoadLoads(s: State, w: u32, op: Opcode)
    requires IsOp(w, op) && IsLoad(op)
    ensures Loads(s, w, op, ExecLoad(s, w))
  {
    hide DecodeOpcode, TranslateIn, LoadValue, Width, Size, Extends, Number, Backed, Yields, Rs1, Rd, ImmI, Wrap;
    WidthIs(op);
    var va := Wrap(s.gpr[Rs1(w)] + ImmI(w));
    assert Add(GetRegister(s, Rs1(w)), ImmI(w)) == va;
    if TranslateIn(s, va, Sv32.READ).Phys? && TranslateIn(s, va, Sv32.READ).pa % Size(op) == 0 {
      var pa := TranslateIn(s, va, Sv32.READ).pa;
      LoadIs(op, s.mem, pa);
      if Backed(s.mem, pa, Size(op)) {
        SetYields(s, w, LoadValue(op, s.mem, pa).value);
      }
    }
  }

  lemma LoadExec(s: State, w: u32, ch: u32)
    requires IsType(w, LOAD)
    ensures Exec(s, w, ch) == ExecLoad(s, w)
  {
    hide DecodeType, ExecLoad;
  }

  /**
   * A load puts in rd the little-endian number at the translated address, extended as its name says, and changes
   * nothing else; or it traps with the page fault or the misaligned address; or it stops on unmapped memory.
   */
  lemma LoadOp(s: State, w: u32, ch: u32, op: Opcode)
    requires IsOp(w, op) && IsLoad(op)
    ensures Loads(s, w, op, Exec(s, w, ch))
  {
    hide Exec, ExecLoad, Loads, DecodeType, DecodeOpcode;
    MemoryClass(w, op);
    LoadExec(s, w, ch);
    LoadLoads(s, w, op);
  }

  // --- Stores ---

  /** Byte `k` of a number, the lowest first. */
  function Digit(v: nat, k: nat): nat
    decreases k
  {
    if k == 0 then v % 0x100 else Digit(v / 0x100, k - 1)
  }

  /** The low `n` bytes of `v` stand at `a`, and everything else is as it was. */
  ghost predicate Placed(m: Bytes, m': Bytes, a: u32, n: nat, v: nat) {
    && m'.Keys == m.Keys
    && forall b: u32 | b in m :: m'[b] == if a <= b < a + n then Digit(v, b - a) else m[b]
  }

  /** The bytes before the first gap stand there, and everything else is as it was. */
  ghost predicate PartlyPlaced(m: Bytes, m': Bytes, a: u32, n: nat, v: nat) {
    exists k: nat :: k < n && StopsAt(m, a, k) && Placed(m, m', a, k, v)
  }

  /** The first byte from `a` on that is not there is byte `k`. */
  ghost predicate StopsAt(m: Bytes, a: u32, k: nat) {
    Backed(m, a, k) && a + k < 0x1_0000_0000 && a + k !in m
  }

  lemma Digits(v: u32)
    ensures Digit(v, 0) == v % 0x100
    ensures Digit(v, 0) == v % 0x1_0000 % 0x100 && Digit(v, 1) == v % 0x1_0000 / 0x100
    ensures Digit(v, 2) == v / 0x1_0000 % 0x100 && Digit(v, 3) == v / 0x1_0000 / 0x100
  {
    assert Digit(v, 1) == Digit(v / 0x100, 0);
    assert Digit(v, 2) == Digit(v / 0x100 / 0x100, 0);
    assert Digit(v, 3) == Digit(v / 0x100 / 0x100 / 0x100, 0);
    Quarters(v);
  }

  lemma Quarters(v: u32)
    ensures v % 0x1_0000 % 0x100 == v % 0x100 && v % 0x1_0000 / 0x100 == v / 0x100 % 0x100
    ensures v / 0x100 / 0x100 == v / 0x1_0000 && v / 0x100 / 0x100 / 0x100 < 0x100
    ensures v / 0x1_0000 / 0x100 == v / 0x100 / 0x100 / 0x100
  {
    var low, rest := v % 0x100, v / 0x100;
    var mid, high := rest % 0x100, rest / 0x100;
    Euclid(v, 0x100);
    Euclid(rest, 0x100);
    DivMod(v, high, mid * 0x100 + low, 0x1_0000);
    DivMod(mid * 0x100 + low, mid, low, 0x100);
  }

  lemma DigitsHalf(v: u16)
    ensures Digit(v, 0) == v % 0x100 && Digit(v, 1) == v / 0x100
  {
    assert Digit(v, 1) == Digit(v / 0x100, 0);
  }

  lemma NothingPlaced(m: Bytes, a: u32, n: nat, v: nat)
    requires n > 0 && a !in m
    ensures PartlyPlaced(m, m, a, n, v)
  {
    assert StopsAt(m, a, 0) && Placed(m, m, a, 0, v);
  }

  lemma BytePlaced(m: Bytes, a: u32, v: u32)
    ensures match WriteByte(m, a, v % 0x100)
            case Stored(m') => Backed(m, a, 1) && Placed(m, m', a, 1, v)
            case Stopped(m') => !Backed(m, a, 1) && PartlyPlaced(m, m', a, 1, v)
  {
    assert Digit(v, 0) == v % 0x100;
    hide Digit;
    assert Backed(m, a, 1) <==> a in m;
    if a !in m {
      NothingPlaced(m, a, 1, v);
    }
    hide Backed, PartlyPlaced;
  }

  lemma HalfwordPlaced(m: Bytes, a: u32, v: u16)
    requires a % 2 == 0
    ensures match WriteHalfword(m, a, v)
            case Stored(m') => Backed(m, a, 2) && Placed(m, m', a, 2, v)
            case Stopped(m') => !Backed(m, a, 2) && PartlyPlaced(m, m', a, 2, v)
  {
    NextByte(a);
    DigitsHalf(v);
    BackedTwo(m, a);
    if a !in m {
      NothingPlaced(m, a, 2, v);
    } else if a + 1 !in m {
      var m' := m[a := v % 0x100];
      assert StopsAt(m, a, 1) && Placed(m, m', a, 1, v);
    }
    hide Digit, Backed, Add, PartlyPlaced;
  }

  lemma HalvesPlaced(m: Bytes, m1: Bytes, m2: Bytes, a: u32, v: u32)
    requires a + 3 < 0x1_0000_0000
    requires Placed(m, m1, a, 2, v % 0x1_0000) && Placed(m1, m2, a + 2, 2, v / 0x1_0000)
    ensures Placed(m, m2, a, 4, v)
  {
    Digits(v);
    DigitsHalf(v % 0x1_0000);
    DigitsHalf(v / 0x1_0000);
    hide Digit;
  }

  /** A word whose second half is stopped: the first half, and perhaps one byte more. */
  lemma SecondHalfStops(m: Bytes, m1: Bytes, m2: Bytes, a: u32, v: u32)
    requires a + 3 < 0x1_0000_0000 && Backed(m, a, 2)
    requires Placed(m, m1, a, 2, v % 0x1_0000) && PartlyPlaced(m1, m2, a + 2, 2, v / 0x1_0000)
    ensures PartlyPlaced(m, m2, a, 4, v)
  {
    Digits(v);
    DigitsHalf(v % 0x1_0000);
    DigitsHalf(v / 0x1_0000);
    hide Digit;
    var k: nat :| k < 2 && StopsAt(m1, a + 2, k) && Placed(m1, m2, a + 2, k, v / 0x1_0000);
    MoreBacked(m, m1, a, k);
    assert Placed(m, m2, a, 2 + k, v);
  }

  lemma MoreBacked(m: Bytes, m1: Bytes, a: u32, k: nat)
    requires k < 2 && m1.Keys == m.Keys && Backed(m, a, 2) && a + 3 < 0x1_0000_0000 && StopsAt(m1, a + 2, k)
    ensures StopsAt(m, a, 2 + k)
  {
    assert a + 2 + k !in m1.Keys;
    forall b: u32 | a <= b < a + 2 + k
      ensures b in m
    {
      if b >= a + 2 {
        assert b in m1;
        assert b in m1.Keys;
      }
    }
  }

  lemma PartIsPart(m: Bytes, m': Bytes, a: u32, v: u32)
    requires PartlyPlaced(m, m', a, 2, v % 0x1_0000)
    ensures PartlyPlaced(m, m', a, 4, v)
  {
    Digits(v);
    DigitsHalf(v % 0x1_0000);
    hide Digit;
    var k: nat :| k < 2 && StopsAt(m, a, k) && Placed(m, m', a, k, v % 0x1_0000);
    assert Placed(m, m', a, k, v);
  }

  lemma WordPlaced(m: Bytes, a: u32, v: u32)
    requires a % 4 == 0
    ensures match WriteWord(m, a, v)
            case Stored(m') => Backed(m, a, 4) && Placed(m, m', a, 4, v)
            case Stopped(m') => !Backed(m, a, 4) && PartlyPlaced(m, m', a, 4, v)
  {
    Offsets(a);
    HalfwordPlaced(m, a, v % 0x1_0000);
    BackedFour(m, a);
    BackedTwo(m, a);
    hide Digit, Backed, WriteHalfword, Placed, PartlyPlaced, Add;
    match WriteHalfword(m, a, v % 0x1_0000)
    case Stopped(m1) => PartIsPart(m, m1, a, v);
    case Stored(m1) =>
      HalfwordPlaced(m1, a + 2, v / 0x1_0000);
      BackedTwo(m1, a + 2);
      PlacedKeys(m, m1, a, 2, v % 0x1_0000);
      match WriteHalfword(m1, a + 2, v / 0x1_0000)
      case Stored(m2) => HalvesPlaced(m, m1, m2, a, v);
      case Stopped(m2) => SecondHalfStops(m, m1, m2, a, v);
  }

  lemma PlacedKeys(m: Bytes, m': Bytes, a: u32, n: nat, v: nat)
    requires Placed(m, m', a, n, v)
    ensures m'.Keys == m.Keys
  {
  }

  lemma StorePlaces(op: Opcode, m: Bytes, a: u32, v: u32)
    requires IsStore(op) && a % Size(op) == 0
    ensures match StoreValue(op, m, a, v)
            case Stored(m') => Backed(m, a, Size(op)) && Placed(m, m', a, Size(op), v)
            case Stopped(m') => !Backed(m, a, Size(op)) && PartlyPlaced(m, m', a, Size(op), v)
  {
    hide Backed, Placed, PartlyPlaced, WriteByte, WriteHalfword, WriteWord;
    if op == SB {
      BytePlaced(m, a, v);
    } else if op == SH {
      HalfwordPlaced(m, a, v % 0x1_0000);
      HalfOfWord(m, StoreValue(op, m, a, v).bytes, a, v);
    } else {
      WordPlaced(m, a, v);
    }
  }

  lemma HalfOfWord(m: Bytes, m': Bytes, a: u32, v: u32)
    ensures Placed(m, m', a, 2, v % 0x1_0000) ==> Placed(m, m', a, 2, v)
    ensures PartlyPlaced(m, m', a, 2, v % 0x1_0000) ==> PartlyPlaced(m, m', a, 2, v)
  {
    Digits(v);
    DigitsHalf(v % 0x1_0000);
    hide Digit;
    if PartlyPlaced(m, m', a, 2, v % 0x1_0000) {
      var k: nat :| k < 2 && StopsAt(m, a, k) && Placed(m, m', a, k, v % 0x1_0000);
      assert Placed(m, m', a, k, v);
    }
  }

  /** The whole of what a store can do at a virtual address. */
  ghost predicate Stores(s: State, w: u32, op: Opcode, e: Effect) {
    var va := Wrap(s.gpr[Rs1(w)] + ImmS(w));
    match TranslateIn(s, va, Sv32.WRITE)
    case Endless => e == Hang
    case Thrown => e == Abort(s)
    case Fault => e == Trap(15, va, s)
    case Phys(pa) =>
      if pa % Size(op) != 0 then e == Trap(6, pa, s)
      else if !Backed(s.mem, pa, Size(op)) then
        e.Abort? && e.last == s.(mem := e.last.mem) && PartlyPlaced(s.mem, e.last.mem, pa, Size(op), s.gpr[Rs2(w)])
      else
        e.Retire? && e.next == s.(mem := e.next.mem, pc := Wrap(s.pc + 4))
        && Placed(s.mem, e.next.mem, pa, Size(op), s.gpr[Rs2(w)])
  }

  lemma StoreStores(s: State, w: u32, op: Opcode)
    requires IsOp(w, op) && IsStore(op)
    ensures Stores(s, w, op, ExecStore(s, w))
  {
    hide DecodeOpcode, TranslateIn, StoreValue, Width, Size, Placed, PartlyPlaced, Backed, Rs1, Rs2, ImmS, Wrap;
    WidthIs(op);
    var va := Wrap(s.gpr[Rs1(w)] + ImmS(w));
    assert Add(GetRegister(s, Rs1(w)), ImmS(w)) == va;
    if TranslateIn(s, va, Sv32.WRITE).Phys? && TranslateIn(s, va, Sv32.WRITE).pa % Size(op) == 0 {
      StorePlaces(op, s.mem, TranslateIn(s, va, Sv32.WRITE).pa, s.gpr[Rs2(w)]);
    }
  }

  lemma StoreExec(s: State, w: u32, ch: u32)
    requires IsType(w, STORE)
    ensures Exec(s, w, ch) == ExecStore(s, w)
  {
    hide DecodeType, ExecStore;
  }

  /**
   * A store puts the low bytes of rs2 at the translated address, the lowest first, and changes nothing else; or it
   * traps with the page fault or the misaligned address; or it stops on unmapped memory with the bytes before
   * the first gap in place.
   */
  lemma StoreOp(s: State, w: u32, ch: u32, op: Opcode)
    requires IsOp(w, op) && IsStore(op)
    ensures Stores(s, w, op, Exec(s, w, ch))
  {
    hide Exec, ExecStore, Stores, DecodeType, DecodeOpcode;
    MemoryClass(w, op);
    StoreExec(s, w, ch);
    StoreStores(s, w, op);
  }

  // --- A store followed by a load ---

  /** The low `n` bytes of a word. */
  function LowBytes(v: u32, n: nat): nat {
    if n == 1 then v % 0x100 else if n == 2 then v % 0x1_0000 else v
  }

  lemma PlacedNumber(m: Bytes, m': Bytes, a: u32, n: nat, v: u32)
    requires n in {1, 2, 4} && a % n == 0 && Backed(m, a, n) && Placed(m, m', a, n, v)
    ensures Backed(m', a, n) && Number(m', a, n) == LowBytes(v, n)
  {
    Numbers(m', a);
    Digits(v);
    hide Digit, Number;
    PlacedBytes(m, m', a, n, v);
    Rejoin(v);
  }

  lemma PlacedBytes(m: Bytes, m': Bytes, a: u32, n: nat, v: u32)
    requires n in {1, 2, 4} && a % n == 0 && Backed(m, a, n) && Placed(m, m', a, n, v)
    ensures Backed(m', a, n)
    ensures forall k: nat | k < n :: ByteAt(m', a + k) == Digit(v, k)
  {
    hide Digit;
    AlignedTop(a, n);
    forall k: nat | k < n
      ensures ByteAt(m', a + k) == Digit(v, k)
    {
      var b: u32 := a + k;
      assert b in m;
      assert b - a == k;
    }
  }

  lemma AlignedTop(a: u32, n: nat)
    requires n in {1, 2, 4} && a % n == 0
    ensures a + n <= 0x1_0000_0000
  {
  }

  lemma Rejoin(v: u32)
    ensures v % 0x1_0000 == v % 0x100 + 0x100 * (v % 0x1_0000 / 0x100)
    ensures v == v % 0x100
              + 0x100 * (v % 0x1_0000 / 0x100 + 0x100 * (v / 0x1_0000 % 0x100 + 0x100 * (v / 0x1_0000 / 0x100)))
  {
    Quarters(v);
  }

  /** No byte of the `n` at `a` is part of a PTE that the walk for `va` consults. */
  ghost predicate OutsideTables(s: State, va: u32, a: u32, n: nat) {
    Bit(s.csr.satp, 31) != 0 ==>
      forall k: nat, b: u32 | Consults(s.mem, va, Root(s.csr.satp), 1, k, b) :: !(a <= b < a + n)
  }

  /** What is written outside the page tables leaves the translation as it was. */
  lemma PlacedTranslation(s: State, t: State, va: u32, access: Sv32.Access, a: u32, n: nat, v: u32)
    requires t == s.(mem := t.mem, pc := t.pc) && Placed(s.mem, t.mem, a, n, v) && OutsideTables(s, va, a, n)
    ensures TranslateIn(t, va, access) == TranslateIn(s, va, access)
  {
    hide Consults, Walk, Ends, EndOf, Conclude, Bit, Root;
    if Bit(s.csr.satp, 31) != 0 {
      var base := Root(s.csr.satp);
      forall k: nat
        ensures Walk(t.mem, va, base, 1, k) == Walk(s.mem, va, base, 1, k)
      {
        forall b: u32 | Consults(s.mem, va, base, 1, k, b)
          ensures SameByte(s.mem, t.mem, b)
        {
        }
        WalkDepends(s.mem, t.mem, va, base, 1, k);
      }
      SameEnds(s.mem, t.mem, va, base, 1);
    }
  }

  /**
   * A store that retires, followed by a load of the same width at the same virtual address: rd of the load holds the
   * part of rs2 that was stored, extended as the load's name says, provided the store did not hit the page tables that
   * map the address.
   */
  lemma StoreThenLoad(s: State, w: u32, ch: u32, op: Opcode, x: u32, ch': u32, op': Opcode)
    requires IsOp(w, op) && IsStore(op) && IsOp(x, op') && IsLoad(op') && Size(op') == Size(op)
    requires Exec(s, w, ch).Retire?
    requires var va := Wrap(s.gpr[Rs1(w)] + ImmS(w));
      && va == Wrap(s.gpr[Rs1(x)] + ImmI(x))
      && (TranslateIn(s, va, Sv32.WRITE).Phys? ==>
            OutsideTables(s, va, TranslateIn(s, va, Sv32.WRITE).pa, Size(op)))
    ensures var n := Exec(s, w, ch).next;
      exists v: u32 :: Extends(op', LowBytes(s.gpr[Rs2(w)], Size(op)), v) && Yields(n, x, Exec(n, x, ch'), v)
  {
    hide Exec, DecodeType, DecodeOpcode, TranslateIn, Rs1, Rs2, ImmS, ImmI, Wrap, Size, Placed, PartlyPlaced, Backed;
    hide Number, Extends, Yields, LowBytes, OutsideTables;
    var n := Exec(s, w, ch).next;
    var va := Wrap(s.gpr[Rs1(w)] + ImmS(w));
    StoreOp(s, w, ch, op);
    LoadOp(n, x, ch', op');
    var pa, v := TranslateIn(s, va, Sv32.WRITE).pa, s.gpr[Rs2(w)];
    PlacedTranslation(s, n, va, Sv32.READ, pa, Size(op), v);
    WriteReads(s, va);
    PlacedNumber(s.mem, n.mem, pa, Size(op), v);
  }

  lemma WriteReads(s: State, va: u32)
    requires TranslateIn(s, va, Sv32.WRITE).Phys?
    ensures TranslateIn(s, va, Sv32.READ) == TranslateIn(s, va, Sv32.WRITE)
  {
    hide Translate, Bit;
    TranslationLaws.WriteImpliesRead(s.mem, s.csr.satp, s.super, Bit(s.csr.sstatus, 18), Bit(s.csr.sstatus, 19), va);
  }
}
