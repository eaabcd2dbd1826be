/**
 * What LR, SC and the AMOs do (RISC-V Unprivileged ISA 20191213, chapter 8), proved of the instructions as they
 * execute.
 */
module AtomicInstructions {
  import opened Bits
  import opened Words
  import opened FlatMemory
  import Sv32
  import opened PageWalk
  import opened Instructions
  import opened Decoder
  import Encoding
  import Fetching
  import opened HartState
  import opened Execute
  import opened Effects
  import opened RegisterInstructions
  import opened MemoryInstructions

  predicate IsAmo(op: Opcode) {
    op in {AMOSWAP_W, AMOADD_W, AMOXOR_W, AMOAND_W, AMOOR_W, AMOMIN_W, AMOMAX_W, AMOMINU_W, AMOMAXU_W}
  }

  predicate IsAtomic(op: Opcode) {
    op == LR_W || op == SC_W || IsAmo(op)
  }

  /** `r` is what the AMO leaves in memory for the word that was there and the value of rs2. */
  ghost predicate Combines(op: Opcode, word: u32, b: u32, r: u32) {
    match op
    case AMOSWAP_W => r == b
    case AMOADD_W => Congruent(r, word + b)
    case AMOXOR_W => BitwiseXor(word, b, r)
    case AMOAND_W => BitwiseAnd(word, b, r)
    case AMOOR_W => BitwiseOr(word, b, r)
    case AMOMIN_W => (r == word || r == b) && Signed(r) <= Signed(word) && Signed(r) <= Signed(b)
    case AMOMAX_W => (r == word || r == b) && Signed(r) >= Signed(word) && Signed(r) >= Signed(b)
    case AMOMINU_W => (r == word || r == b) && r <= word && r <= b
    case AMOMAXU_W => (r == word || r == b) && r >= word && r >= b
    case _ => false
  }

  lemma RmwOrders(op: Opcode, word: u32, b: u32)
    requires op in {AMOMIN_W, AMOMAX_W, AMOMINU_W, AMOMAXU_W}
    ensures Combines(op, word, b, Rmw(op, word, b))
  {
    hide Signed;
  }

  lemma RmwLogic(op: Opcode, word: u32, b: u32)
    requires op in {AMOSWAP_W, AMOADD_W, AMOXOR_W, AMOAND_W, AMOOR_W}
    ensures Combines(op, word, b, Rmw(op, word, b))
  {
    hide And32, Or32, Xor32, BitwiseAnd, BitwiseOr, BitwiseXor, Congruent, Wrap;
    BitwiseHold(word, b);
    WrapCongruent(word + b);
  }

  lemma RmwCombines(op: Opcode, word: u32, b: u32)
    requires IsAmo(op)
    ensures Combines(op, word, b, Rmw(op, word, b))
  {
    hide Combines, Rmw;
    if op in {AMOMIN_W, AMOMAX_W, AMOMINU_W, AMOMAXU_W} {
      RmwOrders(op, word, b);
    } else {
      RmwLogic(op, word, b);
    }
  }

  // --- The instruction once its word has been found ---

  ghost predicate Reserves(s: State, w: u32, word: u32, e: Effect) {
    && e.Retire? && Written(s.gpr, e.next.gpr, Rd(w), word)
    && e.next == s.(gpr := e.next.gpr, pc := Wrap(s.pc + 4), reservation := true)
  }

  /** SC: with the reservation it stores rs2, answers 0 and gives the reservation up; without, it answers 1. */
  ghost predicate StoresConditionally(s: State, w: u32, pa: u32, e: Effect) {
    && e.Retire?
    && if s.reservation then
         && Written(s.gpr, e.next.gpr, Rd(w), 0)
         && Placed(s.mem, e.next.mem, pa, 4, s.gpr[Rs2(w)])
         && e.next == s.(gpr := e.next.gpr, pc := Wrap(s.pc + 4), mem := e.next.mem, reservation := false)
       else
         && Written(s.gpr, e.next.gpr, Rd(w), 1)
         && e.next == s.(gpr := e.next.gpr, pc := Wrap(s.pc + 4))
  }

  /** An AMO: the combination in memory, the old word in rd; AMOSWAP puts it in rs2 first. */
  ghost predicate Modifies(s: State, w: u32, op: Opcode, pa: u32, word: u32, e: Effect) {
    && e.Retire?
    && (exists r: u32 :: Combines(op, word, s.gpr[Rs2(w)], r) && Placed(s.mem, e.next.mem, pa, 4, r))
    && (if op == AMOSWAP_W
        then exists g: Registers :: Written(s.gpr, g, Rs2(w), word) && Written(g, e.next.gpr, Rd(w), word)
        else Written(s.gpr, e.next.gpr, Rd(w), word))
    && e.next == s.(gpr := e.next.gpr, pc := Wrap(s.pc + 4), mem := e.next.mem)
  }

  ghost predicate Atomically(s: State, w: u32, op: Opcode, pa: u32, word: u32, e: Effect) {
    if op == LR_W then Reserves(s, w, word, e)
    else if op == SC_W then StoresConditionally(s, w, pa, e)
    else Modifies(s, w, op, pa, word, e)
  }

  lemma SetWritten(g: Registers, rd: reg, v: u32)
    ensures Written(g, g[rd := v][0 := 0], rd, v)
  {
  }

  lemma LrHolds(s: State, w: u32, pa: u32, word: u32)
    ensures Reserves(s, w, word, Atomic(s, w, LR_W, pa, word))
  {
    hide Rd, Written, Wrap;
    SetWritten(s.gpr, Rd(w), word);
  }

  lemma ScHolds(s: State, w: u32, pa: u32, word: u32)
    requires pa % 4 == 0 && Backed(s.mem, pa, 4)
    ensures StoresConditionally(s, w, pa, Atomic(s, w, SC_W, pa, word))
  {
    hide Rd, Rs2, Written, Placed, PartlyPlaced, Backed, WriteWord, Wrap;
    SetWritten(s.gpr, Rd(w), 0);
    SetWritten(s.gpr, Rd(w), 1);
    WordPlaced(s.mem, pa, s.gpr[Rs2(w)]);
  }

  lemma AmoHolds(s: State, w: u32, op: Opcode, pa: u32, word: u32)
    requires IsAmo(op) && pa % 4 == 0 && Backed(s.mem, pa, 4)
    ensures Modifies(s, w, op, pa, word, ReadModifyWrite(s, w, op, pa, word))
  {
    hide Rd, Rs2, Written, Placed, PartlyPlaced, Backed, WriteWord, Wrap, Combines, Rmw;
    var r := Rmw(op, word, s.gpr[Rs2(w)]);
    RmwCombines(op, word, s.gpr[Rs2(w)]);
    WordPlaced(s.mem, pa, r);
    SetWritten(s.gpr, Rd(w), word);
    SetWritten(s.gpr, Rs2(w), word);
    var g := s.gpr[Rs2(w) := word][0 := 0];
    SetWritten(g, Rd(w), word);
  }

  /** The three kinds of atomics. */
  lemma AtomicIs(s: State, w: u32, op: Opcode, pa: u32, word: u32)
    ensures op == SC_W ==> Atomic(s, w, op, pa, word) == Atomic(s, w, SC_W, pa, word)
    ensures op != LR_W && op != SC_W ==> Atomic(s, w, op, pa, word) == ReadModifyWrite(s, w, op, pa, word)
  {
    hide ReadModifyWrite, StoreConditional, Rd, SetRegister;
  }

  lemma AtomicHolds(s: State, w: u32, op: Opcode, pa: u32, word: u32)
    requires IsAtomic(op) && pa % 4 == 0 && Backed(s.mem, pa, 4)
    ensures Atomically(s, w, op, pa, word, Atomic(s, w, op, pa, word))
  {
    hide Atomic, Reserves, StoresConditionally, Modifies, Backed, ReadModifyWrite, IsAmo;
    AtomicIs(s, w, op, pa, word);
    if op == LR_W {
      LrHolds(s, w, pa, word);
    } else if op == SC_W {
      ScHolds(s, w, pa, word);
    } else {
      AmoHolds(s, w, op, pa, word);
    }
  }

  // --- The whole instruction ---

  /** The whole of what an atomic can do at the virtual address in rs1. */
  ghost predicate ActsAtomically(s: State, w: u32, op: Opcode, e: Effect) {
    var va := s.gpr[Rs1(w)];
    if va % 4 != 0 then e == Trap(if op == LR_W then 4 else 6, va, s)
    else
      match TranslateIn(s, va, if op == LR_W then Sv32.READ else Sv32.WRITE)
      case Endless => e == Hang
      case Thrown => e == Abort(s)
      case Fault => e == Trap(if op == LR_W then 13 else 15, va, s)
      case Phys(pa) =>
        if !Backed(s.mem, pa, 4) then e == Abort(s)
        else exists word: u32 :: word == Number(s.mem, pa, 4) && Atomically(s, w, op, pa, word, e)
  }

  lemma AmoActs(s: State, w: u32, op: Opcode)
    requires IsOp(w, op) && IsAtomic(op)
    ensures ActsAtomically(s, w, op, ExecAmo(s, w))
  {
    hide DecodeOpcode, TranslateIn, ReadWord, Atomic, Atomically, Number, Backed, Rs1, IsAtomic;
    var va := s.gpr[Rs1(w)];
    var access := if op == LR_W then Sv32.READ else Sv32.WRITE;
    if va % 4 == 0 && TranslateIn(s, va, access).Phys? {
      var pa := TranslateIn(s, va, access).pa;
      Fetching.PhysKeepsOffset(s, va, access);
      Fetching.AlignedOffset(va, pa);
      ReadsWord(s.mem, pa);
      if Backed(s.mem, pa, 4) {
        AtomicHolds(s, w, op, pa, ReadWord(s.mem, pa).value);
      }
    }
  }

  lemma AtomicClass(w: u32, op: Opcode)
    requires IsOp(w, op) && IsAtomic(op)
    ensures IsType(w, AMO)
  {
    hide DecodeType, DecodeOpcode;
    Encoding.DecodedClass(w);
  }

  lemma AmoExec(s: State, w: u32, ch: u32)
    requires IsType(w, AMO)
    ensures Exec(s, w, ch) == ExecAmo(s, w)
  {
    hide DecodeType, ExecAmo;
  }

  /**
   * LR puts the word in rd and takes the reservation; SC stores rs2 with it and says so in rd; an AMO leaves its
   * combination of the word and rs2 in memory and the word in rd. Otherwise the instruction traps or stops as said.
   */
  lemma AtomicOp(s: State, w: u32, ch: u32, op: Opcode)
    requires IsOp(w, op) && IsAtomic(op)
    ensures ActsAtomically(s, w, op, Exec(s, w, ch))
  {
    hide Exec, ExecAmo, ActsAtomically, DecodeType, DecodeOpcode, IsAtomic;
    AtomicClass(w, op);
    AmoExec(s, w, ch);
    AmoActs(s, w, op);
  }
}
