/**
 * The hart as the source writes it: an object whose methods update registers, CSRs, pc and flags in place
 * (src/rv32/hart.cpp, src/rv32/hart.hpp). Every method is proved to do what the functions of the state
 * machine say. `false` for `ok` stands for a thrown EmulatorException.
 */
module HartObject {
  import opened Bits
  import opened Words
  import opened Wrappers
  import opened MemoryMap
  import Flat = FlatMemory
  import Sv32
  import opened PageWalk
  import opened Csrs
  import opened Instructions
  import opened Decoder
  import opened HartState
  import opened Execute
  import opened Steps

  /** Where a method that executes an instruction must leave the hart. */
  ghost predicate Lands(e: Effect, s: State, ok: bool, increment: bool) {
    match e
    case Retire(n) => ok && n == if increment then Advance(s) else s
    case Trap(cause, tval, at) => ok && !increment && s == EnterException(at, cause, tval)
    case Abort(last) => !ok && s == last
    case Hang => false
  }

  /** What a translation gives when its walk ends in `end`. */
  ghost function ConcludeIn(s: State, end: End, va: u32, access: Sv32.Access): Translation {
    Conclude(end, va, access, s.super, Bit(s.csr.sstatus, 18), Bit(s.csr.sstatus, 19))
  }

  /** The number of iterations of a walk that ends. */
  ghost function Length(s: State, va: u32, access: Sv32.Access): (n: nat)
    requires TranslateIn(s, va, access) != Endless && Bit(s.csr.satp, 31) != 0
    ensures Walk(s.mem, va, Root(s.csr.satp), 1, n).Some?
    ensures TranslateIn(s, va, access) == ConcludeIn(s, Walk(s.mem, va, Root(s.csr.satp), 1, n).value, va, access)
  {
    hide Conclude, Walk, Bit, Root;
    var n: nat :| Walk(s.mem, va, Root(s.csr.satp), 1, n).Some?;
    EndIs(s.mem, va, Root(s.csr.satp), 1, n);
    n
  }

  /** The first iteration of a walk that ends, in the words of the loop body. */
  lemma Unrolled(s: State, va: u32, access: Sv32.Access, base: nat, i: u32, n: nat)
    requires Walk(s.mem, va, base, i, n).Some?
    ensures n > 0
    ensures var end := Walk(s.mem, va, base, i, n).value;
      match Flat.ReadWord(s.mem, PteAddress(va, base, i))
      case None => ConcludeIn(s, end, va, access) == Thrown
      case Some(pte) =>
        if Bit(pte, 0) == 0 || (Bit(pte, 1) == 0 && Bit(pte, 2) == 1) then ConcludeIn(s, end, va, access) == Fault
        else if Bit(pte, 1) == 1 || Bit(pte, 3) == 1 then
          ConcludeIn(s, end, va, access)
          == if Permits(pte, i, access, s.super, Bit(s.csr.sstatus, 18), Bit(s.csr.sstatus, 19))
             then Deliver(Compose(pte, i, va)) else Fault
        else Walk(s.mem, va, base, i, n) == Walk(s.mem, va, TableOf(pte), Decrement(i), n - 1)
  {
    hide Read, Bit, Flat.ReadWord, PteAddress, TableOf, Decrement, Permits, Deliver, Compose;
  }

  class Hart {
    const mem: MemoryMapManager
    const gpr: array<u32>
    const timebasePeriod: period
    var csr: Csrs
    var pc: u32
    var lastTime: int
    var timeCompare: u64
    var supervisorMode: bool
    var shouldIncrementPC: bool
    var reservationSetValid: bool
    /** The calls made through putCharCallback and shutdownCallback. */
    var output: seq<Output>

    ghost predicate Valid()
      reads this, mem
    {
      gpr.Length == 32 && mem.Valid() && gpr as object !in mem.Arrays()
    }

    ghost function State(): HartState.State
      requires Valid()
      reads this, gpr, mem, mem.Arrays()
    {
      HartState.State(gpr[..], csr, pc, supervisorMode, reservationSetValid, timeCompare, lastTime, mem.Contents(),
          output)
    }

    /** The CSRs hold whatever they held; the registers are cleared by `reset`. */
    constructor (pc: u32, mem: MemoryMapManager, timebasePeriod: period, now: int, csr: Csrs)
      requires mem.Valid()
      ensures Valid() && this.mem == mem && this.timebasePeriod == timebasePeriod && fresh(gpr)
      ensures Initial(State()) && this.pc == pc && this.csr == csr && lastTime == now
      ensures forall k | 0 <= k < 32 :: gpr[k] == 0
    {
      this.mem := mem;
      this.gpr := new u32[32];
      this.timebasePeriod := timebasePeriod;
      this.csr := csr;
      this.pc := pc;
      this.lastTime := now;
      this.timeCompare := 0;
      this.supervisorMode := true;
      this.shouldIncrementPC := false;
      this.reservationSetValid := false;
      this.output := [];
      new;
      Reset();
    }

    /** `Registers::reset` */
    method Reset()
      requires Valid()
      modifies gpr
      ensures Valid() && forall k | 0 <= k < 32 :: gpr[k] == 0
    {
      var i := 0;
      while i < gpr.Length
        invariant 0 <= i <= gpr.Length
        invariant forall k | 0 <= k < i :: gpr[k] == 0
      {
        gpr[i] := 0;
        i := i + 1;
      }
    }

    method ReadRegister(index: reg) returns (value: u32)
      requires Valid()
      ensures value == GetRegister(State(), index)
    {
      value := gpr[index];
    }

    method WriteRegister(index: reg, value: u32)
      requires Valid()
      modifies gpr
      ensures Valid() && State() == SetRegister(old(State()), index, value)
    {
      gpr[index] := value;
      gpr[0] := 0;
      assert gpr[..] == old(gpr[..])[index := value][0 := 0];
    }

    method HandleException(code: nat, stval: u32)
      requires Valid()
      modifies this
      ensures Valid() && State() == EnterException(old(State()), code, stval) && !shouldIncrementPC
    {
      hide MemoryMapManager.Contents, MemoryMapManager.Valid, SetField, Bit, Read;
      var c := csr;
      c := c.(sstatus := SetField(c.sstatus, 8, 1, OneIf(supervisorMode)));
      c := c.(sstatus := SetField(c.sstatus, 5, 1, Bit(c.sstatus, 1)));
      c := c.(sstatus := SetField(c.sstatus, 1, 1, 0));
      c := c.(sepc := pc);
      c := c.(scause := SetField(c.scause, 0, 31, code));
      c := c.(scause := SetField(c.scause, 31, 1, 0));
      c := c.(stval := stval);
      csr := c;
      supervisorMode := true;
      pc := Wrap(Read(c.stvec, 2, 30) * 4);
      shouldIncrementPC := false;
    }

    method ServiceInterrupts()
      requires Valid()
      modifies this
      ensures Valid() && State() == HandleInterrupts(old(State()))
    {
      hide MemoryMapManager.Contents, MemoryMapManager.Valid, SetField, Bit, Read;
      if !supervisorMode || (supervisorMode && Bit(csr.sstatus, 1) == 1) {
        var code: nat;
        if Bit(csr.sip, 1) == 1 && Bit(csr.sie, 1) == 1 {
          code := 1;
        } else if Bit(csr.sip, 5) == 1 && Bit(csr.sie, 5) == 1 {
          code := 5;
        } else if Bit(csr.sip, 9) == 1 && Bit(csr.sie, 9) == 1 {
          code := 9;
        } else {
          return;
        }
        var c := csr.(scause := SetField(csr.scause, 0, 31, code));
        c := c.(sstatus := SetField(c.sstatus, 8, 1, OneIf(supervisorMode)));
        c := c.(sstatus := SetField(c.sstatus, 5, 1, Bit(c.sstatus, 1)));
        c := c.(sstatus := SetField(c.sstatus, 1, 1, 0));
        c := c.(sepc := pc);
        c := c.(scause := SetField(c.scause, 31, 1, 1));
        c := c.(stval := 0);
        var target := Wrap(Read(c.stvec, 2, 30) * 4);
        if Read(c.stvec, 0, 2) == 1 {
          target := Add(target, Wrap(4 * Read(c.scause, 0, 31)));
        }
        csr := c;
        supervisorMode := true;
        shouldIncrementPC := false;
        pc := target;
      }
    }

    /** `incrementCounters`, with the clock reading as a parameter. */
    method CountUp(now: int)
      requires Valid()
      modifies this
      ensures Valid() && State() == IncrementCounters(old(State()), now, timebasePeriod)
      ensures shouldIncrementPC == old(shouldIncrementPC)
    {
      hide MemoryMapManager.Contents, MemoryMapManager.Valid, SetField;
      var c := csr;
      var duration: u64 := (now - lastTime) % 0x1_0000_0000_0000_0000;
      if duration >= timebasePeriod {
        var timerVal := (c.timeh * 0x1_0000_0000 + c.time + duration / timebasePeriod) % 0x1_0000_0000_0000_0000;
        if timerVal >= timeCompare {
          c := c.(sip := SetField(c.sip, 5, 1, 1));
        }
        c := c.(time := timerVal % 0x1_0000_0000);
        c := c.(timeh := timerVal / 0x1_0000_0000);
        lastTime := now;
      }
      if c.cycle == 0xFFFF_FFFF {
        c := c.(cycleh := Add(c.cycleh, 1));
      }
      if c.instret == 0xFFFF_FFFF {
        c := c.(instreth := Add(c.instreth, 1));
      }
      c := c.(cycle := Add(c.cycle, 1));
      c := c.(instret := Add(c.instret, 1));
      csr := c;
    }

    /**
     * `translateAddress` on a walk that ends: `Phys(a)` is true with `addr` replaced by `a`, `Fault` is false
     * with `addr` untouched, `Thrown` an exception.
     */
    method TranslateAddress(addr: u32, access: Sv32.Access) returns (t: Translation)
      requires Valid() && TranslateIn(State(), addr, access) != Endless
      ensures t == TranslateIn(State(), addr, access)
    {
      hide Read, Write, Bit, Flat.ReadWord, Walk, Root, TableOf, PteAddress, Decrement, ConcludeIn, TranslateIn;
      hide MemoryMapManager.Contents, MemoryMapManager.Valid;
      ghost var s := State();
      if Bit(csr.satp, 31) == 0 {
        PagingOff(s, addr, access);
        return Phys(addr);
      }
      var base: nat := Root(csr.satp);
      var i: u32 := 1;
      ghost var n := Length(s, addr, access);
      var result: nat := 0;
      while true
        invariant result == 0
        invariant Walk(s.mem, addr, base, i, n).Some?
        invariant TranslateIn(s, addr, access) == ConcludeIn(s, Walk(s.mem, addr, base, i, n).value, addr, access)
        decreases n
      {
        Unrolled(s, addr, access, base, i, n);
        var word := mem.ReadWord(PteAddress(addr, base, i));
        if word.None? {
          return Thrown;
        }
        var pte := word.value;
        if Bit(pte, 0) == 0 || (Bit(pte, 1) == 0 && Bit(pte, 2) == 1) {
          return Fault;
        }
        if Bit(pte, 1) == 1 || Bit(pte, 3) == 1 {
          if !supervisorMode && Bit(pte, 4) == 0 {
            return Fault;
          }
          if (Bit(pte, 2) == 0 && access == Sv32.WRITE) || (Bit(pte, 3) == 0 && access == Sv32.EXECUTE) {
            return Fault;
          }
          if access == Sv32.READ
              && ((Bit(csr.sstatus, 19) == 0 && Bit(pte, 1) == 0) || (Bit(pte, 1) == 0 && Bit(pte, 3) == 0)) {
            return Fault;
          }
          if access == Sv32.EXECUTE && supervisorMode && Bit(pte, 4) == 1 {
            return Fault;
          }
          if access != Sv32.EXECUTE && supervisorMode && Bit(pte, 4) == 1 && Bit(csr.sstatus, 18) == 0 {
            return Fault;
          }
          if i == 1 && Read(pte, 10, 10) != 0 {
            return Fault;
          }
          if Bit(pte, 6) == 0 || (access == Sv32.WRITE && Bit(pte, 7) == 0) {
            return Fault;
          }
          result := Write(result, 0, 12, Read(addr, 0, 12));
          result := Write(result, 12, 10, Read(pte, 10, 10));
          result := Write(result, 22, 12, Read(pte, 20, 12));
          if i == 1 {
            result := Write(result, 12, 10, Read(addr, 12, 10));
          }
          break;
        } else {
          base := TableOf(pte);
          i, n := Decrement(i), n - 1;
        }
      }
      if result == 0 {
        return Fault;
      }
      if result >= 0x1_0000_0000 {
        return Thrown;
      }
      return Phys(result);
    }

    // --- stepInstruction, case by case; `shouldIncrementPC` is true when a case begins ---

    method ExecuteLoad(instr: u32) returns (ok: bool)
      requires Valid() && shouldIncrementPC && ExecLoad(State(), instr) != Hang
      modifies this, gpr
      ensures Valid() && Lands(ExecLoad(old(State()), instr), State(), ok, shouldIncrementPC)
    {
      hide MemoryMapManager.Contents, MemoryMapManager.Valid, TranslateIn, DecodeOpcode, EnterException;
      hide SetRegister, ImmI, Rd, Rs1;
      hide Flat.ReadByte, Flat.ReadHalfword, Flat.ReadWord, SignExtend;
      var rs1 := ReadRegister(Rs1(instr));
      var effectiveAddr := Add(rs1, ImmI(instr));
      var t := TranslateAddress(effectiveAddr, Sv32.READ);
      if t.Thrown? {
        return false;
      }
      if t.Fault? {
        HandleException(13, effectiveAddr);
        return true;
      }
      effectiveAddr := t.pa;
      var opcode := DecodeOpcode(instr);
      if opcode.None? {
        return false;
      }
      var op := opcode.value;
      if effectiveAddr % Width(op) != 0 {
        HandleException(4, effectiveAddr);
        return true;
      }
      var val := LoadFrom(op, effectiveAddr);
      if val.None? {
        return false;
      }
      WriteRegister(Rd(instr), val.value);
      return true;
    }

    /** The reads of the load cases. */
    method LoadFrom(op: Opcode, addr: u32) returns (val: Option<u32>)
      requires Valid()
      ensures val == LoadValue(op, mem.Contents(), addr)
    {
      hide MemoryMapManager.Contents, MemoryMapManager.Valid, Flat.ReadByte, Flat.ReadHalfword, Flat.ReadWord;
      hide MapByte, MapHalfword;
      if op == LB || op == LBU {
        var b := mem.ReadByte(addr);
        return MapByte(b, op == LB);
      }
      if op == LH || op == LHU {
        var h := mem.ReadHalfword(addr);
        return MapHalfword(h, op == LH);
      }
      val := mem.ReadWord(addr);
    }

    method ExecuteStore(instr: u32) returns (ok: bool)
      requires Valid() && shouldIncrementPC && ExecStore(State(), instr) != Hang
      modifies this, gpr, mem.Arrays()
      ensures Valid() && Lands(ExecStore(old(State()), instr), State(), ok, shouldIncrementPC)
    {
      hide MemoryMapManager.Contents, MemoryMapManager.Valid, TranslateIn, DecodeOpcode, EnterException, ImmS, Rs1, Rs2;
      hide Flat.WriteByte, Flat.WriteHalfword, Flat.WriteWord;
      var rs1 := ReadRegister(Rs1(instr));
      var effectiveAddr := Add(rs1, ImmS(instr));
      var t := TranslateAddress(effectiveAddr, Sv32.WRITE);
      if t.Thrown? {
        return false;
      }
      if t.Fault? {
        HandleException(15, effectiveAddr);
        return true;
      }
      effectiveAddr := t.pa;
      var opcode := DecodeOpcode(instr);
      if opcode.None? {
        return false;
      }
      var op := opcode.value;
      if effectiveAddr % Width(op) != 0 {
        HandleException(6, effectiveAddr);
        return true;
      }
      var rs2 := ReadRegister(Rs2(instr));
      ok := StoreTo(op, effectiveAddr, rs2);
    }

    /** The writes of the store cases. */
    method StoreTo(op: Opcode, addr: u32, val: u32) returns (ok: bool)
      requires Valid()
      modifies mem.Arrays()
      ensures Valid() && gpr[..] == old(gpr[..])
      ensures StoreValue(op, old(mem.Contents()), addr, val)
           == if ok then Flat.Stored(mem.Contents()) else Flat.Stopped(mem.Contents())
    {
      hide MemoryMapManager.Contents, MemoryMapManager.Valid, Flat.WriteByte, Flat.WriteHalfword, Flat.WriteWord;
      if op == SB {
        ok := mem.WriteByte(addr, val % 0x100);
      } else if op == SH {
        ok := mem.WriteHalfword(addr, val % 0x1_0000);
      } else {
        ok := mem.WriteWord(addr, val);
      }
    }

    method ExecuteBranch(instr: u32) returns (ok: bool)
      requires Valid() && shouldIncrementPC
      modifies this
      ensures Valid() && Lands(ExecBranch(old(State()), instr), State(), ok, shouldIncrementPC)
    {
      hide MemoryMapManager.Contents, MemoryMapManager.Valid, DecodeOpcode, ImmB, Rs1, Rs2, Taken;
      var effectiveAddr := Add(pc, ImmB(instr));
      var opcode := DecodeOpcode(instr);
      if opcode.None? {
        return false;
      }
      var rs1 := ReadRegister(Rs1(instr));
      var rs2 := ReadRegister(Rs2(instr));
      if Taken(opcode.value, rs1, rs2) {
        shouldIncrementPC := false;
        pc := effectiveAddr;
      }
      return true;
    }

    method ExecuteJump(instr: u32) returns (ok: bool)
      requires Valid()
      modifies this, gpr
      ensures Valid() && Lands(ExecJump(old(State()), instr), State(), ok, shouldIncrementPC)
    {
      hide MemoryMapManager.Contents, MemoryMapManager.Valid, DecodeOpcode, ImmJ, ImmI, Rd, Rs1, ClearLowBit;
      shouldIncrementPC := false;
      var opcode := DecodeOpcode(instr);
      if opcode.None? {
        return false;
      }
      if opcode.value == JAL {
        WriteRegister(Rd(instr), Add(pc, 4));
        pc := Add(pc, ImmJ(instr));
      } else {
        var rs1 := ReadRegister(Rs1(instr));
        var effectiveAddr := Add(rs1, ImmI(instr));
        WriteRegister(Rd(instr), Add(pc, 4));
        pc := ClearLowBit(effectiveAddr);
      }
      return true;
    }

    method ExecuteAmo(instr: u32) returns (ok: bool)
      requires Valid() && shouldIncrementPC && ExecAmo(State(), instr) != Hang
      modifies this, gpr, mem.Arrays()
      ensures Valid() && Lands(ExecAmo(old(State()), instr), State(), ok, shouldIncrementPC)
    {
      hide MemoryMapManager.Contents, MemoryMapManager.Valid, TranslateIn, DecodeOpcode, EnterException, Rs1;
      hide Atomic, Flat.ReadWord;
      var addr := ReadRegister(Rs1(instr));
      var opcode := DecodeOpcode(instr);
      if opcode.None? {
        return false;
      }
      var op := opcode.value;
      if addr % 4 != 0 {
        HandleException(if op == LR_W then 4 else 6, addr);
        return true;
      }
      var t := TranslateAddress(addr, if op == LR_W then Sv32.READ else Sv32.WRITE);
      if t.Thrown? {
        return false;
      }
      if t.Fault? {
        HandleException(if op == LR_W then 13 else 15, addr);
        return true;
      }
      addr := t.pa;
      var val := mem.ReadWord(addr);
      if val.None? {
        return false;
      }
      ok := ExecuteAtomic(instr, op, addr, val.value);
    }

    /** The cases of the AMO switch. */
    method ExecuteAtomic(instr: u32, op: Opcode, addr: u32, val: u32) returns (ok: bool)
      requires Valid() && shouldIncrementPC
      modifies this, gpr, mem.Arrays()
      ensures Valid() && Lands(Atomic(old(State()), instr, op, addr, val), State(), ok, shouldIncrementPC)
    {
      hide MemoryMapManager.Contents, MemoryMapManager.Valid, Rd, StoreConditional, ReadModifyWrite, SetRegister;
      if op == LR_W {
        WriteRegister(Rd(instr), val);
        reservationSetValid := true;
        return true;
      }
      if op == SC_W {
        ok := ExecuteSc(instr, addr);
      } else {
        ok := ExecuteRmw(instr, op, addr, val);
      }
    }

    method ExecuteSc(instr: u32, addr: u32) returns (ok: bool)
      requires Valid() && shouldIncrementPC
      modifies this, gpr, mem.Arrays()
      ensures Valid() && Lands(StoreConditional(old(State()), instr, addr), State(), ok, shouldIncrementPC)
    {
      hide MemoryMapManager.Contents, MemoryMapManager.Valid, Rd, Rs2, Flat.WriteWord;
      if reservationSetValid {
        var rs2 := ReadRegister(Rs2(instr));
        ok := mem.WriteWord(addr, rs2);
        if ok {
          WriteRegister(Rd(instr), 0);
          reservationSetValid := false;
        }
      } else {
        WriteRegister(Rd(instr), 1);
        ok := true;
      }
    }

    method ExecuteRmw(instr: u32, op: Opcode, addr: u32, val: u32) returns (ok: bool)
      requires Valid() && shouldIncrementPC
      modifies gpr, mem.Arrays()
      ensures Valid() && Lands(ReadModifyWrite(old(State()), instr, op, addr, val), State(), ok, shouldIncrementPC)
    {
      hide MemoryMapManager.Contents, MemoryMapManager.Valid, Rd, Rs2, Rmw, Flat.WriteWord, SetRegister;
      ghost var s := State();
      var rs2 := ReadRegister(Rs2(instr));
      if op == AMOSWAP_W {
        WriteRegister(Rs2(instr), val);
      }
      ghost var before := if op == AMOSWAP_W then SetRegister(s, Rs2(instr), val) else s;
      assert State() == before;
      ok := StoreWord(addr, Rmw(op, val, rs2));
      if ok {
        WriteRegister(Rd(instr), val);
      }
    }

    method StoreWord(addr: u32, val: u32) returns (ok: bool)
      requires Valid()
      modifies mem.Arrays()
      ensures Valid() && State() == old(State()).(mem := mem.Contents())
      ensures Flat.WriteWord(old(State()).mem, addr, val)
           == if ok then Flat.Stored(State().mem) else Flat.Stopped(State().mem)
    {
      hide MemoryMapManager.Contents, MemoryMapManager.Valid, Flat.WriteWord;
      ok := mem.WriteWord(addr, val);
    }

    // --- Register instructions ---

    method ExecuteOpImm(instr: u32) returns (ok: bool)
      requires Valid() && shouldIncrementPC
      modifies gpr
      ensures Valid() && Lands(ExecOpImm(old(State()), instr), State(), ok, shouldIncrementPC)
    {
      hide MemoryMapManager.Contents, MemoryMapManager.Valid, DecodeOpcode, AluImm, ImmI, Rd, Rs1, Rs2, SetRegister;
      var opcode := DecodeOpcode(instr);
      if opcode.None? {
        return false;
      }
      var rs1 := ReadRegister(Rs1(instr));
      WriteRegister(Rd(instr), AluImm(opcode.value, rs1, ImmI(instr), Rs2(instr)));
      return true;
    }

    method ExecuteOp(instr: u32) returns (ok: bool)
      requires Valid() && shouldIncrementPC
      modifies gpr
      ensures Valid() && Lands(ExecOp(old(State()), instr), State(), ok, shouldIncrementPC)
    {
      hide MemoryMapManager.Contents, MemoryMapManager.Valid, DecodeOpcode, Alu, Rd, Rs1, Rs2, SetRegister;
      var opcode := DecodeOpcode(instr);
      if opcode.None? {
        return false;
      }
      var rs1 := ReadRegister(Rs1(instr));
      var rs2 := ReadRegister(Rs2(instr));
      WriteRegister(Rd(instr), Alu(opcode.value, rs1, rs2));
      return true;
    }

    method ExecuteUpper(instr: u32) returns (ok: bool)
      requires Valid() && shouldIncrementPC
      modifies gpr
      ensures Valid() && Lands(ExecUpper(old(State()), instr), State(), ok, shouldIncrementPC)
    {
      hide MemoryMapManager.Contents, MemoryMapManager.Valid, DecodeOpcode, ImmU, Rd, SetRegister;
      var opcode := DecodeOpcode(instr);
      if opcode.None? {
        return false;
      }
      if opcode.value == LUI {
        WriteRegister(Rd(instr), ImmU(instr));
      } else {
        WriteRegister(Rd(instr), Add(pc, ImmU(instr)));
      }
      return true;
    }

    // --- SYSTEM ---

    /** The supervisor calls, with the character getchar returns as a parameter. */
    method CallSbi(ch: u32) returns (ok: bool)
      requires Valid() && shouldIncrementPC
      modifies this, gpr
      ensures Valid() && Lands(Sbi(old(State()), ch), State(), ok, shouldIncrementPC)
    {
      hide MemoryMapManager.Contents, MemoryMapManager.Valid, SetField;
      match gpr[17] {
        case 0 =>
          var high: int := gpr[11];
          timeCompare := high * 0x1_0000_0000 + gpr[10];
          csr := csr.(sip := SetField(csr.sip, 5, 1, 0));
        case 1 =>
          output := output + [PutChar(gpr[10] % 0x100)];
        case 2 =>
          gpr[10] := ch;
        case 8 =>
          output := output + [Shutdown];
          gpr[10] := 0;
        case _ =>
          return false;
      }
      return true;
    }

    method ReturnFromTrap()
      requires Valid()
      modifies this
      ensures Valid() && State() == Sret(old(State())) && !shouldIncrementPC
    {
      hide MemoryMapManager.Contents, MemoryMapManager.Valid, SetField, Bit;
      var c := csr;
      shouldIncrementPC := false;
      supervisorMode := Bit(c.sstatus, 8) == 1;
      c := c.(sstatus := SetField(c.sstatus, 1, 1, Bit(c.sstatus, 5)));
      c := c.(sstatus := SetField(c.sstatus, 5, 1, 1));
      c := c.(sstatus := SetField(c.sstatus, 8, 1, 0));
      csr := c;
      pc := c.sepc;
    }

    method ExecuteSystem(instr: u32, ch: u32) returns (ok: bool)
      requires Valid() && shouldIncrementPC
      modifies this, gpr
      ensures Valid() && Lands(ExecSystem(old(State()), instr, ch), State(), ok, shouldIncrementPC)
    {
      hide MemoryMapManager.Contents, MemoryMapManager.Valid, DecodeOpcode, Sbi, ExecCsr, EnterException, Sret;
      var opcode := DecodeOpcode(instr);
      if opcode.None? {
        return false;
      }
      var op := opcode.value;
      if op == SRET {
        ReturnFromTrap();
        return true;
      }
      if op == ECALL {
        if supervisorMode {
          ok := CallSbi(ch);
        } else {
          HandleException(8, 0);
          ok := true;
        }
        return;
      }
      if op in {SFENCE_VMA, SFENCE_INVAL_IR, SFENCE_W_INVAL, WFI} {
        return true;
      }
      ok := ExecuteCsr(instr, op);
    }

    method ExecuteCsr(instr: u32, op: Opcode) returns (ok: bool)
      requires Valid() && shouldIncrementPC
      modifies this, gpr
      ensures Valid() && Lands(ExecCsr(old(State()), instr, op), State(), ok, shouldIncrementPC)
    {
      hide MemoryMapManager.Contents, MemoryMapManager.Valid, EnterException, CounterClosed, WriteRefused, CsrResult;
      hide Imm12, Rs1, Rd, GetAccessType, ReadCsr, WriteCsr;
      var rs1Value := ReadRegister(Rs1(instr));
      var csrField := Imm12(instr);
      var access := GetAccessType(csrField);
      if access.None? {
        return false;
      }
      if !supervisorMode && CounterClosed(csr, csrField) {
        HandleException(2, instr);
        return true;
      }
      if !supervisorMode && access.value == SRW {
        HandleException(2, instr);
        return true;
      }
      var before := ReadCsr(csr, csrField);
      WriteRegister(Rd(instr), before);
      if WriteRefused(op, access.value, rs1Value) {
        HandleException(2, instr);
        return true;
      }
      csr := WriteCsr(csr, csrField, CsrResult(op, before, rs1Value, Rs1(instr)));
      return true;
    }

    // --- One instruction ---

    /** The part of `stepInstruction` before the switch; `None` is an exception. */
    method FetchInstruction() returns (instr: Option<u32>)
      requires Valid() && FrontOf(State()) != FrontNever
      modifies this
      ensures Valid() && FrontOf(old(State()))
           == if instr.Some? then Fetched(State(), instr.value) else FrontStop(State())
      ensures instr.Some? ==> shouldIncrementPC
    {
      hide MemoryMapManager.Contents, MemoryMapManager.Valid, TranslateIn, EnterException, HandleInterrupts;
      hide Flat.ReadWord;
      if pc % 4 != 0 {
        HandleException(0, pc);
      }
      ServiceInterrupts();
      assert State() == Preamble(old(State()));
      var t := TranslateAddress(pc, Sv32.EXECUTE);
      if t.Fault? {
        HandleException(12, pc);
        t := TranslateAddress(pc, Sv32.EXECUTE);
        if t.Fault? {
          return None;
        }
      }
      if t.Thrown? {
        return None;
      }
      instr := mem.ReadWord(t.pa);
      shouldIncrementPC := true;
    }

    /** The switch on the instruction type. */
    method Execute(instr: u32, ch: u32) returns (ok: bool)
      requires Valid() && shouldIncrementPC && Exec(State(), instr, ch) != Hang
      modifies this, gpr, mem.Arrays()
      ensures Valid() && Lands(Exec(old(State()), instr, ch), State(), ok, shouldIncrementPC)
    {
      hide MemoryMapManager.Contents, MemoryMapManager.Valid, State, DecodeType;
      hide ExecLoad, ExecStore, ExecBranch, ExecJump, ExecAmo, ExecOpImm, ExecOp, ExecSystem, ExecUpper;
      var t := DecodeType(instr);
      match t {
        case None => return false;
        case Some(LOAD) => ok := ExecuteLoad(instr);
        case Some(STORE) => ok := ExecuteStore(instr);
        case Some(BRANCH) => ok := ExecuteBranch(instr);
        case Some(JUMP) => ok := ExecuteJump(instr);
        case Some(AMO) => ok := ExecuteAmo(instr);
        case Some(OP_IMM) => ok := ExecuteOpImm(instr);
        case Some(OP) => ok := ExecuteOp(instr);
        case Some(SYSTEM) => ok := ExecuteSystem(instr, ch);
        case Some(OP_UI) => ok := ExecuteUpper(instr);
        case Some(OP_FENCE) => ok := true;
      }
    }

    /** `stepInstruction`, whenever the step has an end. */
    method StepInstruction(input: Input) returns (ok: bool)
      requires Valid() && Step(State(), input, timebasePeriod) != Never
      modifies this, gpr, mem.Arrays()
      ensures Valid()
      ensures Step(old(State()), input, timebasePeriod) == if ok then Next(State()) else Stop(State())
    {
      hide MemoryMapManager.Contents, MemoryMapManager.Valid, FrontOf, Exec, EnterException, IncrementCounters;
      var instr := FetchInstruction();
      if instr.None? {
        return false;
      }
      ok := Execute(instr.value, input.ch);
      if !ok {
        return;
      }
      if shouldIncrementPC {
        pc := Add(pc, 4);
      }
      CountUp(input.now);
    }

    /** The loop of `main`, until an exception, a shutdown call or the end of the inputs (src/main.cpp:106-113). */
    method RunInstructions(inputs: seq<Input>) returns (ok: bool)
      requires Valid() && Loop(State(), inputs, timebasePeriod) != Never
      modifies this, gpr, mem.Arrays()
      ensures Valid()
      ensures Loop(old(State()), inputs, timebasePeriod) == if ok then Next(State()) else Stop(State())
    {
      hide MemoryMapManager.Contents, MemoryMapManager.Valid, Step;
      var k := 0;
      while k < |inputs| && Shutdown !in output
        invariant 0 <= k <= |inputs| && Valid()
        invariant mem.Arrays() == old(mem.Arrays())
        invariant Loop(old(State()), inputs, timebasePeriod) == Loop(State(), inputs[k..], timebasePeriod)
      {
        assert inputs[k..][0] == inputs[k] && inputs[k..][1..] == inputs[k + 1..];
        ok := StepInstruction(inputs[k]);
        if !ok {
          return;
        }
        k := k + 1;
      }
      return true;
    }
  }
}
