/** The state of a hart, trap entry and the counters (src/rv32/hart.hpp, src/rv32/hart.cpp:600-692). */
module HartState {
  import opened Bits
  import opened Words
  import opened Wrappers
  import opened FlatMemory
  import Sv32
  import opened PageWalk
  import opened Csrs
  import opened Instructions

  type Registers = r: seq<u32> | |r| == 32 witness seq(32, _ => 0)

  /** What the SBI callbacks are asked to do. */
  datatype Output = PutChar(c: u8) | Shutdown

  datatype State = State(
    gpr: Registers, csr: Csrs, pc: u32, super: bool, reservation: bool,
    timeCompare: u64, lastTime: int, mem: Bytes, out: seq<Output>)

  /** What a step reads from outside: the clock in nanoseconds, and the answer of getchar. */
  datatype Input = Input(now: int, ch: u32)

  type period = p: int | 0 < p < 0x1_0000_0000_0000_0000 witness 1

  function GetRegister(s: State, r: reg): u32 {
    s.gpr[r]
  }

  /** Register 0 is cleared after every write. */
  function SetRegister(s: State, r: reg, v: u32): State {
    s.(gpr := s.gpr[r := v][0 := 0])
  }

  function Advance(s: State): State {
    s.(pc := Add(s.pc, 4))
  }

  ghost function TranslateIn(s: State, va: u32, access: Sv32.Access): Translation {
    Translate(s.mem, s.csr.satp, s.super, Bit(s.csr.sstatus, 18), Bit(s.csr.sstatus, 19), va, access)
  }

  lemma PagingOff(s: State, va: u32, access: Sv32.Access)
    requires Bit(s.csr.satp, 31) == 0
    ensures TranslateIn(s, va, access) == Phys(va)
  {
    hide Bit, Ends, EndOf, Conclude, Root;
  }

  // --- Traps ---

  /** `handleException` */
  function EnterException(s: State, code: nat, tval: u32): State {
    var csr := s.csr.(sstatus := EnterStatus(s.csr.sstatus, s.super), sepc := s.pc,
                      scause := SetCause(s.csr.scause, code, false), stval := tval);
    s.(csr := csr, super := true, pc := VectorBase(csr.stvec))
  }

  function Pending(csr: Csrs, k: nat): bool {
    Bit(csr.sip, k) == 1 && Bit(csr.sie, k) == 1
  }

  /** The code of the interrupt to service, in the order software, timer, external. */
  function PendingCode(csr: Csrs): Option<nat> {
    if Pending(csr, 1) then Some(1)
    else if Pending(csr, 5) then Some(5)
    else if Pending(csr, 9) then Some(9)
    else None
  }

  predicate InterruptsOpen(s: State) {
    !s.super || Bit(s.csr.sstatus, 1) == 1
  }

  predicate TakesInterrupt(s: State) {
    InterruptsOpen(s) && PendingCode(s.csr).Some?
  }

  function EnterInterrupt(s: State, code: nat): State {
    var csr := s.csr.(sstatus := EnterStatus(s.csr.sstatus, s.super), sepc := s.pc,
                      scause := SetCause(s.csr.scause, code, true), stval := 0);
    var target := if VectorMode(csr.stvec) == 1
      then Add(VectorBase(csr.stvec), Wrap(4 * Read(csr.scause, 0, 31)))
      else VectorBase(csr.stvec);
    s.(csr := csr, super := true, pc := target)
  }

  /** `handleInterrupts` */
  function HandleInterrupts(s: State): State {
    if TakesInterrupt(s) then EnterInterrupt(s, PendingCode(s.csr).value) else s
  }

  /** SRET; there is no check of the mode. */
  function Sret(s: State): State {
    s.(super := Bit(s.csr.sstatus, 8) == 1, pc := s.csr.sepc, csr := s.csr.(sstatus := SretStatus(s.csr.sstatus)))
  }

  // --- Counters ---

  /** `csr.timeh:csr.time` */
  function Time(csr: Csrs): u64 {
    csr.timeh * 0x1_0000_0000 + csr.time
  }

  /** A `uint64_t` duration in nanoseconds; a clock that goes back wraps. */
  function Elapsed(s: State, now: int): u64 {
    (now - s.lastTime) % 0x1_0000_0000_0000_0000
  }

  function Ticks(s: State, now: int, p: period): nat {
    ShrBound(Elapsed(s, now), p);
    Elapsed(s, now) / p
  }

  /** The timer part of `incrementCounters`. */
  function UpdateTimer(s: State, now: int, p: period): State {
    if Elapsed(s, now) < p then s
    else
      var timer := (Time(s.csr) + Ticks(s, now, p)) % 0x1_0000_0000_0000_0000;
      var sip := if timer >= s.timeCompare then SetField(s.csr.sip, 5, 1, 1) else s.csr.sip;
      s.(csr := s.csr.(sip := sip, time := timer % 0x1_0000_0000, timeh := timer / 0x1_0000_0000), lastTime := now)
  }

  /** The cycle and instret part. */
  function CountInstruction(csr: Csrs): Csrs {
    csr.(cycleh := if csr.cycle == 0xFFFF_FFFF then Add(csr.cycleh, 1) else csr.cycleh,
         instreth := if csr.instret == 0xFFFF_FFFF then Add(csr.instreth, 1) else csr.instreth,
         cycle := Add(csr.cycle, 1),
         instret := Add(csr.instret, 1))
  }

  function IncrementCounters(s: State, now: int, p: period): State {
    var t := UpdateTimer(s, now, p);
    t.(csr := CountInstruction(t.csr))
  }
}
