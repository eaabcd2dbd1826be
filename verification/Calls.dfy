/**
 * What ECALL does, in user mode and for the supervisor (src/rv32/hart.cpp:459-486), proved of the instruction as it
 * executes.
 */
module Calls {
  import opened Bits
  import opened Words
  import opened PageWalk
  import opened Csrs
  import opened Decoder
  import Encoding
  import CounterAccess
  import opened HartState
  import opened Execute
  import opened Effects

  /** Timer: a1 above a0, and stip is cleared. */
  ghost predicate SetsTimer(s: State, e: Effect) {
    && e.Retire?
    && e.next.timeCompare / 0x1_0000_0000 == s.gpr[11] && e.next.timeCompare % 0x1_0000_0000 == s.gpr[10]
    && (var before, after := ReadCsr(s.csr, 0x144), ReadCsr(e.next.csr, 0x144);
        Bit(after, 5) == 0 && forall k: nat | k != 5 :: Bit(after, k) == Bit(before, k))
    && e.next == s.(pc := Wrap(s.pc + 4), timeCompare := e.next.timeCompare, csr := s.csr.(sip := e.next.csr.sip))
  }

  /** The call returns `v` in a0, and `log` has been put out. */
  ghost predicate Answers(s: State, e: Effect, v: u32, log: seq<Output>) {
    && e.Retire?
    && e.next.gpr[10] == v && (forall k | 0 <= k < 32 && k != 10 :: e.next.gpr[k] == s.gpr[k])
    && e.next == s.(pc := Wrap(s.pc + 4), gpr := e.next.gpr, out := s.out + log)
  }

  ghost predicate Serves(s: State, ch: u32, e: Effect) {
    if !s.super then e == Trap(8, 0, s)
    else if s.gpr[17] == 0 then SetsTimer(s, e)
    else if s.gpr[17] == 1 then Answers(s, e, s.gpr[10], [PutChar(s.gpr[10] % 0x100)])
    else if s.gpr[17] == 2 then Answers(s, e, ch, [])
    else if s.gpr[17] == 8 then Answers(s, e, 0, [Shutdown])
    else e == Abort(s)
  }

  lemma TimerSet(s: State, ch: u32)
    requires s.gpr[17] == 0
    ensures SetsTimer(s, Sbi(s, ch))
  {
    SetBit(s.csr.sip, 5, 0);
    hide SetField, Bit, Wrap;
    TwoHalves(s.gpr[11], s.gpr[10]);
  }

  lemma TwoHalves(high: u32, low: u32)
    ensures (high * 0x1_0000_0000 + low) / 0x1_0000_0000 == high && (high * 0x1_0000_0000 + low) % 0x1_0000_0000 == low
  {
    DivMod(high * 0x1_0000_0000 + low, high, low, 0x1_0000_0000);
  }

  lemma SbiServes(s: State, ch: u32)
    requires s.super
    ensures Serves(s, ch, Sbi(s, ch))
  {
    hide SetsTimer, SetField, Wrap;
    if s.gpr[17] == 0 {
      TimerSet(s, ch);
    } else if s.gpr[17] == 2 {
      assert s.out + [] == s.out;
    }
  }

  lemma CallExec(s: State, w: u32, ch: u32)
    requires IsOp(w, ECALL)
    ensures ExecSystem(s, w, ch) == if s.super then Sbi(s, ch) else Trap(8, 0, s)
  {
    hide DecodeOpcode, Sbi;
  }

  lemma CallClass(w: u32)
    requires IsOp(w, ECALL)
    ensures IsType(w, SYSTEM)
  {
    hide DecodeType, DecodeOpcode;
    Encoding.DecodedClass(w);
  }

  /**
   * A user's ECALL traps; a supervisor's sets the timer, writes or reads a character, or shuts down, as a7 says, or
   * throws.
   */
  lemma CallOp(s: State, w: u32, ch: u32)
    requires IsOp(w, ECALL)
    ensures Serves(s, ch, Exec(s, w, ch))
  {
    hide Exec, ExecSystem, Sbi, DecodeType, DecodeOpcode, SetsTimer, Answers;
    CallClass(w);
    CounterAccess.SystemIs(s, w, ch);
    CallExec(s, w, ch);
    if s.super {
      SbiServes(s, ch);
    }
  }
}
