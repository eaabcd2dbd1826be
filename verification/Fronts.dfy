/** The part of a step before the instruction: alignment, interrupts, fetch (src/rv32/hart.cpp:27-44). */
module Fronts {
  import opened Bits
  import opened Words
  import opened FlatMemory
  import opened PageWalk
  import opened Csrs
  import opened HartState
  import opened Execute
  import opened Steps

  /** Trap entries touch four CSRs, the mode and the pc. */
  ghost predicate OnlyTrapState(s: State, t: State) {
    t == s.(pc := t.pc, super := t.super,
            csr := s.csr.(sstatus := t.csr.sstatus, sepc := t.csr.sepc, scause := t.csr.scause, stval := t.csr.stval))
  }

  /** A hart that no interrupt can disturb. */
  ghost predicate Masked(s: State) {
    s.super && Bit(s.csr.sstatus, 1) == 0
  }

  lemma ExceptionMasks(s: State, code: nat, tval: u32)
    ensures Masked(EnterException(s, code, tval)) && OnlyTrapState(s, EnterException(s, code, tval))
    ensures EnterException(s, code, tval).pc % 4 == 0
    ensures EnterException(s, code, tval).csr.sepc == s.pc
  {
    EnterStatusBits(s.csr.sstatus, s.super);
    VectorBaseAligned(s.csr.stvec);
    hide EnterStatus, SetCause, VectorBase, Bit;
  }

  lemma InterruptMasks(s: State, code: nat)
    requires code < 0x1000
    ensures Masked(EnterInterrupt(s, code)) && OnlyTrapState(s, EnterInterrupt(s, code))
    ensures EnterInterrupt(s, code).pc % 4 == 0
    ensures EnterInterrupt(s, code).csr.sepc == s.pc
  {
    EnterStatusBits(s.csr.sstatus, s.super);
    VectorBaseAligned(s.csr.stvec);
    CauseIs(s.csr.scause, code, true);
    hide EnterStatus, SetCause, VectorBase, VectorMode, Bit, Read;
    AlignedSum(VectorBase(s.csr.stvec), code);
  }

  lemma AlignedSum(base: u32, code: nat)
    requires base % 4 == 0 && code < 0x1000
    ensures Add(base, Wrap(4 * code)) % 4 == 0
  {
  }

  /** After the preamble the pc is aligned; the state is the old one, or a trap was entered and all is masked. */
  lemma PreambleFrame(s: State)
    ensures OnlyTrapState(s, Preamble(s)) && Preamble(s).pc % 4 == 0
    ensures s.pc % 4 == 0 && !TakesInterrupt(AlignPc(s)) ==> Preamble(s) == s
    ensures s.pc % 4 != 0 || TakesInterrupt(AlignPc(s)) ==> Masked(Preamble(s))
    ensures s.pc % 4 != 0 ==> !TakesInterrupt(AlignPc(s))
  {
    hide EnterException, EnterInterrupt, Bit, Pending;
    ExceptionMasks(s, 0, s.pc);
    var a := AlignPc(s);
    if TakesInterrupt(a) {
      InterruptMasks(a, PendingCode(a.csr).value);
    }
  }

  /** What is known of the state an instruction executes in. */
  lemma FrontFrame(s: State)
    requires FrontOf(s).Fetched?
    ensures var at := FrontOf(s).at;
      && OnlyTrapState(s, at) && at.pc % 4 == 0
      && (FrontTraps(s) == 0 ==> at == s)
      && (FrontTraps(s) > 0 ==> Masked(at))
      && FrontTraps(s) <= 2
  {
    hide EnterException, HandleInterrupts, AlignPc, Translate, ReadWord, TakesInterrupt, Masked, OnlyTrapState;
    PreambleFrame(s);
    assert HandleInterrupts(AlignPc(s)) == Preamble(s);
    ExceptionMasks(Preamble(s), 12, Preamble(s).pc);
    TrapStateTrans(s, Preamble(s), EnterException(Preamble(s), 12, Preamble(s).pc));
  }

  lemma TrapStateTrans(s: State, t: State, u: State)
    ensures OnlyTrapState(s, t) && OnlyTrapState(t, u) ==> OnlyTrapState(s, u)
  {
  }
}
