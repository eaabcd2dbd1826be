/** The cycle and instret counters and register 0 over whole runs (src/rv32/hart.cpp:22-25, 619-626). */
module Counters {
  import opened Bits
  import opened Words
  import opened Csrs
  import opened HartState
  import opened Execute
  import opened Steps
  import opened Effects
  import opened Fronts
  import opened Privilege
  import opened CounterAccess
  import opened Timer

  /** `csr.cycleh:csr.cycle` */
  function Cycles(csr: Csrs): u64 {
    csr.cycleh * 0x1_0000_0000 + csr.cycle
  }

  /** `csr.instreth:csr.instret` */
  function Instructions64(csr: Csrs): u64 {
    csr.instreth * 0x1_0000_0000 + csr.instret
  }

  /** The two words of a counter, advanced as the source does: the high word before the low one wraps. */
  lemma Carry(high: u32, low: u32)
    ensures (if low == 0xFFFF_FFFF then Add(high, 1) else high) * 0x1_0000_0000 + Add(low, 1)
         == (high * 0x1_0000_0000 + low + 1) % 0x1_0000_0000_0000_0000
  {
    if low == 0xFFFF_FFFF {
      assert Add(low, 1) == 0;
      HighCarry(high);
    } else {
      assert Add(low, 1) == low + 1;
    }
  }

  lemma HighCarry(high: u32)
    ensures Add(high, 1) * 0x1_0000_0000 == (high + 1) * 0x1_0000_0000 % 0x1_0000_0000_0000_0000
  {
  }

  lemma CountsOne(s: State, now: int, p: period)
    ensures var c := IncrementCounters(s, now, p).csr;
      && Cycles(c) == (Cycles(s.csr) + 1) % 0x1_0000_0000_0000_0000
      && Instructions64(c) == (Instructions64(s.csr) + 1) % 0x1_0000_0000_0000_0000
  {
    hide SetField, Ticks, Elapsed, Time, Add;
    Carry(s.csr.cycleh, s.csr.cycle);
    Carry(s.csr.instreth, s.csr.instret);
  }

  const CYCLE: nat := 0xC00
  const CYCLEH: nat := 0xC80
  const INSTRET: nat := 0xC02
  const INSTRETH: nat := 0xC82

  ghost predicate SameCounters(c: Csrs, d: Csrs) {
    d.cycle == c.cycle && d.cycleh == c.cycleh && d.instret == c.instret && d.instreth == c.instreth
  }

  /** The two counters around an instruction, each kept unless the instruction changes one of its words. */
  ghost predicate KeepsCounters(s: State, w: u32, c: Csrs) {
    && (!Changes(s, w, CYCLE) && !Changes(s, w, CYCLEH) ==> Cycles(c) == Cycles(s.csr))
    && (!Changes(s, w, INSTRET) && !Changes(s, w, INSTRETH) ==> Instructions64(c) == Instructions64(s.csr))
  }

  lemma ExecKeepsCounters(s: State, w: u32, ch: u32)
    ensures match Exec(s, w, ch)
            case Retire(n) => KeepsCounters(s, w, n.csr)
            case Trap(_, _, at) => KeepsCounters(s, w, at.csr)
            case _ => true
  {
    hide Exec, Changes;
    ChangesIff(s, w, ch, CYCLE);
    ChangesIff(s, w, ch, CYCLEH);
    ChangesIff(s, w, ch, INSTRET);
    ChangesIff(s, w, ch, INSTRETH);
  }

  /** Trap state apart, the counters of the two states are the same. */
  lemma TrapStateCounters(s: State, t: State)
    requires OnlyTrapState(s, t)
    ensures SameCounters(s.csr, t.csr)
  {
  }

  lemma StepCounts(s: State, input: Input, p: period)
    requires Step(s, input, p).Next?
    ensures var c := Step(s, input, p).next.csr;
      && (!StepChanges(s, CYCLE, CYCLEH) ==> Cycles(c) == (Cycles(s.csr) + 1) % 0x1_0000_0000_0000_0000)
      && (!StepChanges(s, INSTRET, INSTRETH)
          ==> Instructions64(c) == (Instructions64(s.csr) + 1) % 0x1_0000_0000_0000_0000)
  {
    hide FrontOf, Exec, FrontTraps, IncrementCounters, EnterException, Changes, OnlyTrapState;
    FrontFrame(s);
    var at, w := FrontOf(s).at, FrontOf(s).instr;
    TrapStateCounters(s, at);
    ExecKeepsCounters(at, w, input.ch);
    match Exec(at, w, input.ch)
    case Retire(n) => CountsOne(n, input.now, p);
    case Trap(cause, tval, e) =>
      ExceptionMasks(e, cause, tval);
      TrapStateCounters(e, EnterException(e, cause, tval));
      CountsOne(EnterException(e, cause, tval), input.now, p);
  }

  /**
   * As long as no instruction changes them, cycle and instret count every step of a run, modulo 2^64; a step whose
   * instruction traps counts for both, and so do reads and refused writes.
   */
  lemma {:induction false} RunCounts(s: State, inputs: seq<Input>, p: period)
    requires Run(s, inputs, p).Next?
    ensures !ChangesSomewhere(s, inputs, p, CYCLE, CYCLEH) ==>
      Cycles(Run(s, inputs, p).next.csr) == (Cycles(s.csr) + |inputs|) % 0x1_0000_0000_0000_0000
    ensures !ChangesSomewhere(s, inputs, p, INSTRET, INSTRETH) ==>
      Instructions64(Run(s, inputs, p).next.csr) == (Instructions64(s.csr) + |inputs|) % 0x1_0000_0000_0000_0000
    decreases |inputs|
  {
    hide Step, Cycles, Instructions64, StepChanges, FrontOf;
    if inputs != [] {
      var n := Step(s, inputs[0], p).next;
      StepCounts(s, inputs[0], p);
      RunCounts(n, inputs[1..], p);
      ModSum(Cycles(s.csr) + 1, |inputs| - 1, 0x1_0000_0000_0000_0000);
      ModSum(Instructions64(s.csr) + 1, |inputs| - 1, 0x1_0000_0000_0000_0000);
    }
  }

  // --- instret and the instructions retired ---

  /** How many steps of the run retire their instruction. */
  ghost function Retirements(s: State, inputs: seq<Input>, p: period): nat
    requires Run(s, inputs, p).Next?
    decreases |inputs|
  {
    hide Step, FrontOf, Exec;
    if inputs == [] then 0
    else (if RetiresFirst(s, inputs[0]) then 1 else 0) + Retirements(Step(s, inputs[0], p).next, inputs[1..], p)
  }

  ghost predicate RetiresFirst(s: State, input: Input) {
    FrontOf(s).Fetched? && Exec(FrontOf(s).at, FrontOf(s).instr, input.ch).Retire?
  }

  /** How many steps of the run trap on their instruction. */
  ghost function InstructionTraps(s: State, inputs: seq<Input>, p: period): nat
    requires Run(s, inputs, p).Next?
    decreases |inputs|
  {
    hide Step, FrontOf, Exec;
    if inputs == [] then 0
    else (if TrapsFirst(s, inputs[0]) then 1 else 0) + InstructionTraps(Step(s, inputs[0], p).next, inputs[1..], p)
  }

  ghost predicate TrapsFirst(s: State, input: Input) {
    FrontOf(s).Fetched? && Exec(FrontOf(s).at, FrontOf(s).instr, input.ch).Trap?
  }

  lemma EitherFirst(s: State, input: Input, p: period)
    requires Step(s, input, p).Next?
    ensures RetiresFirst(s, input) <==> !TrapsFirst(s, input)
  {
    hide FrontOf, Exec, IncrementCounters, EnterException;
  }

  lemma {:induction false} EveryStep(s: State, inputs: seq<Input>, p: period)
    requires Run(s, inputs, p).Next?
    ensures Retirements(s, inputs, p) + InstructionTraps(s, inputs, p) == |inputs|
    decreases |inputs|
  {
    hide Step, RetiresFirst, TrapsFirst;
    if inputs != [] {
      EitherFirst(s, inputs[0], p);
      EveryStep(Step(s, inputs[0], p).next, inputs[1..], p);
    }
  }

  /** Two counts differ modulo `m` by what their difference is modulo `m`. */
  lemma SameModulo(start: nat, more: nat, less: nat, m: nat)
    requires m > 0 && less <= more
    ensures (start + more) % m == (start + less) % m <==> (more - less) % m == 0
  {
    Euclid(start + more, m);
    Euclid(start + less, m);
    Euclid(more - less, m);
    var q := (start + more) / m - (start + less) / m;
    if (start + more) % m == (start + less) % m {
      assert more - less == q * m + 0 by {
        Spread((start + more) / m, (start + less) / m, m);
      }
      DivMod(more - less, q, 0, m);
    } else if (more - less) % m == 0 {
      Shifted(start + less, (more - less) / m, m);
      assert false;
    }
  }

  lemma Spread(a: int, b: int, m: int)
    ensures (a - b) * m == a * m - b * m
  {
  }

  /**
   * Instret counts the instructions retired if and only if the number of instructions that trapped is a multiple of
   * 2^64: in any run one can observe, if and only if none trapped.
   */
  lemma InstretStandard(s: State, inputs: seq<Input>, p: period)
    requires Run(s, inputs, p).Next? && !ChangesSomewhere(s, inputs, p, INSTRET, INSTRETH)
    ensures Instructions64(Run(s, inputs, p).next.csr)
            == (Instructions64(s.csr) + Retirements(s, inputs, p)) % 0x1_0000_0000_0000_0000
       <==> InstructionTraps(s, inputs, p) % 0x1_0000_0000_0000_0000 == 0
    ensures |inputs| < 0x1_0000_0000_0000_0000 ==>
      (InstructionTraps(s, inputs, p) % 0x1_0000_0000_0000_0000 == 0 <==> InstructionTraps(s, inputs, p) == 0)
  {
    hide Run, ChangesSomewhere, Instructions64, Retirements, InstructionTraps;
    RunCounts(s, inputs, p);
    EveryStep(s, inputs, p);
    SameModulo(Instructions64(s.csr), |inputs|, Retirements(s, inputs, p), 0x1_0000_0000_0000_0000);
  }

  // --- Register 0 ---

  lemma StepZero(s: State, input: Input, p: period)
    requires s.gpr[0] == 0 && Step(s, input, p).Next?
    ensures Step(s, input, p).next.gpr[0] == 0
  {
    hide FrontOf, Exec, FrontTraps, IncrementCounters, EnterException;
    FrontFrame(s);
    var at, w := FrontOf(s).at, FrontOf(s).instr;
    ExecFrame(at, w, input.ch);
    match Exec(at, w, input.ch)
    case Retire(n) => CountersKeep(n, input.now, p);
    case Trap(cause, tval, e) =>
      ExceptionMasks(e, cause, tval);
      CountersKeep(EnterException(e, cause, tval), input.now, p);
  }

  /** Register 0 reads zero in every state reached from reset, AMOSWAP's write to rs2 included. */
  lemma {:induction false} ReachableZero(s: State, inputs: seq<Input>, p: period)
    requires s.gpr[0] == 0 && Run(s, inputs, p).Next?
    ensures Run(s, inputs, p).next.gpr[0] == 0
    decreases |inputs|
  {
    hide Step;
    if inputs != [] {
      StepZero(s, inputs[0], p);
      ReachableZero(Step(s, inputs[0], p).next, inputs[1..], p);
    }
  }
}
