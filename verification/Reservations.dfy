/** LR and SC over whole runs. */
module Reservations {
  import opened Bits
  import opened FlatMemory
  import Sv32
  import opened Csrs
  import opened Instructions
  import opened Decoder
  import Encoding
  import opened HartState
  import opened Execute
  import opened Steps
  import opened Effects
  import opened Fronts
  import opened Privilege

  /** What becomes of the reservation flag when an instruction retires. */
  ghost function FlagAfter(flag: bool, w: u32): bool {
    if IsOp(w, LR_W) then true else if IsOp(w, SC_W) then false else flag
  }

  lemma AmoFlag(s: State, w: u32, op: Opcode, pa: u32, val: u32)
    requires IsOp(w, op) && Atomic(s, w, op, pa, val).Retire?
    ensures Atomic(s, w, op, pa, val).next.reservation == FlagAfter(s.reservation, w)
    ensures op == SC_W && !s.reservation ==> Atomic(s, w, op, pa, val) == Retire(Advance(SetRegister(s, Rd(w), 1)))
  {
    hide DecodeOpcode, WriteWord, Rd, Rs2, ReadModifyWrite;
    if op != LR_W && op != SC_W {
      RmwFlag(s, w, op, pa, val);
    }
  }

  lemma RmwFlag(s: State, w: u32, op: Opcode, pa: u32, val: u32)
    ensures var e := ReadModifyWrite(s, w, op, pa, val); e.Retire? ==> e.next.reservation == s.reservation
  {
    hide WriteWord, Rmw, Rd, Rs2;
  }

  lemma ExecAmoFlag(s: State, w: u32)
    requires ExecAmo(s, w).Retire?
    ensures ExecAmo(s, w).next.reservation == FlagAfter(s.reservation, w)
    ensures IsOp(w, SC_W) && !s.reservation ==> ExecAmo(s, w).next == Advance(SetRegister(s, Rd(w), 1))
  {
    hide DecodeOpcode, TranslateIn, ReadWord, Rs1, Rd, Atomic, FlagAfter;
    var op, va := DecodeOpcode(w).value, GetRegister(s, Rs1(w));
    var t := TranslateIn(s, va, if op == LR_W then Sv32.READ else Sv32.WRITE);
    AmoFlag(s, w, op, t.pa, ReadWord(s.mem, t.pa).value);
  }

  lemma ReservationOpsAreAmo(w: u32)
    ensures IsOp(w, LR_W) || IsOp(w, SC_W) ==> IsType(w, AMO)
  {
    hide DecodeType, DecodeOpcode;
    Encoding.DecodedClass(w);
  }

  /**
   * Retiring sets the flag for LR, clears it for SC, and leaves it alone otherwise; traps leave it alone.
   * An SC without a reservation only puts 1 in rd.
   */
  lemma ExecFlag(s: State, w: u32, ch: u32)
    ensures match Exec(s, w, ch)
            case Retire(n) =>
              && n.reservation == FlagAfter(s.reservation, w)
              && (IsOp(w, SC_W) && !s.reservation ==> n == Advance(SetRegister(s, Rd(w), 1)))
            case Trap(_, _, at) => at.reservation == s.reservation
            case _ => true
  {
    hide DecodeType, DecodeOpcode, ExecLoad, ExecStore, ExecBranch, ExecJump, ExecAmo, ExecOpImm, ExecOp;
    hide ExecSystem, ExecUpper;
    ExecFrame(s, w, ch);
    ReservationOpsAreAmo(w);
    if IsType(w, AMO) {
      if ExecAmo(s, w).Retire? {
        ExecAmoFlag(s, w);
      }
    } else {
      hide Exec, Rd;
    }
  }

  /** The step completes an instruction. */
  ghost predicate Completes(s: State, input: Input, op: Opcode) {
    FrontOf(s).Fetched? && IsOp(FrontOf(s).instr, op) && Exec(FrontOf(s).at, FrontOf(s).instr, input.ch).Retire?
  }

  /** The step completes an SC that stores. */
  ghost predicate StoringSc(s: State, input: Input) {
    Completes(s, input, SC_W) && s.reservation
  }

  lemma StepFlag(s: State, input: Input, p: period)
    requires Step(s, input, p).Next?
    ensures Step(s, input, p).next.reservation
         == if Completes(s, input, LR_W) then true else if StoringSc(s, input) then false else s.reservation
  {
    hide FrontOf, Exec, FrontTraps, IncrementCounters, DecodeOpcode;
    FrontFrame(s);
    var at, w := FrontOf(s).at, FrontOf(s).instr;
    ExecFlag(at, w, input.ch);
    match Exec(at, w, input.ch)
    case Retire(n) => CountersKeep(n, input.now, p);
    case Trap(cause, tval, e) => TrapKeepsFlag(e, cause, tval, input, p);
  }

  lemma TrapKeepsFlag(e: State, cause: nat, tval: u32, input: Input, p: period)
    ensures IncrementCounters(EnterException(e, cause, tval), input.now, p).reservation == e.reservation
  {
    CountersKeep(EnterException(e, cause, tval), input.now, p);
    hide IncrementCounters, EnterStatus, SetCause;
  }

  /** A failing SC changes no memory: the step's only effects are rd = 1, the pc and the counters. */
  lemma FailingSc(s: State, input: Input, p: period)
    requires Completes(s, input, SC_W) && !s.reservation
    ensures var at := FrontOf(s).at;
      Step(s, input, p) == Next(IncrementCounters(Advance(SetRegister(at, Rd(FrontOf(s).instr), 1)), input.now, p))
      && Step(s, input, p).next.mem == s.mem
  {
    hide FrontOf, Exec, FrontTraps, IncrementCounters, DecodeOpcode, Rd;
    FrontFrame(s);
    var at, w := FrontOf(s).at, FrontOf(s).instr;
    ExecFlag(at, w, input.ch);
    CountersKeep(Advance(SetRegister(at, Rd(w), 1)), input.now, p);
  }

  ghost function Count(b: bool): nat {
    if b then 1 else 0
  }

  ghost function Lrs(s: State, inputs: seq<Input>, p: period): nat
    decreases |inputs|
  {
    hide Step, Completes;
    if inputs == [] then 0
    else
      Count(Completes(s, inputs[0], LR_W))
      + (if Step(s, inputs[0], p).Next? then Lrs(Step(s, inputs[0], p).next, inputs[1..], p) else 0)
  }

  ghost function StoringScs(s: State, inputs: seq<Input>, p: period): nat
    decreases |inputs|
  {
    hide Step, StoringSc;
    if inputs == [] then 0
    else
      Count(StoringSc(s, inputs[0]))
      + (if Step(s, inputs[0], p).Next? then StoringScs(Step(s, inputs[0], p).next, inputs[1..], p) else 0)
  }

  /** Storing SCs never outnumber the LRs, counting a reservation already held; one more LR than SCs leaves one held. */
  lemma {:induction false} ScsBounded(s: State, inputs: seq<Input>, p: period)
    ensures StoringScs(s, inputs, p) <= Lrs(s, inputs, p) + Count(s.reservation)
    ensures Run(s, inputs, p).Next? && Run(s, inputs, p).next.reservation ==>
              StoringScs(s, inputs, p) + 1 <= Lrs(s, inputs, p) + Count(s.reservation)
    decreases |inputs|
  {
    hide Step, Completes;
    if inputs != [] && Step(s, inputs[0], p).Next? {
      StepFlag(s, inputs[0], p);
      ScsBounded(Step(s, inputs[0], p).next, inputs[1..], p);
    }
  }

  /** Since the last storing SC, or the start, the run has completed an LR. */
  ghost predicate LrSinceSc(s: State, inputs: seq<Input>, p: period, since: bool)
    requires Run(s, inputs, p).Next?
    decreases |inputs|
  {
    hide Step, Completes, StoringSc;
    if inputs == [] then since
    else
      var now := if Completes(s, inputs[0], LR_W) then true else if StoringSc(s, inputs[0]) then false else since;
      LrSinceSc(Step(s, inputs[0], p).next, inputs[1..], p, now)
  }

  lemma {:induction false} FlagIsLrSinceSc(s: State, inputs: seq<Input>, p: period)
    requires Run(s, inputs, p).Next?
    ensures Run(s, inputs, p).next.reservation == LrSinceSc(s, inputs, p, s.reservation)
    decreases |inputs|
  {
    hide Step, Completes, StoringSc;
    if inputs != [] {
      StepFlag(s, inputs[0], p);
      FlagIsLrSinceSc(Step(s, inputs[0], p).next, inputs[1..], p);
    }
  }

  /**
   * From reset: an SC stores only if an LR has completed before it with no storing SC in between, and
   * storing SCs never outnumber LRs.
   */
  lemma ScNeedsLr(s: State, inputs: seq<Input>, input: Input, p: period)
    requires Initial(s) && Run(s, inputs, p).Next?
    ensures StoringSc(Run(s, inputs, p).next, input) ==> LrSinceSc(s, inputs, p, false)
    ensures StoringScs(s, inputs, p) <= Lrs(s, inputs, p)
  {
    hide Run, LrSinceSc, Completes, Lrs, StoringScs;
    FlagIsLrSinceSc(s, inputs, p);
    ScsBounded(s, inputs, p);
  }
}
