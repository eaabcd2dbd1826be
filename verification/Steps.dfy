/** One step of the hart, and runs of steps (src/rv32/hart.cpp:27-44, 593-598, src/main.cpp:106-113). */
module Steps {
  import opened Bits
  import opened Wrappers
  import opened FlatMemory
  import Sv32
  import opened PageWalk
  import opened HartState
  import opened Execute

  /** A step ends normally, with an EmulatorException, or not at all. */
  datatype Outcome = Next(next: State) | Stop(last: State) | Never

  /** The part of a step up to the fetch: the state the fetched word is executed in. */
  datatype Front = Fetched(at: State, instr: u32) | FrontStop(last: State) | FrontNever

  function AlignPc(s: State): State {
    if s.pc % 4 != 0 then EnterException(s, 0, s.pc) else s
  }

  /** Misaligned-pc check, then interrupts. */
  function Preamble(s: State): State {
    HandleInterrupts(AlignPc(s))
  }

  ghost function FetchFrom(s: State, pa: u32): Front {
    match ReadWord(s.mem, pa)
    case None => FrontStop(s)
    case Some(w) => Fetched(s, w)
  }

  /** Translate the pc; on a page fault enter the handler and try once more. */
  ghost function Fetch(s: State): Front {
    match TranslateIn(s, s.pc, Sv32.EXECUTE)
    case Phys(pa) => FetchFrom(s, pa)
    case Thrown => FrontStop(s)
    case Endless => FrontNever
    case Fault => Refetch(EnterException(s, 12, s.pc))
  }

  ghost function Refetch(s: State): Front {
    match TranslateIn(s, s.pc, Sv32.EXECUTE)
    case Phys(pa) => FetchFrom(s, pa)
    case Thrown => FrontStop(s)
    case Endless => FrontNever
    case Fault => FrontStop(s)
  }

  ghost function FrontOf(s: State): Front {
    Fetch(Preamble(s))
  }

  /** What remains after the instruction: the trap it raised, and the counters. */
  function Settle(e: Effect, now: int, p: period): Outcome {
    match e
    case Retire(next) => Next(IncrementCounters(next, now, p))
    case Trap(cause, tval, at) => Next(IncrementCounters(EnterException(at, cause, tval), now, p))
    case Abort(last) => Stop(last)
    case Hang => Never
  }

  /** `stepInstruction` */
  ghost function Step(s: State, input: Input, p: period): Outcome {
    match FrontOf(s)
    case FrontStop(last) => Stop(last)
    case FrontNever => Never
    case Fetched(at, w) => Settle(Exec(at, w, input.ch), input.now, p)
  }

  /** Steps until the inputs are used up; an exception ends the run. */
  ghost function Run(s: State, inputs: seq<Input>, p: period): Outcome
    decreases |inputs|
  {
    hide Step;
    if inputs == [] then Next(s)
    else
      match Step(s, inputs[0], p)
      case Next(t) => Run(t, inputs[1..], p)
      case Stop(last) => Stop(last)
      case Never => Never
  }

  /** The loop of `main`: it also ends when a shutdown call has cleared `isRunning`. */
  ghost function Loop(s: State, inputs: seq<Input>, p: period): Outcome
    decreases |inputs|
  {
    hide Step;
    if inputs == [] || Shutdown in s.out then Next(s)
    else
      match Step(s, inputs[0], p)
      case Next(t) => Loop(t, inputs[1..], p)
      case Stop(last) => Stop(last)
      case Never => Never
  }

  /** The loop is the run on the first `k` inputs, and leaves inputs over only after a shutdown. */
  ghost predicate Consumes(s: State, inputs: seq<Input>, p: period, k: nat)
    requires k <= |inputs|
  {
    && Loop(s, inputs, p) == Run(s, inputs[..k], p)
    && (Loop(s, inputs, p).Next? && k < |inputs| ==> Shutdown in Loop(s, inputs, p).next.out)
  }

  /** The loop does a run on some of its inputs, and leaves inputs over only after a shutdown. */
  lemma {:induction false} LoopIsRun(s: State, inputs: seq<Input>, p: period)
    ensures exists k: nat :: k <= |inputs| && Consumes(s, inputs, p, k)
    decreases |inputs|
  {
    hide Step;
    if inputs == [] || Shutdown in s.out {
      assert inputs[..0] == [] && Run(s, [], p) == Next(s);
      assert Consumes(s, inputs, p, 0);
    } else {
      match Step(s, inputs[0], p)
      case Next(t) =>
        LoopIsRun(t, inputs[1..], p);
        var k: nat :| k <= |inputs| - 1 && Consumes(t, inputs[1..], p, k);
        assert inputs[..k + 1][1..] == inputs[1..][..k] && inputs[..k + 1][0] == inputs[0];
        assert Consumes(s, inputs, p, k + 1);
      case _ =>
        assert inputs[..1][0] == inputs[0];
        assert Consumes(s, inputs, p, 1);
    }
  }

  /** CSRs are not initialised by the constructor; the mode and the reservation are. */
  ghost predicate Initial(s: State) {
    && s.super && !s.reservation && s.timeCompare == 0
    && s.gpr[0] == 0
  }

  // --- Traps taken in a step ---

  /** The number of trap entries between the start of a step and its fetch. */
  ghost function FrontTraps(s: State): nat {
    hide Translate, EnterException, EnterInterrupt;
    var a := AlignPc(s);
    var b := HandleInterrupts(a);
    (if s.pc % 4 != 0 then 1 else 0)
    + (if TakesInterrupt(a) then 1 else 0)
    + (if TranslateIn(b, b.pc, Sv32.EXECUTE).Fault? then 1 else 0)
  }

  ghost predicate TakesTrap(s: State, input: Input) {
    hide Exec, FrontOf, FrontTraps;
    FrontTraps(s) > 0 || (FrontOf(s).Fetched? && Exec(FrontOf(s).at, FrontOf(s).instr, input.ch).Trap?)
  }
}
