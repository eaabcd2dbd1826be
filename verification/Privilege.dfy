/** The privilege mode over whole runs: only a trap raises it. */
module Privilege {
  import opened Bits
  import opened Words
  import opened PageWalk
  import opened Csrs
  import opened HartState
  import opened Execute
  import opened Steps
  import opened Effects
  import opened Fronts

  /** In user mode sstatus.spp is user. */
  ghost predicate UserClean(s: State) {
    !s.super ==> Bit(s.csr.sstatus, 8) == 0
  }

  lemma SretClean(s: State)
    ensures UserClean(Sret(s))
  {
    SretStatusBits(s.csr.sstatus);
    hide SretStatus, Bit;
  }

  /** Retiring keeps the invariant, and in user mode keeps the mode. */
  lemma RetireClean(s: State, w: u32, n: State)
    requires UserClean(s) && Frame(s, w, Retire(n))
    ensures UserClean(n) && (!s.super ==> !n.super)
  {
    SretClean(s);
    hide SretStatus, Bit, IsType, IsOp, WritesStatus;
  }

  lemma CountersKeep(s: State, now: int, p: period)
    ensures var t := IncrementCounters(s, now, p);
      && t.super == s.super && t.pc == s.pc && t.gpr == s.gpr && t.mem == s.mem && t.reservation == s.reservation
      && t.csr.sstatus == s.csr.sstatus && t.csr.sepc == s.csr.sepc && t.csr.stvec == s.csr.stvec
      && t.timeCompare == s.timeCompare && t.out == s.out
  {
    hide SetField, Ticks, Elapsed, Time;
  }

  /** One step keeps the invariant, and leaves user mode only by a trap. */
  lemma StepClean(s: State, input: Input, p: period)
    requires UserClean(s) && Step(s, input, p).Next?
    ensures UserClean(Step(s, input, p).next)
    ensures !s.super && Step(s, input, p).next.super ==> TakesTrap(s, input)
  {
    hide FrontOf, Exec, IncrementCounters, EnterException, FrontTraps, Frame, Bit;
    FrontFrame(s);
    var at, w := FrontOf(s).at, FrontOf(s).instr;
    ExecFrame(at, w, input.ch);
    match Exec(at, w, input.ch)
    case Retire(n) =>
      RetireClean(at, w, n);
      CountersKeep(n, input.now, p);
    case Trap(cause, tval, e) =>
      ExceptionMasks(e, cause, tval);
      CountersKeep(EnterException(e, cause, tval), input.now, p);
  }

  /** In every state reached from reset, user mode implies spp = user. */
  lemma {:induction false} ReachableClean(s: State, inputs: seq<Input>, p: period)
    requires UserClean(s) && Run(s, inputs, p).Next?
    ensures UserClean(Run(s, inputs, p).next)
    decreases |inputs|
  {
    hide Step, UserClean;
    if inputs != [] {
      StepClean(s, inputs[0], p);
      ReachableClean(Step(s, inputs[0], p).next, inputs[1..], p);
    }
  }

  lemma InitialClean(s: State)
    requires Initial(s)
    ensures UserClean(s)
  {
  }

  /** Some step of the run takes a trap. */
  ghost predicate TrapsSomewhere(s: State, inputs: seq<Input>, p: period)
    decreases |inputs|
  {
    hide Step, TakesTrap;
    inputs != []
    && (TakesTrap(s, inputs[0])
        || (Step(s, inputs[0], p).Next? && TrapsSomewhere(Step(s, inputs[0], p).next, inputs[1..], p)))
  }

  /** However long the run, whoever is in user mode reaches supervisor mode only through trap entry. */
  lemma {:induction false} SupervisorOnlyByTrap(s: State, inputs: seq<Input>, p: period)
    requires UserClean(s) && !s.super
    requires Run(s, inputs, p).Next? && Run(s, inputs, p).next.super
    ensures TrapsSomewhere(s, inputs, p)
    decreases |inputs|
  {
    hide Step, UserClean, TakesTrap;
    var t := Step(s, inputs[0], p).next;
    StepClean(s, inputs[0], p);
    if !t.super {
      SupervisorOnlyByTrap(t, inputs[1..], p);
    }
  }

  /**
   * From reset: a run that is in user mode after `before` and in supervisor mode after `after` more steps trapped
   * in between.
   */
  lemma UserToSupervisor(s: State, before: seq<Input>, after: seq<Input>, p: period)
    requires Initial(s)
    requires Run(s, before, p).Next? && !Run(s, before, p).next.super
    requires Run(Run(s, before, p).next, after, p).Next? && Run(Run(s, before, p).next, after, p).next.super
    ensures Bit(Run(s, before, p).next.csr.sstatus, 8) == 0
    ensures TrapsSomewhere(Run(s, before, p).next, after, p)
  {
    hide Run, TrapsSomewhere, Bit;
    InitialClean(s);
    ReachableClean(s, before, p);
    SupervisorOnlyByTrap(Run(s, before, p).next, after, p);
  }
}
