/** What a user program cannot change, over runs of any length without a trap. */
module UserMode {
  import opened Bits
  import opened Words
  import opened PageWalk
  import opened Csrs
  import opened Decoder
  import Encoding
  import opened HartState
  import opened Execute
  import opened Steps
  import opened Effects
  import opened Fronts
  import opened Privilege

  /** The fetched instruction is SRET. */
  ghost predicate ExecutesSret(s: State) {
    FrontOf(s).Fetched? && IsOp(FrontOf(s).instr, SRET)
  }

  /** No step of the run takes a trap. */
  ghost predicate Untrapped(s: State, inputs: seq<Input>, p: period) {
    Run(s, inputs, p).Next? && !TrapsSomewhere(s, inputs, p)
  }

  /** How many instructions of the run are SRETs. */
  ghost function Srets(s: State, inputs: seq<Input>, p: period): nat
    decreases |inputs|
  {
    hide Step, ExecutesSret;
    if inputs == [] then 0
    else
      (if ExecutesSret(s) then 1 else 0)
      + (if Step(s, inputs[0], p).Next? then Srets(Step(s, inputs[0], p).next, inputs[1..], p) else 0)
  }

  /** SRET's effect on sstatus, `n` times. */
  function SretTimes(status: u32, n: nat): u32
    decreases n
  {
    hide SretStatus;
    if n == 0 then status else SretTimes(SretStatus(status), n - 1)
  }

  /** The CSRs of a user run: the timer may raise stip, `n` SRETs have acted on sstatus, counters count. */
  ghost predicate UserKeeps(c: Csrs, d: Csrs, n: nat) {
    && d.satp == c.satp && d.stvec == c.stvec && d.sie == c.sie && d.scounteren == c.scounteren
    && d.sscratch == c.sscratch && d.sepc == c.sepc && d.scause == c.scause && d.stval == c.stval
    && (d.sip == c.sip || d.sip == SetField(c.sip, 5, 1, 1))
    && d.sstatus == SretTimes(c.sstatus, n)
  }

  lemma KeepsTrans(c: Csrs, d: Csrs, e: Csrs, k: nat, n: nat)
    requires UserKeeps(c, d, k) && UserKeeps(d, e, n) && k <= 1
    ensures UserKeeps(c, e, k + n)
  {
    hide SretStatus, Write;
    WriteAgain(c.sip, 5, 1, 1, 1);
    if k == 1 {
      assert SretTimes(c.sstatus, 1) == SretTimes(SretStatus(c.sstatus), 0);
    }
  }

  lemma CountersUser(s: State, now: int, p: period)
    ensures UserKeeps(s.csr, IncrementCounters(s, now, p).csr, 0)
  {
    hide SetField, Ticks, Elapsed, Time;
  }

  lemma RetireUser(s: State, w: u32, n: State)
    requires !s.super && Frame(s, w, Retire(n))
    ensures UserKeeps(s.csr, n.csr, if IsType(w, SYSTEM) && IsOp(w, SRET) then 1 else 0)
  {
    hide SretStatus, SetField, DecodeType, DecodeOpcode, WritesStatus;
    assert SretTimes(s.csr.sstatus, 1) == SretTimes(SretStatus(s.csr.sstatus), 0);
  }

  /** SRET is decoded in the SYSTEM class only. */
  lemma SretIsSystem(w: u32)
    ensures IsOp(w, SRET) ==> IsType(w, SYSTEM)
  {
    hide DecodeType, DecodeOpcode;
    Encoding.DecodedClass(w);
  }

  lemma StepUser(s: State, input: Input, p: period)
    requires !s.super && UserClean(s) && Step(s, input, p).Next? && !TakesTrap(s, input)
    ensures UserKeeps(s.csr, Step(s, input, p).next.csr, if ExecutesSret(s) then 1 else 0)
    ensures !Step(s, input, p).next.super && UserClean(Step(s, input, p).next)
  {
    StepClean(s, input, p);
    hide FrontOf, Exec, IncrementCounters, FrontTraps, Frame, Bit, UserKeeps, DecodeType, DecodeOpcode;
    FrontFrame(s);
    var w := FrontOf(s).instr;
    ExecFrame(s, w, input.ch);
    SretIsSystem(w);
    var n := Exec(s, w, input.ch).next;
    RetireUser(s, w, n);
    CountersUser(n, input.now, p);
    KeepsTrans(s.csr, n.csr, IncrementCounters(n, input.now, p).csr, if IsOp(w, SRET) then 1 else 0, 0);
  }

  /**
   * Over any run that starts in user mode and takes no trap, the trap and translation CSRs never change,
   * sip changes only by the timer raising stip, and sstatus exactly by the SRETs executed.
   */
  lemma {:induction false} UserRun(s: State, inputs: seq<Input>, p: period)
    requires !s.super && UserClean(s) && Untrapped(s, inputs, p)
    ensures UserKeeps(s.csr, Run(s, inputs, p).next.csr, Srets(s, inputs, p))
    ensures !Run(s, inputs, p).next.super
    decreases |inputs|
  {
    hide Step, UserClean, TakesTrap, UserKeeps, ExecutesSret;
    if inputs == [] {
      KeepsNothing(s.csr);
    } else {
      var t := Step(s, inputs[0], p).next;
      StepUser(s, inputs[0], p);
      UserRun(t, inputs[1..], p);
      KeepsTrans(s.csr, t.csr, Run(t, inputs[1..], p).next.csr,
                 if ExecutesSret(s) then 1 else 0, Srets(t, inputs[1..], p));
    }
  }

  lemma KeepsNothing(c: Csrs)
    ensures UserKeeps(c, c, 0)
  {
  }
}
