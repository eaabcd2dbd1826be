/** The time counter over whole runs (src/rv32/hart.cpp:600-617). */
module Timer {
  import opened Bits
  import opened Words
  import opened PageWalk
  import opened Csrs
  import opened Decoder
  import opened HartState
  import opened Execute
  import opened Steps
  import opened Effects
  import opened Fronts
  import opened CounterAccess

  /** The ticks a step adds to the time counter. */
  function StepTicks(s: State, now: int, p: period): nat {
    if Elapsed(s, now) < p then 0 else Ticks(s, now, p)
  }

  /** The ticks added over a run. */
  ghost function RunTicks(s: State, inputs: seq<Input>, p: period): nat
    decreases |inputs|
  {
    hide Step, StepTicks;
    if inputs == [] || !Step(s, inputs[0], p).Next? then 0
    else StepTicks(s, inputs[0].now, p) + RunTicks(Step(s, inputs[0], p).next, inputs[1..], p)
  }

  /** Clock readings that never go back, over less than 2^64 nanoseconds. */
  ghost predicate Monotone(from: int, until: int, inputs: seq<Input>)
    decreases |inputs|
  {
    && from <= until < from + 0x1_0000_0000_0000_0000
    && if inputs == [] then until - from >= 0
       else from <= inputs[0].now && Monotone(inputs[0].now, until, inputs[1..])
  }

  /** No instruction moves `lastTime`. */
  lemma FrameKeepsLast(at: State, w: u32, e: Effect)
    requires Frame(at, w, e)
    ensures e.Retire? ==> e.next.lastTime == at.lastTime
    ensures e.Trap? ==> e.at.lastTime == at.lastTime
  {
    hide IsType, IsOp, WritesStatus;
  }

  lemma CountersLast(s: State, now: int, p: period)
    ensures IncrementCounters(s, now, p).lastTime == if Elapsed(s, now) < p then s.lastTime else now
  {
    hide SetField, Ticks, Elapsed, Time;
  }

  lemma ExecKeepsClock(at: State, w: u32, input: Input, p: period)
    requires Settle(Exec(at, w, input.ch), input.now, p).Next?
    ensures var t := Settle(Exec(at, w, input.ch), input.now, p).next;
      t.lastTime == if Elapsed(at, input.now) < p then at.lastTime else input.now
  {
    hide Exec, Frame, IncrementCounters, EnterException;
    ExecFrame(at, w, input.ch);
    FrameKeepsLast(at, w, Exec(at, w, input.ch));
    match Exec(at, w, input.ch)
    case Retire(n) => CountersLast(n, input.now, p);
    case Trap(cause, tval, e) =>
      ExceptionMasks(e, cause, tval);
      CountersLast(EnterException(e, cause, tval), input.now, p);
  }

  lemma StepClock(s: State, input: Input, p: period)
    requires Step(s, input, p).Next?
    ensures Step(s, input, p).next.lastTime == if Elapsed(s, input.now) < p then s.lastTime else input.now
  {
    hide FrontOf, Exec, FrontTraps, Settle;
    FrontFrame(s);
    ExecKeepsClock(FrontOf(s).at, FrontOf(s).instr, input, p);
  }

  /** One update: the ticks are the whole periods elapsed, and less than one period stays behind. */
  lemma OneUpdate(elapsed: nat, p: period, t: nat)
    requires t == if elapsed < p then 0 else elapsed / p
    ensures t * p <= elapsed && (t > 0 ==> elapsed < 2 * t * p) && (t == 0 ==> elapsed < p)
  {
    if elapsed >= p {
      Euclid(elapsed, p);
      WholePeriods(elapsed, p, t, elapsed % p);
    }
  }

  lemma WholePeriods(elapsed: nat, p: nat, t: int, r: nat)
    requires elapsed == t * p + r && r < p <= elapsed
    ensures t > 0 && t * p <= elapsed < 2 * t * p
  {
    MulAtLeast(t, p);
    if t == 0 {
      assert false;
    }
    assert 2 * t * p == t * p + t * p;
  }

  lemma ElapsedIs(s: State, now: int)
    requires s.lastTime <= now < s.lastTime + 0x1_0000_0000_0000_0000
    ensures Elapsed(s, now) == now - s.lastTime
  {
  }

  /** Chaining two stretches of time. */
  lemma Chain(t1: nat, e1: nat, t2: nat, e2: nat, p: period)
    requires t1 * p <= e1 && t2 * p <= e2
    requires t1 > 0 ==> e1 < 2 * t1 * p
    requires t2 > 0 ==> e2 < 2 * t2 * p
    requires t1 == 0 ==> e1 == 0
    requires t2 == 0 ==> e2 == 0
    ensures (t1 + t2) * p <= e1 + e2 && (t1 + t2 > 0 ==> e1 + e2 < 2 * (t1 + t2) * p)
    ensures t1 + t2 == 0 ==> e1 + e2 == 0
  {
    assert (t1 + t2) * p == t1 * p + t2 * p;
    assert 2 * (t1 + t2) * p == 2 * t1 * p + 2 * t2 * p;
  }

  /**
   * With a monotone clock, T ticks and E nanoseconds between the first and the current `lastTime`:
   * T * p <= E, and E < 2 * T * p once there is a tick.
   */
  lemma {:induction false} RunClock(s: State, inputs: seq<Input>, until: int, p: period)
    requires Monotone(s.lastTime, until, inputs) && Run(s, inputs, p).Next?
    ensures var t, e := RunTicks(s, inputs, p), Run(s, inputs, p).next.lastTime - s.lastTime;
      && 0 <= e
      && t * p <= e && (t > 0 ==> e < 2 * t * p) && (t == 0 ==> e == 0)
    ensures Run(s, inputs, p).next.lastTime <= until
    decreases |inputs|
  {
    hide Step, Elapsed, Ticks;
    if inputs != [] {
      var now, n := inputs[0].now, Step(s, inputs[0], p).next;
      StepClock(s, inputs[0], p);
      MonotoneReach(now, until, inputs[1..]);
      ElapsedIs(s, now);
      TicksAre(s, now, p);
      OneUpdate(now - s.lastTime, p, StepTicks(s, now, p));
      MonotoneEarlier(n.lastTime, now, until, inputs[1..]);
      RunClock(n, inputs[1..], until, p);
      var e1, e2 := n.lastTime - s.lastTime, Run(n, inputs[1..], p).next.lastTime - n.lastTime;
      Chain(StepTicks(s, now, p), e1, RunTicks(n, inputs[1..], p), e2, p);
    }
  }

  lemma TicksAre(s: State, now: int, p: period)
    ensures StepTicks(s, now, p) == if Elapsed(s, now) < p then 0 else Elapsed(s, now) / p
  {
  }

  lemma MonotoneReach(from: int, until: int, inputs: seq<Input>)
    requires Monotone(from, until, inputs)
    ensures from <= until
  {
  }

  /** A clock that has not gone back since `now` has not gone back since an earlier time either. */
  lemma MonotoneEarlier(from: int, now: int, until: int, inputs: seq<Input>)
    requires from <= now && until < from + 0x1_0000_0000_0000_0000 && Monotone(now, until, inputs)
    ensures Monotone(from, until, inputs)
  {
  }

  /** After every step, less than one period has passed since `lastTime`. */
  lemma LessThanPeriodBehind(s: State, input: Input, p: period)
    requires Step(s, input, p).Next?
    requires s.lastTime <= input.now < s.lastTime + 0x1_0000_0000_0000_0000
    ensures 0 <= input.now - Step(s, input, p).next.lastTime < p
  {
    hide Step;
    StepClock(s, input, p);
  }

  // --- The value of the time counter ---

  const TIME: nat := 0xC01
  const TIMEH: nat := 0xC81

  /** The time counter around an instruction that changes neither of its words. */
  ghost predicate KeepsTime(s: State, e: Effect) {
    match e
    case Retire(n) => Time(n.csr) == Time(s.csr)
    case Trap(_, _, at) => Time(at.csr) == Time(s.csr)
    case _ => true
  }

  lemma ExecKeepsTime(s: State, w: u32, ch: u32)
    requires !Changes(s, w, TIME) && !Changes(s, w, TIMEH)
    ensures KeepsTime(s, Exec(s, w, ch))
  {
    hide Exec, Changes;
    ChangesIff(s, w, ch, TIME);
    ChangesIff(s, w, ch, TIMEH);
  }

  lemma UpdateTime(s: State, now: int, p: period)
    ensures Time(IncrementCounters(s, now, p).csr) == (Time(s.csr) + StepTicks(s, now, p)) % 0x1_0000_0000_0000_0000
  {
    hide SetField, Ticks, Elapsed;
    var timer := (Time(s.csr) + Ticks(s, now, p)) % 0x1_0000_0000_0000_0000;
    assert timer / 0x1_0000_0000 * 0x1_0000_0000 + timer % 0x1_0000_0000 == timer;
  }

  lemma StepTime(s: State, input: Input, p: period)
    requires Step(s, input, p).Next? && !StepChanges(s, TIME, TIMEH)
    ensures Time(Step(s, input, p).next.csr) == (Time(s.csr) + StepTicks(s, input.now, p)) % 0x1_0000_0000_0000_0000
  {
    hide FrontOf, Exec, FrontTraps, IncrementCounters, Time, Frame, EnterException, Changes, StepTicks;
    FrontFrame(s);
    var at, w := FrontOf(s).at, FrontOf(s).instr;
    ExecFrame(at, w, input.ch);
    ExecKeepsTime(at, w, input.ch);
    TrapStateTime(s, at, input.now, p);
    match Exec(at, w, input.ch)
    case Retire(n) =>
      UpdateTime(n, input.now, p);
      FrameTicks(at, w, Exec(at, w, input.ch), n, input.now, p);
    case Trap(cause, tval, e) =>
      UpdateTime(EnterException(e, cause, tval), input.now, p);
      FrameTicks(at, w, Exec(at, w, input.ch), e, input.now, p);
      ExceptionMasks(e, cause, tval);
      TrapStateTime(e, EnterException(e, cause, tval), input.now, p);
  }

  lemma TrapStateTime(s: State, t: State, now: int, p: period)
    ensures OnlyTrapState(s, t) ==> Time(t.csr) == Time(s.csr) && StepTicks(t, now, p) == StepTicks(s, now, p)
  {
  }

  /** The elapsed time an update sees does not depend on the instruction before it. */
  lemma FrameTicks(at: State, w: u32, e: Effect, n: State, now: int, p: period)
    requires Frame(at, w, e) && (e == Retire(n) || (e.Trap? && e.at == n))
    ensures StepTicks(n, now, p) == StepTicks(at, now, p)
  {
    hide DecodeType, DecodeOpcode, WritesStatus, SretStatus;
  }

  lemma ModSum(a: int, b: int, m: nat)
    requires m > 0
    ensures (a % m + b) % m == (a + b) % m
  {
    var k := a / m;
    Euclid(a, m);
    Shifted(a % m + b, k, m);
  }

  lemma Shifted(x: int, k: int, m: nat)
    requires m > 0
    ensures (x + k * m) % m == x % m
  {
    Euclid(x, m);
    Euclid(x + k * m, m);
    var d := (x + k * m) / m - x / m - k;
    assert d * m == x % m - (x + k * m) % m;
    MulAtLeast(d, m);
  }

  /**
   * As long as no instruction changes it, the time counter is its start plus the ticks, modulo 2^64; reads and refused
   * writes may be among the instructions.
   */
  lemma {:induction false} RunTime(s: State, inputs: seq<Input>, p: period)
    requires Run(s, inputs, p).Next? && !ChangesSomewhere(s, inputs, p, TIME, TIMEH)
    ensures Time(Run(s, inputs, p).next.csr) == (Time(s.csr) + RunTicks(s, inputs, p)) % 0x1_0000_0000_0000_0000
    decreases |inputs|
  {
    hide Step, Time, StepTicks, StepChanges, FrontOf;
    if inputs != [] {
      var n := Step(s, inputs[0], p).next;
      StepFetches(s, inputs[0], p);
      StepTime(s, inputs[0], p);
      RunTime(n, inputs[1..], p);
      ModSum(Time(s.csr) + StepTicks(s, inputs[0].now, p), RunTicks(n, inputs[1..], p), 0x1_0000_0000_0000_0000);
    }
  }

  lemma StepFetches(s: State, input: Input, p: period)
    ensures Step(s, input, p).Next? ==> FrontOf(s).Fetched?
  {
    hide FrontOf, Exec, IncrementCounters;
  }

  /** An update that brings the time to timeCompare raises stip; no update clears it. */
  lemma TimerRaises(s: State, now: int, p: period)
    ensures var t := IncrementCounters(s, now, p);
      && ((Elapsed(s, now) >= p && (Time(s.csr) + Ticks(s, now, p)) % 0x1_0000_0000_0000_0000 >= s.timeCompare)
          ==> Bit(t.csr.sip, 5) == 1)
      && (Bit(s.csr.sip, 5) == 1 ==> Bit(t.csr.sip, 5) == 1)
      && (forall k: nat | k != 5 :: Bit(t.csr.sip, k) == Bit(s.csr.sip, k))
      && (Bit(t.csr.sip, 5) != Bit(s.csr.sip, 5) ==> Time(t.csr) >= s.timeCompare)
  {
    SetBit(s.csr.sip, 5, 1);
    UpdateTime(s, now, p);
    hide SetField, Bit, Ticks, Elapsed, Time;
  }
}
