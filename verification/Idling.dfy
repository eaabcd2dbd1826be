/** Runs of every length exist, in user and in supervisor mode: a memory full of FENCE words. */
module Idling {
  import opened Bits
  import opened Words
  import opened Wrappers
  import opened FlatMemory
  import opened PageWalk
  import opened Csrs
  import opened Decoder
  import opened HartState
  import opened Execute
  import opened Steps
  import opened Privilege
  import Datapath

  const FENCE_WORD: u32 := 0x0000_000F

  /** The memory that holds FENCE at every word address. */
  ghost function Fences(): Bytes {
    imap a: u32 :: if a % 4 == 0 then 0xF else 0
  }

  lemma FenceEverywhere(a: u32)
    requires a % 4 == 0
    ensures ReadWord(Fences(), a) == Some(FENCE_WORD)
  {
    Offsets(a);
  }

  /** Nothing to disturb the hart, and FENCE everywhere. */
  ghost predicate Idle(s: State) {
    Calm(s) && s.mem == Fences()
  }

  lemma FenceType()
    ensures DecodeType(FENCE_WORD) == Some(OP_FENCE)
  {
  }

  /** An aligned pc, paging off and no interrupt enabled: the step fetches at the pc, without a trap. */
  ghost predicate Calm(s: State) {
    && s.pc % 4 == 0 && Bit(s.csr.satp, 31) == 0
    && Bit(s.csr.sie, 1) == 0 && Bit(s.csr.sie, 5) == 0 && Bit(s.csr.sie, 9) == 0
  }

  lemma CalmFront(s: State, w: u32)
    requires Calm(s) && ReadWord(s.mem, s.pc) == Some(w)
    ensures FrontOf(s) == Fetched(s, w) && FrontTraps(s) == 0
  {
    hide Bit, Walk, EndOf, Conclude, ReadWord, EnterException, EnterInterrupt;
  }

  lemma IdleFront(s: State)
    requires Idle(s)
    ensures FrontOf(s) == Fetched(s, FENCE_WORD) && FrontTraps(s) == 0
  {
    FenceEverywhere(s.pc);
    CalmFront(s, FENCE_WORD);
    hide Bit, ReadWord, Fences, FrontOf, FrontTraps;
  }

  lemma IdleExec(s: State, ch: u32)
    ensures Exec(s, FENCE_WORD, ch) == Retire(Advance(s))
  {
    FenceType();
    hide DecodeType, ExecLoad, ExecStore, ExecBranch, ExecJump, ExecAmo, ExecOpImm, ExecOp, ExecSystem, ExecUpper;
  }

  lemma AdvanceAligned(pc: u32)
    requires pc % 4 == 0
    ensures Add(pc, 4) % 4 == 0
  {
  }

  lemma IdleStep(s: State, input: Input, p: period)
    requires Idle(s)
    ensures Step(s, input, p) == Next(IncrementCounters(Advance(s), input.now, p))
    ensures Idle(Step(s, input, p).next) && Step(s, input, p).next.pc == Add(s.pc, 4)
    ensures Step(s, input, p).next.super == s.super
  {
    IdleFront(s);
    IdleExec(s, input.ch);
    AdvanceAligned(s.pc);
    CountersKeep(Advance(s), input.now, p);
    CountersKeepControl(Advance(s), input.now, p);
    hide FrontOf, Exec, IncrementCounters, Bit, Fences, Add;
  }

  lemma CountersKeepControl(s: State, now: int, p: period)
    ensures var t := IncrementCounters(s, now, p); t.csr.satp == s.csr.satp && t.csr.sie == s.csr.sie
  {
    hide SetField, Ticks, Elapsed, Time;
  }

  /** Whatever the inputs, an idle hart completes the whole run, one word further every step, in its mode. */
  lemma {:induction false} IdleRun(s: State, inputs: seq<Input>, p: period)
    requires Idle(s)
    ensures Run(s, inputs, p).Next? && var t := Run(s, inputs, p).next;
      Idle(t) && t.super == s.super && t.pc == Wrap(s.pc + 4 * |inputs|)
    decreases |inputs|
  {
    hide Step, Idle;
    if inputs != [] {
      IdleStep(s, inputs[0], p);
      var n := Step(s, inputs[0], p).next;
      IdleRun(n, inputs[1..], p);
      WrapSum(s.pc, 4 * (|inputs| - 1));
    }
  }

  lemma WrapSum(pc: u32, n: nat)
    ensures Wrap(Add(pc, 4) + n) == Wrap(pc + 4 + n)
  {
  }

  /** Such harts exist in either mode, with spp clear. */
  lemma IdleExists(super: bool)
    ensures exists s: State :: Idle(s) && s.super == super && s.gpr[0] == 0 && UserClean(s)
  {
    ZeroBits();
    hide Bit, Fences;
    var csr := Csrs(0, 0, 0, 0, 0, 0, 0, 0, 0, 0, 0, 0, 0, 0, 0, 0);
    var gpr: Registers := Zeros();
    var s := State(gpr, csr, 0, super, false, 0, 0, Fences(), []);
    assert Idle(s);
    assert UserClean(s);
  }

  function Zeros(): (g: Registers)
    ensures forall k | 0 <= k < 32 :: g[k] == 0
  {
    seq(32, _ => 0)
  }

  lemma ZeroBits()
    ensures Bit(0, 31) == 0 && Bit(0, 1) == 0 && Bit(0, 5) == 0 && Bit(0, 9) == 0 && Bit(0, 8) == 0
  {
    Datapath.ZeroBit(31);
    Datapath.ZeroBit(1);
    Datapath.ZeroBit(5);
    Datapath.ZeroBit(9);
    Datapath.ZeroBit(8);
    hide Read;
  }

}
