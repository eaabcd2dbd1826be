/** Which memory a user program can change in a whole run with paging on, and when its address space stays fixed. */
module IsolationRuns {
  import opened Bits
  import opened Words
  import opened FlatMemory
  import Sv32
  import opened PageWalk
  import opened Csrs
  import opened HartState
  import opened Execute
  import opened Steps
  import opened Privilege
  import opened UserMode
  import opened Isolation

  /** At some step of the run the page tables grant the frame to the address that the step's instruction writes to. */
  ghost predicate GrantedSomewhere(s: State, inputs: seq<Input>, p: period, frame: nat)
    decreases |inputs|
  {
    hide Step, GrantedNow;
    inputs != []
    && (GrantedNow(s, frame)
        || (Step(s, inputs[0], p).Next? && GrantedSomewhere(Step(s, inputs[0], p).next, inputs[1..], p, frame)))
  }

  ghost predicate GrantedNow(s: State, frame: nat) {
    hide Granted;
    FrontOf(s).Fetched? && Granted(s, Target(s, FrontOf(s).instr), frame)
  }

  lemma StepChangesGranted(s: State, input: Input, p: period)
    requires !s.super && Bit(s.csr.satp, 31) == 1 && Step(s, input, p).Next? && !TakesTrap(s, input)
    ensures var t := Step(s, input, p).next;
      t.mem.Keys == s.mem.Keys
      && forall b: u32 | b in s.mem && t.mem[b] != s.mem[b] :: GrantedNow(s, b / 0x1000)
  {
    hide Step, FrontOf, FrontTraps, Exec, Granted, Target, Bit;
    StepFetched(s, input, p);
    StepIsolated(s, input, p);
  }

  lemma StepFetched(s: State, input: Input, p: period)
    requires Step(s, input, p).Next?
    ensures FrontOf(s).Fetched?
  {
    hide FrontOf, Exec, IncrementCounters, EnterException;
  }

  /**
   * Over any run that starts in user mode with paging on and takes no trap, every byte that differs lies in a frame
   * that a leaf PTE with V, R, W, U, A and D set named for the program at some step of the run.
   */
  lemma {:induction false} RunIsolated(s: State, inputs: seq<Input>, p: period)
    requires !s.super && UserClean(s) && Bit(s.csr.satp, 31) == 1 && Untrapped(s, inputs, p)
    ensures var t := Run(s, inputs, p).next;
      t.mem.Keys == s.mem.Keys
      && forall b: u32 | b in s.mem && t.mem[b] != s.mem[b] :: GrantedSomewhere(s, inputs, p, b / 0x1000)
    decreases |inputs|
  {
    hide Step, UserClean, TakesTrap, GrantedNow, Bit, ExecutesSret;
    if inputs != [] {
      var n := Step(s, inputs[0], p).next;
      StepUser(s, inputs[0], p);
      StepChangesGranted(s, inputs[0], p);
      RunIsolated(n, inputs[1..], p);
    }
  }

  // --- The translation of the program's own addresses ---

  /** The byte is part of a PTE read in the first `n` iterations of the walk. */
  ghost predicate Consults(m: Bytes, va: u32, base: nat, i: u32, n: nat, a: u32)
    decreases n
  {
    hide Iterate;
    n > 0
    && (a in Span(PteAddress(va, base, i), 4)
        || match Iterate(m, va, base, i)
           case Break(_) => false
           case Continue(base') => Consults(m, va, base', Decrement(i), n - 1, a))
  }

  ghost predicate SameByte(m: Bytes, m': Bytes, a: u32) {
    (a in m <==> a in m') && (a in m ==> m[a] == m'[a])
  }

  lemma SamePte(m: Bytes, m': Bytes, a: u32)
    requires forall b | b in Span(a, 4) :: SameByte(m, m', b)
    ensures ReadWord(m, a) == ReadWord(m', a)
  {
    Spans(a);
    hide Span;
    assert SameByte(m, m', a) && SameByte(m, m', Add(a, 1));
    assert SameByte(m, m', Add(a, 2)) && SameByte(m, m', Add(Add(a, 2), 1));
  }

  /** The walk depends on no other byte. */
  lemma {:induction false} WalkDepends(m: Bytes, m': Bytes, va: u32, base: nat, i: u32, n: nat)
    requires forall a: u32 | Consults(m, va, base, i, n, a) :: SameByte(m, m', a)
    ensures Walk(m', va, base, i, n) == Walk(m, va, base, i, n)
    decreases n
  {
    hide Iterate, SameByte, PteAddress;
    if n > 0 {
      SamePte(m, m', PteAddress(va, base, i));
      SameIterate(m, m', va, base, i);
      match Iterate(m, va, base, i)
      case Break(_) =>
      case Continue(base') =>
        forall a: u32 | Consults(m, va, base', Decrement(i), n - 1, a)
          ensures SameByte(m, m', a)
        {
          assert Consults(m, va, base, i, n, a);
        }
        WalkDepends(m, m', va, base', Decrement(i), n - 1);
    }
  }

  lemma SameIterate(m: Bytes, m': Bytes, va: u32, base: nat, i: u32)
    requires ReadWord(m, PteAddress(va, base, i)) == ReadWord(m', PteAddress(va, base, i))
    ensures Iterate(m, va, base, i) == Iterate(m', va, base, i)
  {
    hide Read, ReadWord, PteAddress, TableOf;
  }

  lemma SameEnds(m: Bytes, m': Bytes, va: u32, base: nat, i: u32)
    requires forall n: nat :: Walk(m', va, base, i, n) == Walk(m, va, base, i, n)
    ensures Ends(m, va, base, i) <==> Ends(m', va, base, i)
    ensures Ends(m, va, base, i) ==> EndOf(m, va, base, i) == EndOf(m', va, base, i)
  {
    hide Walk, EndOf;
    if Ends(m, va, base, i) {
      var n: nat :| Walk(m, va, base, i, n).Some?;
      EndIs(m, va, base, i, n);
      EndIs(m', va, base, i, n);
    }
  }

  /** SRET leaves SUM and MXR alone. */
  lemma {:induction false} SretsKeep(status: u32, n: nat, k: nat)
    requires k !in {1, 5, 8}
    ensures Bit(SretTimes(status, n), k) == Bit(status, k)
    decreases n
  {
    hide SretStatus, Bit;
    if n > 0 {
      SretStatusBits(status);
      SretsKeep(SretStatus(status), n - 1, k);
    }
  }

  /**
   * If no byte of a PTE consulted for an address lies in a frame granted during the run, the address translates
   * after the run as it did before, for every kind of access.
   */
  lemma RunKeepsTranslation(s: State, inputs: seq<Input>, p: period, va: u32, access: Sv32.Access)
    requires !s.super && UserClean(s) && Bit(s.csr.satp, 31) == 1 && Untrapped(s, inputs, p)
    requires forall n: nat, a: u32 | Consults(s.mem, va, Root(s.csr.satp), 1, n, a) ::
               !GrantedSomewhere(s, inputs, p, a / 0x1000)
    ensures TranslateIn(Run(s, inputs, p).next, va, access) == TranslateIn(s, va, access)
  {
    hide Run, TrapsSomewhere, Consults, GrantedSomewhere, Walk, Ends, EndOf, Conclude, Bit, Root, SretTimes, Srets;
    RunIsolated(s, inputs, p);
    UserRun(s, inputs, p);
    var t, base := Run(s, inputs, p).next, Root(s.csr.satp);
    forall n: nat
      ensures Walk(t.mem, va, base, 1, n) == Walk(s.mem, va, base, 1, n)
    {
      forall a: u32 | Consults(s.mem, va, base, 1, n, a)
        ensures SameByte(s.mem, t.mem, a)
      {
      }
      WalkDepends(s.mem, t.mem, va, base, 1, n);
    }
    SameEnds(s.mem, t.mem, va, base, 1);
    SretsKeep(s.csr.sstatus, Srets(s, inputs, p), 18);
    SretsKeep(s.csr.sstatus, Srets(s, inputs, p), 19);
  }
}
