/** Trap entry and SRET undo each other, to any nesting depth. */
module TrapNesting {
  import opened Bits
  import opened Words
  import opened Wrappers
  import Sv32
  import opened FlatMemory
  import opened PageWalk
  import opened Csrs
  import opened Instructions
  import opened HartState
  import opened Execute
  import opened Effects
  import opened Fronts
  import opened Decoder
  import opened Steps
  import opened Privilege
  import opened UserMode
  import opened Counters
  import opened Departures

  /** The two ways into a trap handler. */
  datatype Entry = Exception(code: nat, tval: u32) | Interrupt(code: nat)

  function Enter(s: State, e: Entry): State {
    match e
    case Exception(code, tval) => EnterException(s, code, tval)
    case Interrupt(code) => EnterInterrupt(s, code)
  }

  /** A mode survives being stored in the one bit of spp. */
  lemma OneIfBack(b: bool)
    ensures (OneIf(b) == 1) == b
  {
  }

  /**
   * SRET right after trap entry gives back pc, mode and sie, and every sstatus bit but 1, 5 and 8; of
   * those, sie is restored, spie is set and spp is cleared.
   */
  lemma EnterThenSret(s: State, e: Entry)
    ensures var t := Sret(Enter(s, e));
      && t.pc == s.pc && t.super == s.super
      && Bit(t.csr.sstatus, 1) == Bit(s.csr.sstatus, 1)
      && Bit(t.csr.sstatus, 5) == 1 && Bit(t.csr.sstatus, 8) == 0
      && (forall k: nat | k !in {1, 5, 8} :: Bit(t.csr.sstatus, k) == Bit(s.csr.sstatus, k))
      && t.gpr == s.gpr && t.mem == s.mem && t.reservation == s.reservation
  {
    hide EnterStatus, SretStatus, SetCause, VectorBase, VectorMode, Bit, Read, Add;
    EnterStatusBits(s.csr.sstatus, s.super);
    SretStatusBits(EnterStatus(s.csr.sstatus, s.super));
    OneIfBack(s.super);
  }

  // --- The control flow of a run ---

  /** The part of the state that trap entry and SRET save and restore. */
  datatype Control = Control(pc: u32, super: bool, sepc: u32, sstatus: u32)

  function View(s: State): Control {
    Control(s.pc, s.super, s.csr.sepc, s.csr.sstatus)
  }

  /** A trap entry, or an instruction that retires. */
  datatype Event = Entered(from: Control, to: Control) | Retired(from: Control, word: u32, to: Control)

  /** Up to three entries, in this order, before the instruction of a step. */
  ghost function FrontEvents(s: State): seq<Event> {
    var a := AlignPc(s);
    var b := HandleInterrupts(a);
    (if s.pc % 4 != 0 then [Entered(View(s), View(a))] else [])
    + (if TakesInterrupt(a) then [Entered(View(a), View(b))] else [])
    + (if TranslateIn(b, b.pc, Sv32.EXECUTE).Fault?
       then [Entered(View(b), View(EnterException(b, 12, b.pc)))] else [])
  }

  /** The instruction of a step either retires or is trapped itself. */
  ghost function LastEvent(s: State, input: Input, p: period): Event
    requires Step(s, input, p).Next?
  {
    hide Exec, IncrementCounters;
    var at, w := FrontOf(s).at, FrontOf(s).instr;
    var next := View(Step(s, input, p).next);
    if Exec(at, w, input.ch).Trap? then Entered(View(at), next) else Retired(View(at), w, next)
  }

  /** The events of a run, in order; a step contributes one or more. */
  ghost function Events(s: State, inputs: seq<Input>, p: period): seq<Event>
    requires Run(s, inputs, p).Next?
    decreases |inputs|
  {
    hide Step, FrontEvents, LastEvent;
    if inputs == [] then []
    else FrontEvents(s) + [LastEvent(s, inputs[0], p)] + Events(Step(s, inputs[0], p).next, inputs[1..], p)
  }

  // --- What the events of a run are like ---

  /** Entry saves pc, mode and sie, and SRET puts them back. */
  ghost predicate Faithful(e: Event) {
    match e
    case Entered(from, to) => to.super && to.sepc == from.pc && to.sstatus == EnterStatus(from.sstatus, from.super)
    case Retired(from, w, to) =>
      IsOp(w, SRET) ==> to == Control(from.sepc, Bit(from.sstatus, 8) == 1, from.sepc, SretStatus(from.sstatus))
  }

  /** Every event begins where the one before it ended. */
  ghost predicate Linked(first: Control, events: seq<Event>, last: Control)
    decreases |events|
  {
    if events == [] then first == last
    else events[0].from == first && Faithful(events[0]) && Linked(events[0].to, events[1..], last)
  }

  lemma {:induction false} LinkedAppend(a: Control, events: seq<Event>, b: Control, more: seq<Event>, c: Control)
    requires Linked(a, events, b) && Linked(b, more, c)
    ensures Linked(a, events + more, c)
    decreases |events|
  {
    hide Faithful;
    if events == [] {
      assert events + more == more;
    } else {
      assert (events + more)[1..] == events[1..] + more;
      LinkedAppend(events[0].to, events[1..], b, more, c);
    }
  }

  lemma LinkedOne(e: Event)
    requires Faithful(e)
    ensures Linked(e.from, [e], e.to)
  {
    hide Faithful;
  }

  /** Where a run stands before event `k`. */
  ghost function Before(events: seq<Event>, last: Control, k: nat): Control
    requires k <= |events|
  {
    if k < |events| then events[k].from else last
  }

  lemma {:induction false} LinkedSuffix(first: Control, events: seq<Event>, last: Control, k: nat)
    requires Linked(first, events, last) && k <= |events|
    ensures Linked(Before(events, last, k), events[k..], last)
    decreases k
  {
    hide Faithful;
    if k == 0 {
      assert events[0..] == events;
    } else {
      LinkedSuffix(events[0].to, events[1..], last, k - 1);
      assert events[1..][k - 1..] == events[k..];
    }
  }

  lemma {:induction false} LinkedPrefix(first: Control, events: seq<Event>, last: Control, k: nat)
    requires Linked(first, events, last) && k <= |events|
    ensures Linked(first, events[..k], Before(events, last, k))
    decreases k
  {
    hide Faithful;
    if k > 0 {
      LinkedPrefix(events[0].to, events[1..], last, k - 1);
      assert events[1..][..k - 1] == events[..k][1..];
    }
  }

  /** Any stretch of the events of a run. */
  lemma LinkedSlice(first: Control, events: seq<Event>, last: Control, i: nat, j: nat)
    requires Linked(first, events, last) && i <= j <= |events|
    ensures Linked(Before(events, last, i), events[i..j], Before(events, last, j))
  {
    hide Faithful, Linked;
    LinkedPrefix(first, events, last, j);
    LinkedSuffix(first, events[..j], Before(events, last, j), i);
    assert events[..j][i..] == events[i..j];
  }

  lemma ExceptionFaithful(s: State, code: nat, tval: u32)
    ensures Faithful(Entered(View(s), View(EnterException(s, code, tval))))
  {
    hide EnterStatus, SetCause, VectorBase;
  }

  lemma InterruptFaithful(s: State, code: nat)
    ensures Faithful(Entered(View(s), View(EnterInterrupt(s, code))))
  {
    hide EnterStatus, SetCause, VectorBase, VectorMode, Read, Add;
  }

  lemma FrontLinked(s: State)
    requires FrontOf(s).Fetched?
    ensures Linked(View(s), FrontEvents(s), View(FrontOf(s).at))
  {
    hide EnterException, EnterInterrupt, TranslateIn, ReadWord, InterruptsOpen, PendingCode, Faithful, Linked, View;
    var a := AlignPc(s);
    var b := HandleInterrupts(a);
    ExceptionFaithful(s, 0, s.pc);
    if TakesInterrupt(a) {
      InterruptFaithful(a, PendingCode(a.csr).value);
    }
    ExceptionFaithful(b, 12, b.pc);
    FrontJoined(s, Entered(View(s), View(a)), Entered(View(a), View(b)),
        Entered(View(b), View(EnterException(b, 12, b.pc))));
  }

  /** The entries that do take place, joined. */
  lemma FrontJoined(s: State, e: Event, f: Event, g: Event)
    requires FrontOf(s).Fetched?
    requires var a := AlignPc(s); var b := HandleInterrupts(a);
      e == Entered(View(s), View(a)) && f == Entered(View(a), View(b))
          && g == Entered(View(b), View(EnterException(b, 12, b.pc)))
    requires s.pc % 4 != 0 ==> Faithful(e)
    requires TakesInterrupt(AlignPc(s)) ==> Faithful(f)
    requires Faithful(g)
    ensures Linked(View(s), FrontEvents(s), View(FrontOf(s).at))
  {
    hide EnterException, EnterInterrupt, TranslateIn, ReadWord, TakesInterrupt, PendingCode, Faithful, Linked, View;
    var a := AlignPc(s);
    var b := HandleInterrupts(a);
    var first, second := if s.pc % 4 != 0 then [e] else [], if TakesInterrupt(a) then [f] else [];
    var third := if TranslateIn(b, b.pc, Sv32.EXECUTE).Fault? then [g] else [];
    assert Linked(View(s), first, View(a)) by {
      Optional(e, s.pc % 4 != 0);
    }
    assert Linked(View(a), second, View(b)) by {
      Optional(f, TakesInterrupt(a));
    }
    assert Linked(View(b), third, View(FrontOf(s).at)) by {
      Optional(g, TranslateIn(b, b.pc, Sv32.EXECUTE).Fault?);
      FetchAt(b);
    }
    LinkedAppend(View(s), first, View(a), second, View(b));
    LinkedAppend(View(s), first + second, View(b), third, View(FrontOf(s).at));
    assert FrontEvents(s) == first + second + third;
  }

  lemma Optional(e: Event, taken: bool)
    requires taken ==> Faithful(e)
    ensures Linked(e.from, if taken then [e] else [], if taken then e.to else e.from)
  {
    hide Faithful;
  }

  /** The state an instruction is fetched in: the one after the preamble, or after the page fault. */
  lemma FetchAt(b: State)
    requires Fetch(b).Fetched?
    ensures Fetch(b).at == if TranslateIn(b, b.pc, Sv32.EXECUTE).Fault? then EnterException(b, 12, b.pc) else b
  {
    hide EnterException, TranslateIn, ReadWord;
  }

  // --- The instruction of a step ---

  /** Retiring, seen as an event. */
  lemma RetireFaithful(s: State, w: u32, ch: u32, n: State)
    requires Exec(s, w, ch) == Retire(n)
    ensures Faithful(Retired(View(s), w, View(n)))
  {
    hide Exec, DecodeType, DecodeOpcode, SretStatus, Bit, IsType, IsOp;
    SretIsSystem(w);
    if IsOp(w, SRET) {
      ExecSret(s, w, ch);
    }
  }

  lemma CountersKeepView(s: State, now: int, p: period)
    ensures View(IncrementCounters(s, now, p)) == View(s)
  {
    CountersKeep(s, now, p);
    hide IncrementCounters;
  }

  /** A trapping instruction leaves control where it was until the entry. */
  lemma TrapView(at: State, w: u32, e: Effect)
    requires Frame(at, w, e) && e.Trap?
    ensures View(e.at) == View(at)
  {
    hide DecodeType;
  }

  lemma LastLinked(s: State, input: Input, p: period)
    requires Step(s, input, p).Next?
    ensures var e := LastEvent(s, input, p);
      Faithful(e) && e.from == View(FrontOf(s).at) && e.to == View(Step(s, input, p).next)
  {
    hide FrontOf, Exec, IncrementCounters, EnterException, Faithful, Frame, View;
    var at, w := FrontOf(s).at, FrontOf(s).instr;
    match Exec(at, w, input.ch)
    case Retire(n) =>
      RetireFaithful(at, w, input.ch, n);
      CountersKeepView(n, input.now, p);
    case Trap(cause, tval, e) =>
      ExecFrame(at, w, input.ch);
      TrapView(at, w, Exec(at, w, input.ch));
      ExceptionFaithful(e, cause, tval);
      CountersKeepView(EnterException(e, cause, tval), input.now, p);
  }

  /**
   * The events of a run lead from its first state to its last. Every trap entry, in the front of a step or by its
   * instruction, leaves the interrupted pc in sepc and the interrupted mode and sie in sstatus.
   */
  lemma {:induction false} RunLinked(s: State, inputs: seq<Input>, p: period)
    requires Run(s, inputs, p).Next?
    ensures Linked(View(s), Events(s, inputs, p), View(Run(s, inputs, p).next))
    decreases |inputs|
  {
    hide Step, FrontEvents, LastEvent, Linked, View;
    if inputs == [] {
      NothingLinked(View(s));
    } else {
      var n := Step(s, inputs[0], p).next;
      StepLinked(s, inputs[0], p);
      RunLinked(n, inputs[1..], p);
      LinkedAppend(View(s), FrontEvents(s) + [LastEvent(s, inputs[0], p)], View(n),
                   Events(n, inputs[1..], p), View(Run(s, inputs, p).next));
    }
  }

  lemma NothingLinked(c: Control)
    ensures Linked(c, [], c)
  {
  }

  lemma StepLinked(s: State, input: Input, p: period)
    requires Step(s, input, p).Next?
    ensures Linked(View(s), FrontEvents(s) + [LastEvent(s, input, p)], View(Step(s, input, p).next))
  {
    hide FrontOf, Exec, IncrementCounters, FrontEvents, LastEvent, Linked, Faithful, View;
    FrontLinked(s);
    LastLinked(s, input, p);
    LinkedOne(LastEvent(s, input, p));
    LinkedAppend(View(s), FrontEvents(s), View(FrontOf(s).at), [LastEvent(s, input, p)], View(Step(s, input, p).next));
  }

  // --- Well-bracketed runs ---

  /** The same pc, mode and sie, and the same sstatus outside spie and spp. */
  ghost predicate Resumes(c: Control, d: Control) {
    && d.pc == c.pc && d.super == c.super
    && (forall k: nat | k !in {5, 8} :: Bit(d.sstatus, k) == Bit(c.sstatus, k))
  }

  /**
   * An SRET that closes a trap: its handler has put sepc and sstatus back as the entry left them. The present
   * sie, bit 1, is free: a handler may have opened interrupts.
   */
  ghost predicate Closes(entry: Event, exit: Event) {
    && entry.Entered? && exit.Retired? && IsOp(exit.word, SRET)
    && exit.from.sepc == entry.to.sepc
    && (forall k: nat | k != 1 :: Bit(exit.from.sstatus, k) == Bit(entry.to.sstatus, k))
  }

  /** An SRET resumes what a trap interrupted exactly when it closes that trap. */
  lemma ClosesIffResumes(entry: Event, exit: Event)
    requires entry.Entered? && exit.Retired? && IsOp(exit.word, SRET) && Faithful(entry) && Faithful(exit)
    ensures Resumes(entry.from, exit.to) <==> Closes(entry, exit)
  {
    hide Resumes, Closes, Faithful, DecodeOpcode;
    if Closes(entry, exit) {
      Closed(entry, exit);
    }
    if Resumes(entry.from, exit.to) {
      ResumedCloses(entry, exit);
    }
  }

  lemma Closed(entry: Event, exit: Event)
    requires Closes(entry, exit) && Faithful(entry) && Faithful(exit)
    ensures Resumes(entry.from, exit.to)
  {
    EnterStatusBits(entry.from.sstatus, entry.from.super);
    SretStatusBits(exit.from.sstatus);
    hide EnterStatus, SretStatus, Bit, DecodeOpcode;
  }

  lemma ResumedCloses(entry: Event, exit: Event)
    requires entry.Entered? && exit.Retired? && IsOp(exit.word, SRET) && Faithful(entry) && Faithful(exit)
    requires Resumes(entry.from, exit.to)
    ensures Closes(entry, exit)
  {
    EnterStatusBits(entry.from.sstatus, entry.from.super);
    SretStatusBits(exit.from.sstatus);
    BitBound(exit.from.sstatus, 8);
    hide EnterStatus, SretStatus, Bit, DecodeOpcode;
    forall k: nat | k != 1
      ensures Bit(exit.from.sstatus, k) == Bit(entry.to.sstatus, k)
    {
      if k == 5 {
        assert Bit(exit.to.sstatus, 1) == Bit(entry.from.sstatus, 1);
      } else if k != 8 {
        assert Bit(exit.to.sstatus, k) == Bit(entry.from.sstatus, k);
      }
    }
  }

  /** A tree of traps: instructions and traps in order, each trap with its handler, to any depth. */
  datatype Tree = Empty | Instruction(rest: Tree) | Nested(handler: Tree, rest: Tree)

  function Size(tree: Tree): nat {
    match tree
    case Empty => 0
    case Instruction(rest) => 1 + Size(rest)
    case Nested(handler, rest) => 2 + Size(handler) + Size(rest)
  }

  /** The events form the tree; every trap in it is closed by an SRET after its handler. */
  ghost predicate Bracketed(events: seq<Event>, tree: Tree)
    decreases tree
  {
    hide Closes;
    |events| == Size(tree) &&
    match tree
    case Empty => true
    case Instruction(rest) => events[0].Retired? && Bracketed(events[1..], rest)
    case Nested(handler, rest) =>
      var n := Size(handler);
      && Bracketed(events[1..n + 1], handler)
      && Closes(events[0], events[n + 1])
      && Bracketed(events[n + 2..], rest)
  }

  /**
   * With the traps taken out, the instructions of each level run as one unbroken thread: each begins at the pc, in
   * the mode and with the sie that the one before it on the same level left (`at`, to begin with), whatever traps
   * lie between them. The last leads to `last`.
   */
  ghost predicate Unbroken(at: Control, events: seq<Event>, tree: Tree, last: Control)
    requires |events| == Size(tree)
    decreases tree
  {
    hide Resumes;
    match tree
    case Empty => Resumes(at, last)
    case Instruction(rest) => Resumes(at, events[0].from) && Unbroken(events[0].to, events[1..], rest, last)
    case Nested(handler, rest) =>
      var n := Size(handler);
      && Resumes(at, events[0].from)
      && Unbroken(events[0].to, events[1..n + 1], handler, events[n + 1].from)
      && Unbroken(at, events[n + 2..], rest, last)
  }

  lemma ResumesTrans(a: Control, b: Control, c: Control)
    requires Resumes(a, b) && Resumes(b, c)
    ensures Resumes(a, c)
  {
    hide Bit;
  }

  lemma ResumesSelf(a: Control)
    ensures Resumes(a, a)
  {
  }

  /** The parts of the events of a trap, its handler, and what follows. */
  lemma TrapParts(first: Control, events: seq<Event>, last: Control, n: nat)
    requires Linked(first, events, last) && n + 2 <= |events|
    ensures events[0].from == first && Faithful(events[0]) && Faithful(events[n + 1])
    ensures Linked(events[0].to, events[1..n + 1], events[n + 1].from)
    ensures Linked(events[n + 1].to, events[n + 2..], last)
  {
    hide Faithful;
    LinkedSlice(first, events, last, 1, n + 1);
    LinkedSuffix(first, events, last, n + 1);
    assert events[n + 1..][1..] == events[n + 2..];
    assert events[1..] != [] ==> events[1].from == events[0].to;
  }

  lemma {:induction false} BracketsUnbroken(at: Control, first: Control, events: seq<Event>, tree: Tree, last: Control)
    requires Linked(first, events, last) && Bracketed(events, tree) && Resumes(at, first)
    ensures Unbroken(at, events, tree, last)
    decreases tree
  {
    hide Closes, Resumes, Faithful;
    match tree
    case Empty =>
    case Instruction(rest) =>
      ResumesSelf(events[0].to);
      BracketsUnbroken(events[0].to, events[0].to, events[1..], rest, last);
    case Nested(handler, rest) =>
      hide Linked;
      var n := Size(handler);
      TrapParts(first, events, last, n);
      ResumesSelf(events[0].to);
      BracketsUnbroken(events[0].to, events[0].to, events[1..n + 1], handler, events[n + 1].from);
      Closed(events[0], events[n + 1]);
      ResumesTrans(at, first, events[n + 1].to);
      BracketsUnbroken(at, events[n + 1].to, events[n + 2..], rest, last);
  }

  /**
   * Any well-bracketed stretch of any run, of any depth: at every level the interrupted code resumes at its pc, in
   * its mode and with its sie after each trap. The stretch may begin and end inside a step.
   */
  lemma RunUnbroken(s: State, inputs: seq<Input>, p: period, i: nat, j: nat, tree: Tree)
    requires Run(s, inputs, p).Next? && i <= j <= |Events(s, inputs, p)|
    requires Bracketed(Events(s, inputs, p)[i..j], tree)
    ensures var events, last := Events(s, inputs, p), View(Run(s, inputs, p).next);
      Unbroken(Before(events, last, i), events[i..j], tree, Before(events, last, j))
  {
    hide Run, Events, Linked, View, Resumes, Unbroken, Bracketed;
    var events, last := Events(s, inputs, p), View(Run(s, inputs, p).next);
    RunLinked(s, inputs, p);
    LinkedSlice(View(s), events, last, i, j);
    ResumesSelf(Before(events, last, i));
    assert |events[i..j]| == Size(tree) by {
      BracketedSize(events[i..j], tree);
    }
    BracketsUnbroken(Before(events, last, i), Before(events, last, i), events[i..j], tree, Before(events, last, j));
  }

  lemma BracketedSize(events: seq<Event>, tree: Tree)
    requires Bracketed(events, tree)
    ensures |events| == Size(tree)
  {
    hide Closes;
  }

  /** From the first state of a run to its last: a run that is nothing but closed traps ends where it began. */
  ghost predicate OnlyTraps(tree: Tree) {
    match tree
    case Empty => true
    case Instruction(_) => false
    case Nested(_, rest) => OnlyTraps(rest)
  }

  lemma {:induction false} TrapsUnbroken(at: Control, events: seq<Event>, tree: Tree, last: Control)
    requires |events| == Size(tree) && Unbroken(at, events, tree, last) && OnlyTraps(tree)
    ensures Resumes(at, last)
    decreases tree
  {
    hide Resumes;
    match tree
    case Empty =>
    case Nested(handler, rest) => TrapsUnbroken(at, events[Size(handler) + 2..], rest, last);
  }

  lemma RunOfTraps(s: State, inputs: seq<Input>, p: period, tree: Tree)
    requires Run(s, inputs, p).Next? && OnlyTraps(tree) && Bracketed(Events(s, inputs, p), tree)
    ensures var t := Run(s, inputs, p).next;
      && t.pc == s.pc && t.super == s.super
      && forall k: nat | k !in {5, 8} :: Bit(t.csr.sstatus, k) == Bit(s.csr.sstatus, k)
  {
    hide Run, Events, Linked, Bracketed, Unbroken, Bit;
    var events := Events(s, inputs, p);
    RunLinked(s, inputs, p);
    ResumesSelf(View(s));
    BracketedSize(events, tree);
    BracketsUnbroken(View(s), View(s), events, tree, View(Run(s, inputs, p).next));
    TrapsUnbroken(View(s), events, tree, View(Run(s, inputs, p).next));
  }

  // --- Handlers that have nothing to restore ---

  /** An instruction that leaves sepc, and every bit of sstatus but sie, as it found them. */
  ghost predicate Keeps(e: Event) {
    && e.Retired? && e.to.sepc == e.from.sepc
    && (forall k: nat | k != 1 :: Bit(e.to.sstatus, k) == Bit(e.from.sstatus, k))
  }

  ghost predicate AllKeep(events: seq<Event>) {
    hide Keeps;
    forall e | e in events :: Keeps(e)
  }

  lemma {:induction false} HandlerKeeps(first: Control, events: seq<Event>, last: Control)
    requires Linked(first, events, last) && AllKeep(events)
    ensures last.sepc == first.sepc && forall k: nat | k != 1 :: Bit(last.sstatus, k) == Bit(first.sstatus, k)
    decreases |events|
  {
    hide Faithful, Bit;
    if events != [] {
      assert Keeps(events[0]);
      HandlerKeeps(events[0].to, events[1..], last);
    }
  }

  /**
   * A handler that takes no trap and leaves sepc, and sstatus but for sie, alone closes its trap with its SRET, with
   * nothing assumed of the values of the two CSRs. It may read them, and open and close interrupts.
   */
  lemma QuietHandlerReturns(s: State, inputs: seq<Input>, p: period, i: nat, n: nat)
    requires Run(s, inputs, p).Next? && i + n + 2 <= |Events(s, inputs, p)|
    requires var events := Events(s, inputs, p);
      && events[i].Entered? && AllKeep(events[i + 1..i + n + 1])
      && events[i + n + 1].Retired? && IsOp(events[i + n + 1].word, SRET)
    ensures var events := Events(s, inputs, p); Resumes(events[i].from, events[i + n + 1].to)
  {
    hide Run, Events, Linked, View, Resumes, Faithful, AllKeep, IsOp, Bit;
    var events, last := Events(s, inputs, p), View(Run(s, inputs, p).next);
    RunLinked(s, inputs, p);
    LinkedSlice(View(s), events, last, i, i + n + 2);
    var part := events[i..i + n + 2];
    TrapParts(Before(events, last, i), part, Before(events, last, i + n + 2), n);
    assert part[1..n + 1] == events[i + 1..i + n + 1];
    HandlerKeeps(part[0].to, part[1..n + 1], part[n + 1].from);
    Closed(part[0], part[n + 1]);
  }

  // --- Which instructions keep them ---

  /** An instruction on another CSR than sepc and sstatus, or that only reads it: set or clear with rs1 field zero. */
  ghost predicate Quiet(w: u32) {
    && !IsOp(w, SRET)
    && (IsType(w, SYSTEM) && DecodeOpcode(w).Some? && Imm12(w) in {SEPC, SSTATUS}
        ==> OnlyReads(w, DecodeOpcode(w).value))
  }

  const SEPC: nat := 0x141
  const SSTATUS: nat := 0x100

  ghost predicate OnlyReads(w: u32, op: Opcode) {
    op in {CSRRS, CSRRC, CSRRSI, CSRRCI} && Rs1(w) == 0
  }

  ghost predicate SameSaved(s: State, e: Effect) {
    e.Retire? ==> e.next.csr.sepc == s.csr.sepc && e.next.csr.sstatus == s.csr.sstatus
  }

  lemma OtherCsrSaved(s: State, w: u32, op: Opcode)
    requires Imm12(w) !in {SEPC, SSTATUS}
    ensures SameSaved(s, ExecCsr(s, w, op))
  {
    hide CsrResult, WriteRefused, CounterClosed, Rd, Rs1, Imm12;
  }

  /** A read writes back what it read. */
  lemma ReadSaved(s: State, w: u32, op: Opcode)
    requires s.gpr[0] == 0 && OnlyReads(w, op) && Imm12(w) in {SEPC, SSTATUS}
    ensures SameSaved(s, ExecCsr(s, w, op))
  {
    ReadResult(op, ReadCsr(s.csr, Imm12(w)));
    hide CsrResult, WriteRefused, CounterClosed, Rd, Rs1, Imm12;
  }

  lemma ReadResult(op: Opcode, before: u32)
    requires op in {CSRRS, CSRRC, CSRRSI, CSRRCI}
    ensures CsrResult(op, before, 0, 0) == before
  {
    NoBits(before);
    hide Or32, And32, Not32;
  }

  lemma SystemSaved(s: State, w: u32, ch: u32)
    requires s.gpr[0] == 0 && IsType(w, SYSTEM) && Quiet(w)
    ensures SameSaved(s, ExecSystem(s, w, ch))
  {
    hide DecodeType, DecodeOpcode, ExecCsr, Imm12, SetField, SretStatus, Rs1;
    match DecodeOpcode(w)
    case None =>
    case Some(op) =>
      if Imm12(w) in {SEPC, SSTATUS} {
        hide ExecSystem, SameSaved;
        ReadSaved(s, w, op);
        ReadIsCsr(s, w, ch, op);
      } else {
        OtherCsrSaved(s, w, op);
      }
  }

  lemma ReadIsCsr(s: State, w: u32, ch: u32, op: Opcode)
    requires IsOp(w, op) && op in {CSRRS, CSRRC, CSRRSI, CSRRCI}
    ensures ExecSystem(s, w, ch) == ExecCsr(s, w, op)
  {
    hide DecodeOpcode, ExecCsr;
  }

  lemma PlainSaved(s: State, w: u32, e: Effect)
    requires Frame(s, w, e) && !IsType(w, SYSTEM)
    ensures SameSaved(s, e)
  {
    hide DecodeType;
  }

  lemma ExecSaved(s: State, w: u32, ch: u32)
    requires s.gpr[0] == 0 && Quiet(w)
    ensures SameSaved(s, Exec(s, w, ch))
  {
    hide DecodeType, SameSaved, Quiet, ExecSystem, ExecLoad, ExecStore, ExecBranch, ExecJump, ExecAmo;
    hide ExecOpImm, ExecOp, ExecUpper;
    ExecFrame(s, w, ch);
    if IsType(w, SYSTEM) {
      SystemSaved(s, w, ch);
    } else {
      PlainSaved(s, w, Exec(s, w, ch));
    }
  }

  lemma LastKeeps(s: State, input: Input, p: period)
    requires s.gpr[0] == 0 && Step(s, input, p).Next?
    ensures var e := LastEvent(s, input, p); e.Retired? && Quiet(e.word) ==> Keeps(e)
  {
    hide FrontOf, Exec, IncrementCounters, EnterException, Quiet, FrontTraps, Bit;
    FrontFrame(s);
    var at, w := FrontOf(s).at, FrontOf(s).instr;
    match Exec(at, w, input.ch)
    case Retire(n) =>
      CountersKeepView(n, input.now, p);
      if Quiet(w) {
        ExecSaved(at, w, input.ch);
      }
    case Trap(_, _, _) =>
  }

  /** In a run that starts with register 0 zero every such instruction keeps what its trap has saved. */
  lemma {:induction false} QuietKeeps(s: State, inputs: seq<Input>, p: period)
    requires s.gpr[0] == 0 && Run(s, inputs, p).Next?
    ensures forall e | e in Events(s, inputs, p) :: e.Retired? && Quiet(e.word) ==> Keeps(e)
    decreases |inputs|
  {
    hide Step, FrontEvents, LastEvent, Quiet, Keeps;
    if inputs != [] {
      var n := Step(s, inputs[0], p).next;
      LastKeeps(s, inputs[0], p);
      FrontEntered(s);
      StepZero(s, inputs[0], p);
      QuietKeeps(n, inputs[1..], p);
    }
  }

  lemma FrontEntered(s: State)
    ensures forall e | e in FrontEvents(s) :: e.Entered?
  {
    hide View, EnterException, EnterInterrupt, TranslateIn, TakesInterrupt;
  }

  /**
   * On the step machine: a step that fetches SRET with sepc and sstatus as trap entry left them resumes the
   * code the trap interrupted, in its mode and with its sie.
   */
  lemma SretResumes(s: State, e: Entry, u: State, input: Input, p: period)
    requires FrontOf(u).Fetched? && FrontTraps(u) == 0 && IsOp(FrontOf(u).instr, SRET)
    requires u.csr.sepc == Enter(s, e).csr.sepc && u.csr.sstatus == Enter(s, e).csr.sstatus
    ensures Step(u, input, p).Next?
    ensures var t := Step(u, input, p).next;
      && t.pc == s.pc && t.super == s.super
      && Bit(t.csr.sstatus, 1) == Bit(s.csr.sstatus, 1)
      && (forall k: nat | k !in {1, 5, 8} :: Bit(t.csr.sstatus, k) == Bit(s.csr.sstatus, k))
      && t.gpr == u.gpr && t.mem == u.mem
  {
    EnterThenSret(s, e);
    hide Enter, FrontOf, FrontTraps, SretStatus, Bit, IncrementCounters, DecodeOpcode;
    FrontFrame(u);
    SretIsSystem(FrontOf(u).instr);
    ExecSret(u, FrontOf(u).instr, input.ch);
    hide Exec;
    CountersKeep(Sret(u), input.now, p);
  }

  lemma ExecSret(u: State, w: u32, ch: u32)
    requires IsOp(w, SRET) && IsType(w, SYSTEM)
    ensures Exec(u, w, ch) == Retire(Sret(u))
  {
    hide DecodeType, DecodeOpcode, Sret;
  }
}
