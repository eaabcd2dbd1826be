/** The page walk of `Hart::translateAddress` (src/rv32/hart.cpp:694-768, src/rv32/vmem.hpp). */
module PageWalk {
  import opened Bits
  import opened Words
  import opened Wrappers
  import opened FlatMemory
  import opened Sv32Access = Sv32

  /** What ends the loop; `i` is the loop counter at a leaf. */
  datatype End =
    | NotValid
    | NoHandler
    | Leaf(pte: u32, i: u32)

  /** One iteration: the loop ends, or goes on in another table. */
  datatype Iteration = Break(end: End) | Continue(base: nat)

  function Bit(w: nat, k: nat): nat {
    Read(w, k, 1)
  }

  /** The address the next PTE is read from, truncated by the call to `readWord`. */
  function PteAddress(va: u32, base: nat, i: u32): u32 {
    Wrap(base + (if i == 0 then Read(va, 12, 10) else Read(va, 22, 10)) * 4)
  }

  function Iterate(m: Bytes, va: u32, base: nat, i: u32): Iteration {
    match ReadWord(m, PteAddress(va, base, i))
    case None => Break(NoHandler)
    case Some(pte) =>
      if Bit(pte, 0) == 0 || (Bit(pte, 1) == 0 && Bit(pte, 2) == 1) then Break(NotValid)
      else if Bit(pte, 1) == 1 || Bit(pte, 3) == 1 then Break(Leaf(pte, i))
      else Continue(TableOf(pte))
  }

  /** `((pte.ppn1 << 10) | pte.ppn0) * PAGE_SIZE` */
  function TableOf(pte: u32): nat {
    (Read(pte, 20, 12) * 0x400 + Read(pte, 10, 10)) * 0x1000
  }

  /** `--i` on a `uint32_t`. */
  function Decrement(i: u32): u32 {
    Wrap(i - 1)
  }

  /** The first `n` iterations of `for(i; i >= 0; --i)`: how the loop ended, if it did. */
  function Walk(m: Bytes, va: u32, base: nat, i: u32, n: nat): Option<End>
    decreases n
  {
    hide Iterate;
    if n == 0 then None
    else
      match Iterate(m, va, base, i)
      case Break(end) => Some(end)
      case Continue(base') => Walk(m, va, base', Decrement(i), n - 1)
  }

  ghost predicate Ends(m: Bytes, va: u32, base: nat, i: u32) {
    exists n: nat :: Walk(m, va, base, i, n).Some?
  }

  ghost function EndOf(m: Bytes, va: u32, base: nat, i: u32): End
    requires Ends(m, va, base, i)
  {
    var n: nat :| Walk(m, va, base, i, n).Some?;
    Walk(m, va, base, i, n).value
  }

  /** The checks on a leaf, in the order of the source. */
  predicate Permits(pte: u32, i: u32, access: Access, super: bool, sum: nat, mxr: nat) {
    && !(!super && Bit(pte, 4) == 0)
    && !((Bit(pte, 2) == 0 && access == WRITE) || (Bit(pte, 3) == 0 && access == EXECUTE))
    && !(access == READ && ((mxr == 0 && Bit(pte, 1) == 0) || (Bit(pte, 1) == 0 && Bit(pte, 3) == 0)))
    && !(access == EXECUTE && super && Bit(pte, 4) == 1)
    && !(access != EXECUTE && super && Bit(pte, 4) == 1 && sum == 0)
    && !(i == 1 && Read(pte, 10, 10) != 0)
    && !(Bit(pte, 6) == 0 || (access == WRITE && Bit(pte, 7) == 0))
  }

  /** The 34-bit address put together in `result`. */
  function Compose(pte: u32, i: u32, va: u32): nat {
    var offset := Write(0, 0, 12, Read(va, 0, 12));
    var low := Write(offset, 12, 10, Read(pte, 10, 10));
    var high := Write(low, 22, 12, Read(pte, 20, 12));
    if i == 1 then Write(high, 12, 10, Read(va, 12, 10)) else high
  }

  /** `Phys`: true, with `addr` replaced. `Fault`: false, with `addr` untouched. `Thrown`: an exception. */
  datatype Translation = Phys(pa: u32) | Fault | Thrown | Endless

  function Conclude(end: End, va: u32, access: Access, super: bool, sum: nat, mxr: nat): Translation {
    match end
    case NotValid => Fault
    case NoHandler => Thrown
    case Leaf(pte, i) =>
      if !Permits(pte, i, access, super, sum, mxr) then Fault
      else Deliver(Compose(pte, i, va))
  }

  /** The tests after the loop: all bits zero is a fault, bits 33..32 throw. */
  function Deliver(result: nat): Translation {
    if result == 0 then Fault
    else if result >= 0x1_0000_0000 then Thrown
    else Phys(result)
  }

  /** `csr.satp.ppn * PAGE_SIZE`, a 32-bit product. */
  function Root(satp: u32): u32 {
    Wrap(Read(satp, 0, 22) * 0x1000)
  }

  ghost function Translate(m: Bytes, satp: u32, super: bool, sum: nat, mxr: nat, va: u32, access: Access): Translation {
    if Bit(satp, 31) == 0 then Phys(va)
    else if Ends(m, va, Root(satp), 1) then Conclude(EndOf(m, va, Root(satp), 1), va, access, super, sum, mxr)
    else Endless
  }

  // --- The loop as a whole ---

  /** Once ended, the walk has ended for good. */
  lemma {:induction false} WalkStable(m: Bytes, va: u32, base: nat, i: u32, n: nat, k: nat)
    requires n <= k && Walk(m, va, base, i, n).Some?
    ensures Walk(m, va, base, i, k) == Walk(m, va, base, i, n)
    decreases n
  {
    hide Iterate;
    match Iterate(m, va, base, i)
    case Break(_) =>
    case Continue(base') => WalkStable(m, va, base', Decrement(i), n - 1, k - 1);
  }

  lemma EndIs(m: Bytes, va: u32, base: nat, i: u32, n: nat)
    requires Walk(m, va, base, i, n).Some?
    ensures Ends(m, va, base, i) && EndOf(m, va, base, i) == Walk(m, va, base, i, n).value
  {
    var k: nat :| Walk(m, va, base, i, k).Some? && EndOf(m, va, base, i) == Walk(m, va, base, i, k).value;
    WalkStable(m, va, base, i, n, if n <= k then k else n);
    WalkStable(m, va, base, i, k, if n <= k then k else n);
  }

  /** The loop does one iteration and then the rest. */
  lemma EndStep(m: Bytes, va: u32, base: nat, i: u32)
    ensures match Iterate(m, va, base, i)
            case Break(end) => Ends(m, va, base, i) && EndOf(m, va, base, i) == end
            case Continue(base') =>
              && (Ends(m, va, base, i) <==> Ends(m, va, base', Decrement(i)))
              && (Ends(m, va, base, i) ==> EndOf(m, va, base, i) == EndOf(m, va, base', Decrement(i)))
  {
    match Iterate(m, va, base, i)
    case Break(end) =>
      assert Walk(m, va, base, i, 1) == Some(end);
      EndIs(m, va, base, i, 1);
    case Continue(base') =>
      if Ends(m, va, base', Decrement(i)) {
        var n: nat :| Walk(m, va, base', Decrement(i), n).Some?;
        assert Walk(m, va, base, i, n + 1) == Walk(m, va, base', Decrement(i), n);
        EndIs(m, va, base, i, n + 1);
        EndIs(m, va, base', Decrement(i), n);
      }
      if Ends(m, va, base, i) {
        var n: nat :| Walk(m, va, base, i, n).Some?;
        assert Walk(m, va, base', Decrement(i), n - 1).Some?;
      }
  }

  /** What does not depend on the access: the PTE the walk arrives at. */
  lemma LeafIsValid(m: Bytes, va: u32, base: nat, i: u32)
    requires Ends(m, va, base, i) && EndOf(m, va, base, i).Leaf?
    ensures var pte := EndOf(m, va, base, i).pte; Bit(pte, 0) != 0 && !(Bit(pte, 1) == 0 && Bit(pte, 2) == 1)
  {
    hide EndOf, Iterate;
    var n: nat :| Walk(m, va, base, i, n).Some?;
    EndIs(m, va, base, i, n);
    WalkLeafIsValid(m, va, base, i, n);
  }

  lemma {:induction false} WalkLeafIsValid(m: Bytes, va: u32, base: nat, i: u32, n: nat)
    requires Walk(m, va, base, i, n).Some? && Walk(m, va, base, i, n).value.Leaf?
    ensures var pte := Walk(m, va, base, i, n).value.pte; Bit(pte, 0) != 0 && !(Bit(pte, 1) == 0 && Bit(pte, 2) == 1)
    decreases n
  {
    hide Read, ReadWord, PteAddress, TableOf;
    match Iterate(m, va, base, i)
    case Break(_) =>
    case Continue(base') =>
      WalkLeafIsValid(m, va, base', Decrement(i), n - 1);
  }
}
