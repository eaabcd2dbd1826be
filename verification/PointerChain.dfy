/**
 * When the loop of the page walk ends (src/rv32/hart.cpp:705-755). The counter wraps through 0 once in
 * 2^32 iterations, so the loop is an automaton on pairs of a table and a counter.
 */
module PointerChain {
  import opened Bits
  import opened Words
  import opened Wrappers
  import opened FlatMemory
  import Sv32
  import opened PageWalk

  // --- The chain of pointers ---

  /** Where the loop stands after following `n` pointers, if the first `n` PTEs are pointers. */
  ghost function Follow(m: Bytes, va: u32, base: nat, i: u32, n: nat): Option<(nat, u32)>
    decreases n
  {
    hide Iterate;
    if n == 0 then Some((base, i))
    else
      match Iterate(m, va, base, i)
      case Break(_) => None
      case Continue(base') => Follow(m, va, base', Decrement(i), n - 1)
  }

  /** What stands in place of a pointer after exactly `n` pointers. */
  ghost function ChainEnd(m: Bytes, va: u32, base: nat, i: u32, n: nat): Option<End> {
    match Follow(m, va, base, i, n)
    case None => None
    case Some((base', i')) =>
      match Iterate(m, va, base', i')
      case Break(end) => Some(end)
      case Continue(_) => None
  }

  /** The number of pairs of a table address modulo 2^32 and a counter. */
  const POSITIONS: nat := 0x10_0000_0000_0000

  /** The chain of pointers leads to `end`, after a bounded number of pointers. */
  ghost predicate Reaches(m: Bytes, va: u32, base: nat, i: u32, end: End) {
    exists n: nat :: n <= POSITIONS && ChainEnd(m, va, base, i, n) == Some(end)
  }

  lemma {:induction false} ChainIsWalk(m: Bytes, va: u32, base: nat, i: u32, n: nat)
    ensures ChainEnd(m, va, base, i, n).Some?
       <==> Walk(m, va, base, i, n + 1).Some? && Walk(m, va, base, i, n).None?
    ensures ChainEnd(m, va, base, i, n).Some? ==> ChainEnd(m, va, base, i, n) == Walk(m, va, base, i, n + 1)
    decreases n
  {
    hide Iterate;
    match Iterate(m, va, base, i)
    case Break(_) =>
    case Continue(base') =>
      if n > 0 {
        ChainIsWalk(m, va, base', Decrement(i), n - 1);
      } else {
        assert Walk(m, va, base', Decrement(i), 0).None?;
      }
  }

  lemma {:induction false} FirstStop(m: Bytes, va: u32, base: nat, i: u32, n: nat)
    requires Walk(m, va, base, i, n).Some?
    ensures exists k: nat :: k < n && ChainEnd(m, va, base, i, k).Some?
    decreases n
  {
    hide ChainEnd, Iterate;
    if Walk(m, va, base, i, n - 1).Some? {
      FirstStop(m, va, base, i, n - 1);
    } else {
      ChainIsWalk(m, va, base, i, n - 1);
    }
  }

  /** A chain that stops at `n` has followed every smaller number of pointers. */
  lemma {:induction false} FollowPrefix(m: Bytes, va: u32, base: nat, i: u32, n: nat, k: nat)
    requires k <= n && Follow(m, va, base, i, n).Some?
    ensures Follow(m, va, base, i, k).Some?
    decreases k
  {
    hide Iterate;
    if k > 0 {
      match Iterate(m, va, base, i)
      case Continue(base') => FollowPrefix(m, va, base', Decrement(i), n - 1, k - 1);
    }
  }

  lemma {:induction false} FollowOn(m: Bytes, va: u32, base: nat, i: u32, n: nat, k: nat)
    requires Follow(m, va, base, i, n).Some?
    ensures var (base', i') := Follow(m, va, base, i, n).value;
      && Follow(m, va, base, i, n + k) == Follow(m, va, base', i', k)
      && Walk(m, va, base, i, n + k) == Walk(m, va, base', i', k)
    decreases n
  {
    hide Iterate;
    if n > 0 {
      match Iterate(m, va, base, i)
      case Continue(base') => FollowOn(m, va, base', Decrement(i), n - 1, k);
    }
  }

  // --- A position met twice ---

  lemma WrapSame(a: nat, b: nat, x: nat)
    requires a % 0x1_0000_0000 == b % 0x1_0000_0000
    ensures Wrap(a + x) == Wrap(b + x)
  {
    var q, r := a / 0x1_0000_0000, b / 0x1_0000_0000;
    assert a + x == b + x + (q - r) * 0x1_0000_0000;
  }

  /** Table addresses count modulo 2^32. */
  lemma SameIterate(m: Bytes, va: u32, base: nat, base': nat, i: u32)
    requires base % 0x1_0000_0000 == base' % 0x1_0000_0000
    ensures Iterate(m, va, base, i) == Iterate(m, va, base', i)
  {
    hide Read, ReadWord, TableOf, Wrap;
    WrapSame(base, base', (if i == 0 then Read(va, 12, 10) else Read(va, 22, 10)) * 4);
  }

  lemma SameWalk(m: Bytes, va: u32, base: nat, base': nat, i: u32, n: nat)
    requires base % 0x1_0000_0000 == base' % 0x1_0000_0000
    ensures Walk(m, va, base, i, n) == Walk(m, va, base', i, n)
  {
    hide Iterate;
    SameIterate(m, va, base, base', i);
  }

  /** A walk that comes back to its position never ends. */
  lemma {:induction false} ComesBack(m: Bytes, va: u32, base: nat, i: u32, d: nat, n: nat)
    requires d > 0 && Follow(m, va, base, i, d).Some?
    requires var (base', i') := Follow(m, va, base, i, d).value;
      base % 0x1_0000_0000 == base' % 0x1_0000_0000 && i == i'
    ensures Walk(m, va, base, i, n).None?
    decreases n
  {
    hide Follow, Walk;
    if n <= d {
      FollowOn(m, va, base, i, d, 0);
      StillNone(m, va, base, i, n, d);
    } else {
      FollowOn(m, va, base, i, d, n - d);
      SameWalk(m, va, base, Follow(m, va, base, i, d).value.0, i, n - d);
      ComesBack(m, va, base, i, d, n - d);
    }
  }

  lemma StillNone(m: Bytes, va: u32, base: nat, i: u32, n: nat, k: nat)
    requires n <= k && Follow(m, va, base, i, k).Some?
    ensures Walk(m, va, base, i, n).None?
  {
    hide Iterate;
    FollowPrefix(m, va, base, i, k, n);
    FollowOn(m, va, base, i, n, 0);
  }

  // --- Some position is met twice ---

  /** More pigeons than holes. */
  lemma {:induction false} Pigeonhole(f: nat -> nat, n: nat)
    requires forall k: nat | k <= n :: f(k) < n
    ensures exists a: nat, b: nat :: a < b <= n && f(a) == f(b)
    decreases n
  {
    assert f(0) < n;
    if a: nat :| a < n && f(a) == f(n) {
    } else {
      var g: nat -> nat := k => if f(k) == n - 1 then f(n) else f(k);
      forall k: nat | k <= n - 1
        ensures g(k) < n - 1
      {
        assert f(k) < n && f(n) < n;
      }
      Pigeonhole(g, n - 1);
      var a: nat, b: nat :| a < b <= n - 1 && g(a) == g(b);
      assert f(a) == f(b);
    }
  }

  /** A position as a number. */
  ghost function Key(base: nat, i: u32): nat {
    base / 0x1000 % 0x10_0000 * 0x1_0000_0000 + i
  }

  lemma SameKey(base: nat, i: u32, base': nat, i': u32)
    requires base % 0x1000 == 0 && base' % 0x1000 == 0 && Key(base, i) == Key(base', i')
    ensures i == i' && base % 0x1_0000_0000 == base' % 0x1_0000_0000
  {
    var t, t' := base / 0x1000 % 0x10_0000, base' / 0x1000 % 0x10_0000;
    DivMod(Key(base, i), t, i, 0x1_0000_0000);
    DivMod(Key(base', i'), t', i', 0x1_0000_0000);
    TableModulo(base);
    TableModulo(base');
  }

  lemma TableModulo(base: nat)
    requires base % 0x1000 == 0
    ensures base % 0x1_0000_0000 == base / 0x1000 % 0x10_0000 * 0x1000
  {
    var t := base / 0x1000;
    DivMod(base, t / 0x10_0000, t % 0x10_0000 * 0x1000, 0x1_0000_0000);
  }

  lemma KeyBound(base: nat, i: u32)
    ensures Key(base, i) < POSITIONS
  {
  }

  /** After a pointer the loop stands at the start of a page. */
  lemma {:induction false} TablesAligned(m: Bytes, va: u32, base: nat, i: u32, n: nat)
    requires n > 0 && Follow(m, va, base, i, n).Some?
    ensures Follow(m, va, base, i, n).value.0 % 0x1000 == 0
    decreases n
  {
    hide Read, ReadWord, PteAddress;
    match Iterate(m, va, base, i)
    case Continue(base') =>
      if n > 1 {
        TablesAligned(m, va, base', Decrement(i), n - 1);
      } else {
        assert Follow(m, va, base', Decrement(i), 0) == Some((base', Decrement(i)));
      }
  }

  /** The position after `k + 1` pointers. */
  ghost function KeyAfter(m: Bytes, va: u32, base: nat, i: u32, k: nat): nat {
    match Follow(m, va, base, i, k + 1)
    case None => 0
    case Some((base', i')) => Key(base', i')
  }

  /** A walk that has followed more pointers than there are positions never ends. */
  lemma LongChain(m: Bytes, va: u32, base: nat, i: u32)
    requires Follow(m, va, base, i, POSITIONS + 1).Some?
    ensures !Ends(m, va, base, i)
  {
    hide Walk, Follow, Key;
    var f: nat -> nat := k => KeyAfter(m, va, base, i, k);
    forall k: nat | k <= POSITIONS
      ensures f(k) < POSITIONS
    {
      FollowPrefix(m, va, base, i, POSITIONS + 1, k + 1);
      KeyBound(Follow(m, va, base, i, k + 1).value.0, Follow(m, va, base, i, k + 1).value.1);
    }
    Pigeonhole(f, POSITIONS);
    var a: nat, b: nat :| a < b <= POSITIONS && f(a) == f(b);
    FollowPrefix(m, va, base, i, POSITIONS + 1, a + 1);
    FollowPrefix(m, va, base, i, POSITIONS + 1, b + 1);
    MetTwice(m, va, base, i, a + 1, b + 1);
  }

  lemma MetTwice(m: Bytes, va: u32, base: nat, i: u32, a: nat, b: nat)
    requires 0 < a < b && Follow(m, va, base, i, a).Some? && Follow(m, va, base, i, b).Some?
    requires var s, t := Follow(m, va, base, i, a).value, Follow(m, va, base, i, b).value;
      Key(s.0, s.1) == Key(t.0, t.1)
    ensures !Ends(m, va, base, i)
  {
    hide Walk, Follow, Key;
    var s, t := Follow(m, va, base, i, a).value, Follow(m, va, base, i, b).value;
    TablesAligned(m, va, base, i, a);
    TablesAligned(m, va, base, i, b);
    SameKey(s.0, s.1, t.0, t.1);
    FollowOn(m, va, base, i, a, b - a);
    forall n: nat
      ensures Walk(m, va, base, i, n).None?
    {
      if n <= a {
        StillNone(m, va, base, i, n, a);
      } else {
        FollowOn(m, va, base, i, a, n - a);
        ComesBack(m, va, s.0, s.1, b - a, n - a);
      }
    }
  }

  /**
   * The walk ends exactly when the chain reaches something else than a pointer within 2^52 pointers, the
   * number of positions, and what it finds there is unique.
   */
  lemma EndsWithin(m: Bytes, va: u32, base: nat, i: u32)
    ensures Ends(m, va, base, i) <==> Walk(m, va, base, i, POSITIONS + 1).Some?
    ensures forall end :: Reaches(m, va, base, i, end) <==> Ends(m, va, base, i) && EndOf(m, va, base, i) == end
  {
    hide Walk, Follow, ChainEnd, EndOf;
    if Ends(m, va, base, i) {
      var n: nat :| Walk(m, va, base, i, n).Some?;
      FirstStop(m, va, base, i, n);
      var k: nat :| k < n && ChainEnd(m, va, base, i, k).Some?;
      EarlyStop(m, va, base, i, k);
      ChainIsWalk(m, va, base, i, k);
      EndIs(m, va, base, i, k + 1);
      WalkStable(m, va, base, i, k + 1, POSITIONS + 1);
      assert Reaches(m, va, base, i, EndOf(m, va, base, i));
    }
    forall end | Reaches(m, va, base, i, end)
      ensures Ends(m, va, base, i) && EndOf(m, va, base, i) == end
    {
      var n: nat :| n <= POSITIONS && ChainEnd(m, va, base, i, n) == Some(end);
      ChainIsWalk(m, va, base, i, n);
      EndIs(m, va, base, i, n + 1);
    }
  }

  lemma EarlyStop(m: Bytes, va: u32, base: nat, i: u32, k: nat)
    requires ChainEnd(m, va, base, i, k).Some?
    ensures k <= POSITIONS
  {
    hide Follow, Iterate, Walk;
    if k > POSITIONS {
      ChainIsWalk(m, va, base, i, k);
      EndIs(m, va, base, i, k + 1);
      FollowPrefix(m, va, base, i, k, POSITIONS + 1);
      LongChain(m, va, base, i);
    }
  }

  // --- A walk that never ends ---

  /** A table whose two PTEs for an address point back to it is never left. */
  lemma {:induction false} SelfPointing(m: Bytes, va: u32, base: nat, i: u32, n: nat)
    requires Iterate(m, va, base, 0) == Continue(base) && Iterate(m, va, base, 1) == Continue(base)
    ensures Walk(m, va, base, i, n).None?
    decreases n
  {
    hide Read, ReadWord, TableOf;
    if n > 0 {
      if i != 0 {
        AnyCounter(m, va, base, i);
      }
      SelfPointing(m, va, base, Decrement(i), n - 1);
    }
  }

  /** Every counter but 0 uses vpn1, so a pointer read at counter 1 is a pointer at all of them. */
  lemma AnyCounter(m: Bytes, va: u32, base: nat, i: u32)
    requires i != 0 && Iterate(m, va, base, 1).Continue?
    ensures Iterate(m, va, base, i) == Iterate(m, va, base, 1)
  {
    hide Read, ReadWord, TableOf;
  }

  /** So translating through a root table that points to itself never returns. */
  lemma SelfPointingEndless(m: Bytes, satp: u32, super: bool, sum: nat, mxr: nat, va: u32, access: Sv32.Access)
    requires Bit(satp, 31) == 1
    requires Iterate(m, va, Root(satp), 0) == Continue(Root(satp))
        && Iterate(m, va, Root(satp), 1) == Continue(Root(satp))
    ensures Translate(m, satp, super, sum, mxr, va, access) == Endless
  {
    hide Iterate, Walk, EndOf, Conclude, Bit, Root;
    forall n: nat
      ensures Walk(m, va, Root(satp), 1, n).None?
    {
      SelfPointing(m, va, Root(satp), 1, n);
    }
  }
}
