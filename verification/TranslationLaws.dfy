/** Laws of address translation as the emulator performs it: uniformity over a page, order of permissions. */
module TranslationLaws {
  import opened Bits
  import opened FlatMemory
  import Sv32
  import opened PageWalk
  import opened Sv32Refinement

  // --- Every address of a page translates alike ---

  lemma SameIndices(va: u32, va': u32)
    requires va / 0x1000 == va' / 0x1000
    ensures Read(va, 12, 10) == Read(va', 12, 10) && Read(va, 22, 10) == Read(va', 22, 10)
  {
    hide Read;
    VirtualFields(va);
    VirtualFields(va');
    UpperIndex(va);
    UpperIndex(va');
  }

  lemma UpperIndex(va: u32)
    ensures va / 0x40_0000 == va / 0x1000 / 0x400
  {
  }

  lemma SameIteration(m: Bytes, va: u32, va': u32, base: nat, i: u32)
    requires Read(va, 22, 10) == Read(va', 22, 10) && (i != 0 || Read(va, 12, 10) == Read(va', 12, 10))
    ensures Iterate(m, va, base, i) == Iterate(m, va', base, i)
  {
    hide Read, ReadWord, TableOf;
  }

  lemma {:induction false} SameWalk(m: Bytes, va: u32, va': u32, base: nat, i: u32, n: nat)
    requires va / 0x1000 == va' / 0x1000
    ensures Walk(m, va, base, i, n) == Walk(m, va', base, i, n)
    decreases n
  {
    hide Read, Iterate;
    if n > 0 {
      SameIndices(va, va');
      SameIteration(m, va, va', base, i);
      match Iterate(m, va, base, i)
      case Break(_) =>
      case Continue(base') => SameWalk(m, va, va', base', Decrement(i), n - 1);
    }
  }

  lemma SameEnd(m: Bytes, va: u32, va': u32, base: nat, i: u32)
    requires va / 0x1000 == va' / 0x1000
    ensures Ends(m, va, base, i) <==> Ends(m, va', base, i)
    ensures Ends(m, va, base, i) ==> EndOf(m, va, base, i) == EndOf(m, va', base, i)
  {
    hide Walk, EndOf;
    forall n: nat
      ensures Walk(m, va, base, i, n) == Walk(m, va', base, i, n)
    {
      SameWalk(m, va, va', base, i, n);
    }
    if Ends(m, va, base, i) {
      var n: nat :| Walk(m, va, base, i, n).Some?;
      EndIs(m, va, base, i, n);
      EndIs(m, va', base, i, n);
    }
  }

  /** The frame of a composed address does not depend on the page offset. */
  lemma SameFrame(pte: u32, i: u32, va: u32, va': u32)
    requires va / 0x1000 == va' / 0x1000
    ensures Compose(pte, i, va) - va % 0x1000 == Compose(pte, i, va') - va' % 0x1000
    ensures Compose(pte, i, va) % 0x1000 == va % 0x1000
  {
    hide Read, Compose;
    ComposeIs(pte, i, va);
    ComposeIs(pte, i, va');
    SameIndices(va, va');
    PageMultiple(Read(pte, 20, 12), if i == 1 then Read(va, 12, 10) else Read(pte, 10, 10), va % 0x1000);
  }

  lemma PageMultiple(high: nat, low: nat, offset: nat)
    requires offset < 0x1000
    ensures (high * 0x40_0000 + low * 0x1000 + offset) % 0x1000 == offset
  {
    DivMod(high * 0x40_0000 + low * 0x1000 + offset, high * 0x400 + low, offset, 0x1000);
  }

  /**
   * `t'` is `t` moved by the difference of the offsets into a page of the given size; physical 0 still
   * counts as a fault.
   */
  ghost predicate Uniform(size: nat, t: Translation, offset: nat, t': Translation, offset': nat)
    requires size > 0
  {
    match t
    case Phys(pa) =>
      && pa % size == offset
      && if pa - offset + offset' == 0 then t' == Fault else t'.Phys? && t'.pa == pa - offset + offset'
    case Thrown => t' == Thrown
    case Endless => t' == Endless
    case Fault => t' == Fault || (offset == 0 && offset' != 0 && t'.Phys? && t'.pa == offset')
  }

  lemma UniformDeliver(frame: nat, offset: nat, offset': nat)
    requires frame % 0x1000 == 0 && offset < 0x1000 && offset' < 0x1000
    ensures Uniform(0x1000, Deliver(frame + offset), offset, Deliver(frame + offset'), offset')
  {
    var page := frame / 0x1000;
    assert frame == page * 0x1000;
    DivMod(frame + offset, page, offset, 0x1000);
    assert frame + offset >= 0x1_0000_0000 <==> page >= 0x10_0000;
    assert frame + offset' >= 0x1_0000_0000 <==> page >= 0x10_0000;
  }

  /** Two addresses in one page get the same answer, with equal offsets into one frame. */
  lemma SamePage(m: Bytes, satp: u32, super: bool, sum: nat, mxr: nat, va: u32, va': u32, access: Sv32.Access)
    requires Bit(satp, 31) != 0 && va / 0x1000 == va' / 0x1000
    ensures Uniform(0x1000, Translate(m, satp, super, sum, mxr, va, access), va % 0x1000,
                    Translate(m, satp, super, sum, mxr, va', access), va' % 0x1000)
  {
    hide Read, Compose, Walk, Permits, Uniform, EndOf;
    SameEnd(m, va, va', Root(satp), 1);
    if Ends(m, va, Root(satp), 1) {
      ConcludeUniform(EndOf(m, va, Root(satp), 1), super, sum, mxr, va, va', access);
    } else {
      UniformSame(Endless, va % 0x1000, va' % 0x1000);
    }
  }

  lemma UniformSame(t: Translation, offset: nat, offset': nat)
    requires !t.Phys?
    ensures Uniform(0x1000, t, offset, t, offset') && Uniform(0x40_0000, t, offset, t, offset')
  {
  }

  lemma ConcludeUniform(end: End, super: bool, sum: nat, mxr: nat, va: u32, va': u32, access: Sv32.Access)
    requires va / 0x1000 == va' / 0x1000
    ensures Uniform(0x1000, Conclude(end, va, access, super, sum, mxr), va % 0x1000,
                    Conclude(end, va', access, super, sum, mxr), va' % 0x1000)
  {
    hide Compose, Permits, Uniform, Deliver;
    if end.Leaf? && Permits(end.pte, end.i, access, super, sum, mxr) {
      SameFrame(end.pte, end.i, va, va');
      var frame := Compose(end.pte, end.i, va) - va % 0x1000;
      FrameMultiple(Compose(end.pte, end.i, va), va % 0x1000);
      UniformDeliver(frame, va % 0x1000, va' % 0x1000);
    } else {
      UniformSame(Conclude(end, va, access, super, sum, mxr), va % 0x1000, va' % 0x1000);
    }
  }

  lemma FrameMultiple(pa: nat, offset: nat)
    requires pa % 0x1000 == offset
    ensures pa >= offset && (pa - offset) % 0x1000 == 0
  {
  }

  /** When the root PTE is a leaf, the whole 4 MiB region it covers translates alike. */
  lemma SameSuperpage(m: Bytes, satp: u32, super: bool, sum: nat, mxr: nat, va: u32, va': u32, access: Sv32.Access)
    requires Bit(satp, 31) != 0 && va / 0x40_0000 == va' / 0x40_0000
    requires Iterate(m, va, Root(satp), 1).Break?
    ensures Uniform(0x40_0000, Translate(m, satp, super, sum, mxr, va, access), va % 0x40_0000,
                    Translate(m, satp, super, sum, mxr, va', access), va' % 0x40_0000)
  {
    hide Read, Compose, Walk, Permits, EndOf, Root, Uniform, Deliver;
    SuperIndex(va, va');
    EndStep(m, va, Root(satp), 1);
    EndStep(m, va', Root(satp), 1);
    SameIteration(m, va, va', Root(satp), 1);
    LevelAtBreak(m, va, Root(satp), 1);
    hide Iterate;
    var end := Iterate(m, va, Root(satp), 1).end;
    if end.Leaf? && Permits(end.pte, 1, access, super, sum, mxr) {
      LeafAddress(end.pte, 1, va);
      LeafAddress(end.pte, 1, va');
      SuperDeliver(Read(end.pte, 20, 12), va % 0x40_0000, va' % 0x40_0000);
    } else {
      UniformSame(Conclude(end, va, access, super, sum, mxr), va % 0x40_0000, va' % 0x40_0000);
    }
  }

  lemma SuperIndex(va: u32, va': u32)
    requires va / 0x40_0000 == va' / 0x40_0000
    ensures Read(va, 22, 10) == Read(va', 22, 10)
  {
    hide Read;
    VirtualFields(va);
    VirtualFields(va');
  }

  lemma LevelAtBreak(m: Bytes, va: u32, base: nat, i: u32)
    ensures Iterate(m, va, base, i).Break? && Iterate(m, va, base, i).end.Leaf? ==> Iterate(m, va, base, i).end.i == i
  {
    hide Read, ReadWord;
  }

  lemma SuperDeliver(high: nat, offset: nat, offset': nat)
    requires offset < 0x40_0000 && offset' < 0x40_0000
    ensures Uniform(0x40_0000, Deliver(high * 0x40_0000 + offset), offset, Deliver(high * 0x40_0000 + offset'), offset')
  {
    DivMod(high * 0x40_0000 + offset, high, offset, 0x40_0000);
    assert high * 0x40_0000 + offset >= 0x1_0000_0000 <==> high >= 0x400;
    assert high * 0x40_0000 + offset' >= 0x1_0000_0000 <==> high >= 0x400;
  }

  // --- Order of permissions ---

  /** An address that can be written can be read, at the same physical address. */
  lemma WriteImpliesRead(m: Bytes, satp: u32, super: bool, sum: nat, mxr: nat, va: u32)
    requires Translate(m, satp, super, sum, mxr, va, Sv32.WRITE).Phys?
    ensures Translate(m, satp, super, sum, mxr, va, Sv32.READ) == Translate(m, satp, super, sum, mxr, va, Sv32.WRITE)
  {
    hide Read, Walk, EndOf, Compose, Deliver;
    if Bit(satp, 31) != 0 && EndOf(m, va, Root(satp), 1).Leaf? {
      LeafIsValid(m, va, Root(satp), 1);
      BitRange(EndOf(m, va, Root(satp), 1).pte, 1);
      BitRange(EndOf(m, va, Root(satp), 1).pte, 2);
    }
  }

  /** With paging on, no address can be executed both by the supervisor and by the user. */
  lemma ExecuteExclusive(m: Bytes, satp: u32, sum: nat, mxr: nat, sum': nat, mxr': nat, va: u32)
    requires Bit(satp, 31) != 0
    ensures !(Translate(m, satp, true, sum, mxr, va, Sv32.EXECUTE).Phys?
              && Translate(m, satp, false, sum', mxr', va, Sv32.EXECUTE).Phys?)
  {
    hide Read, Walk, EndOf, Compose, Deliver;
    if Ends(m, va, Root(satp), 1) && EndOf(m, va, Root(satp), 1).Leaf? {
      BitRange(EndOf(m, va, Root(satp), 1).pte, 4);
    }
  }

  /** Setting SUM or MXR never takes an access away. */
  lemma SumMxrMonotone(m: Bytes, satp: u32, super: bool, sum: nat, mxr: nat, sum': nat, mxr': nat, va: u32,
      access: Sv32.Access)
    requires sum <= sum' && mxr <= mxr'
    requires Translate(m, satp, super, sum, mxr, va, access).Phys?
    ensures Translate(m, satp, super, sum', mxr', va, access) == Translate(m, satp, super, sum, mxr, va, access)
  {
    hide Read, Walk, EndOf, Compose, Deliver;
  }
}
