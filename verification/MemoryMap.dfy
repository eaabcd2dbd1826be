/** The memory map: byte arrays behind base addresses, searched in registration order. */
module MemoryMap {
  import opened Bits
  import opened Words
  import opened Wrappers
  import Flat = FlatMemory

  /** src/basic_memory.cpp */
  class BasicMemory {
    const baseAddr: u32
    const size: u32
    const memoryArray: array<u8>

    ghost predicate Valid() {
      memoryArray.Length == size
    }

    constructor (baseAddr: u32, size: u32)
      ensures Valid() && fresh(memoryArray)
      ensures this.baseAddr == baseAddr && this.size == size
      ensures forall k | 0 <= k < size :: memoryArray[k] == 0
    {
      this.baseAddr := baseAddr;
      this.size := size;
      this.memoryArray := new u8[size](_ => 0);
    }

    /** The range test of the dispatch; `baseAddr + size` is a `uint32_t`. */
    predicate Covers(addr: u32)
      ensures Covers(addr) ==> addr - baseAddr < size
    {
      baseAddr <= addr < Add(baseAddr, size)
    }

    method ReadByte(addr: u32) returns (b: u8)
      requires Valid() && Covers(addr)
      ensures b == memoryArray[addr - baseAddr]
    {
      b := memoryArray[addr - baseAddr];
    }

    method WriteByte(addr: u32, val: u8)
      requires Valid() && Covers(addr)
      modifies memoryArray
      ensures memoryArray[..] == old(memoryArray[..])[addr - baseAddr := val]
    {
      memoryArray[addr - baseAddr] := val;
    }
  }

  /** The first handler that covers the address. */
  function Dispatch(handlers: seq<BasicMemory>, addr: u32): (h: Option<BasicMemory>)
    ensures h.Some? ==> h.value in handlers && h.value.Covers(addr)
  {
    if handlers == [] then None
    else if handlers[0].Covers(addr) then Some(handlers[0])
    else Dispatch(handlers[1..], addr)
  }

  /** A handler whose region reaches or passes 2^32 covers nothing. */
  lemma NoCoverAtTop(h: BasicMemory, addr: u32)
    requires h.baseAddr + h.size >= 0x1_0000_0000
    ensures !h.Covers(addr)
  {
  }

  /** A region is matched on exactly the addresses from its base on, `size` of them, unless it reaches 2^32. */
  lemma CoversRange(h: BasicMemory)
    requires h.size > 0
    ensures (forall addr: u32 :: h.Covers(addr) <==> h.baseAddr <= addr < h.baseAddr + h.size)
       <==> h.baseAddr + h.size < 0x1_0000_0000
  {
    if h.baseAddr + h.size >= 0x1_0000_0000 {
      NoCoverAtTop(h, h.baseAddr);
      assert h.baseAddr <= h.baseAddr < h.baseAddr + h.size;
    } else {
      assert Add(h.baseAddr, h.size) == h.baseAddr + h.size;
    }
  }

  lemma {:induction false} DispatchAppend(handlers: seq<BasicMemory>, h: BasicMemory, addr: u32)
    ensures Dispatch(handlers + [h], addr)
         == if Dispatch(handlers, addr).Some? then Dispatch(handlers, addr)
            else if h.Covers(addr) then Some(h) else None
  {
    if handlers == [] {
      assert (handlers + [h])[1..] == [];
    } else {
      assert (handlers + [h])[1..] == handlers[1..] + [h];
      DispatchAppend(handlers[1..], h, addr);
    }
  }

  /** src/mem_map_manager.cpp */
  class MemoryMapManager {
    var handlers: seq<BasicMemory>

    constructor ()
      ensures handlers == []
    {
      handlers := [];
    }

    /** Every handler owns its array. */
    ghost predicate Valid()
      reads this
    {
      && (forall h | h in handlers :: h.Valid())
      && (forall g, h | g in handlers && h in handlers && g != h :: g.memoryArray != h.memoryArray)
    }

    ghost function Arrays(): set<object>
      reads this
    {
      set h | h in handlers :: h.memoryArray
    }

    /** The memory as the rest of the emulator sees it. */
    ghost function Contents(): Flat.Bytes
      requires Valid()
      reads this, Arrays()
    {
      imap a: u32 | Dispatch(handlers, a).Some?
        :: var h := Dispatch(handlers, a).value; h.memoryArray[a - h.baseAddr]
    }

    method GetHandler(addr: u32) returns (h: Option<BasicMemory>)
      ensures h == Dispatch(handlers, addr)
    {
      var i := 0;
      while i < |handlers|
        invariant 0 <= i <= |handlers|
        invariant Dispatch(handlers, addr) == Dispatch(handlers[i..], addr)
      {
        var lastAddr := Add(handlers[i].baseAddr, handlers[i].size);
        assert handlers[i..][1..] == handlers[i + 1..];
        if addr >= handlers[i].baseAddr && addr < lastAddr {
          return Some(handlers[i]);
        }
        i := i + 1;
      }
      return None;
    }

    method RegisterHandler(handler: BasicMemory)
      requires Valid() && handler.Valid()
      requires forall h | h in handlers && h != handler :: h.memoryArray != handler.memoryArray
      modifies this
      ensures Valid() && handlers == old(handlers) + [handler]
      ensures forall a: u32 | a in old(Contents()) :: a in Contents() && Contents()[a] == old(Contents())[a]
      ensures forall a: u32 | a !in old(Contents()) :: a in Contents() <==> handler.Covers(a)
      ensures forall a: u32 | a !in old(Contents()) && handler.Covers(a) ::
                Contents()[a] == handler.memoryArray[a - handler.baseAddr]
    {
      handlers := handlers + [handler];
      forall a: u32
        ensures Dispatch(handlers, a)
             == if Dispatch(old(handlers), a).Some? then Dispatch(old(handlers), a)
                else if handler.Covers(a) then Some(handler) else None
      {
        DispatchAppend(old(handlers), handler, a);
      }
    }

    method ReadByte(addr: u32) returns (r: Option<u8>)
      requires Valid()
      ensures r == Flat.ReadByte(Contents(), addr)
    {
      var h := GetHandler(addr);
      if h.None? {
        return None;
      }
      var b := h.value.ReadByte(addr);
      return Some(b);
    }

    method ReadHalfword(addr: u32) returns (r: Option<u16>)
      requires Valid()
      ensures r == Flat.ReadHalfword(Contents(), addr)
    {
      var byte0 := ReadByte(addr);
      if byte0.None? {
        return None;
      }
      var byte1 := ReadByte(Add(addr, 1));
      if byte1.None? {
        return None;
      }
      return Some(Flat.JoinBytes(byte0.value, byte1.value));
    }

    method ReadWord(addr: u32) returns (r: Option<u32>)
      requires Valid()
      ensures r == Flat.ReadWord(Contents(), addr)
    {
      var half0 := ReadHalfword(addr);
      if half0.None? {
        return None;
      }
      var half1 := ReadHalfword(Add(addr, 2));
      if half1.None? {
        return None;
      }
      return Some(Flat.JoinHalves(half0.value, half1.value));
    }

    method WriteByte(addr: u32, val: u8) returns (ok: bool)
      requires Valid()
      modifies Arrays()
      ensures Valid() && Flat.WriteByte(old(Contents()), addr, val)
                      == if ok then Flat.Stored(Contents()) else Flat.Stopped(Contents())
    {
      var h := GetHandler(addr);
      if h.None? {
        return false;
      }
      h.value.WriteByte(addr, val);
      assert Contents() == old(Contents())[addr := val];
      return true;
    }

    method WriteHalfword(addr: u32, val: u16) returns (ok: bool)
      requires Valid()
      modifies Arrays()
      ensures Valid() && Flat.WriteHalfword(old(Contents()), addr, val)
                      == if ok then Flat.Stored(Contents()) else Flat.Stopped(Contents())
    {
      ok := WriteByte(addr, val % 0x100);
      if ok {
        ok := WriteByte(Add(addr, 1), val / 0x100);
      }
    }

    method WriteWord(addr: u32, val: u32) returns (ok: bool)
      requires Valid()
      modifies Arrays()
      ensures Valid() && Flat.WriteWord(old(Contents()), addr, val)
                      == if ok then Flat.Stored(Contents()) else Flat.Stopped(Contents())
    {
      ok := WriteHalfword(addr, val % 0x1_0000);
      if ok {
        ok := WriteHalfword(Add(addr, 2), val / 0x1_0000);
      }
    }

    /** Every region starts and ends on a word boundary. */
    ghost predicate WordAligned()
      reads this
    {
      forall h | h in handlers :: h.baseAddr % 4 == 0 && h.size % 4 == 0
    }
  }

  lemma {:induction false} AlignedDispatch(handlers: seq<BasicMemory>, a: u32, b: u32)
    requires forall h | h in handlers :: h.baseAddr % 4 == 0 && h.size % 4 == 0
    requires a / 4 == b / 4
    ensures Dispatch(handlers, a) == Dispatch(handlers, b)
  {
    if handlers != [] {
      AlignedCover(handlers[0], a, b);
      AlignedDispatch(handlers[1..], a, b);
    }
  }

  lemma AlignedCover(h: BasicMemory, a: u32, b: u32)
    requires h.baseAddr % 4 == 0 && h.size % 4 == 0 && a / 4 == b / 4
    ensures h.Covers(a) <==> h.Covers(b)
  {
    assert Add(h.baseAddr, h.size) % 4 == 0;
    SameWord(h.baseAddr, a, b);
    SameWord(Add(h.baseAddr, h.size), a, b);
  }

  lemma SameWord(bound: u32, a: u32, b: u32)
    requires bound % 4 == 0 && a / 4 == b / 4
    ensures bound <= a <==> bound <= b
  {
  }

  lemma AlignedSpan(handlers: seq<BasicMemory>, addr: u32)
    requires forall h | h in handlers :: h.baseAddr % 4 == 0 && h.size % 4 == 0
    requires addr % 4 == 0
    ensures forall b | b in Flat.Span(addr, 4) :: Dispatch(handlers, b) == Dispatch(handlers, addr)
  {
    Flat.Spans(addr);
    Flat.Offsets(addr);
    forall b | b in Flat.Span(addr, 4)
      ensures Dispatch(handlers, b) == Dispatch(handlers, addr)
    {
      AlignedDispatch(handlers, b, addr);
    }
  }

  /**
   * With word-aligned regions an aligned word write stores all four bytes in one handler, or throws
   * with memory unchanged.
   */
  lemma AlignedAllOrNothing(mem: MemoryMapManager, addr: u32, val: u32)
    requires mem.Valid() && mem.WordAligned() && addr % 4 == 0
    ensures forall b | b in Flat.Span(addr, 4) :: Dispatch(mem.handlers, b) == Dispatch(mem.handlers, addr)
    ensures Flat.WriteWord(mem.Contents(), addr, val).Stored? <==> Dispatch(mem.handlers, addr).Some?
    ensures Dispatch(mem.handlers, addr).None?
        ==> Flat.WriteWord(mem.Contents(), addr, val) == Flat.Stopped(mem.Contents())
  {
    AlignedSpan(mem.handlers, addr);
    Flat.WordRoundTrip(mem.Contents(), addr, val);
    assert addr in Flat.Span(addr, 4) by {
      Flat.Spans(addr);
    }
  }
}
