/**
 * Physical memory as one partial map from addresses to bytes, with the little-endian
 * accesses of src/mem_map_manager.cpp. A missing address is the source's "No registered handler".
 */
module FlatMemory {
  import opened Bits
  import opened Words
  import opened Wrappers

  type Bytes = imap<u32, u8>

  /** A write either completes or is stopped by an exception with the bytes written so far in place. */
  datatype Store = Stored(bytes: Bytes) | Stopped(bytes: Bytes)

  function ReadByte(m: Bytes, a: u32): Option<u8> {
    if a in m then Some(m[a]) else None
  }

  function JoinBytes(low: u8, high: u8): u16 {
    low + 0x100 * high
  }

  function JoinHalves(low: u16, high: u16): u32 {
    low + 0x1_0000 * high
  }

  function ReadHalfword(m: Bytes, a: u32): Option<u16> {
    match (ReadByte(m, a), ReadByte(m, Add(a, 1)))
    case (Some(b0), Some(b1)) => Some(JoinBytes(b0, b1))
    case _ => None
  }

  function ReadWord(m: Bytes, a: u32): Option<u32> {
    match (ReadHalfword(m, a), ReadHalfword(m, Add(a, 2)))
    case (Some(h0), Some(h1)) => Some(JoinHalves(h0, h1))
    case _ => None
  }

  function WriteByte(m: Bytes, a: u32, v: u8): Store {
    if a in m then Stored(m[a := v]) else Stopped(m)
  }

  function WriteHalfword(m: Bytes, a: u32, v: u16): Store {
    match WriteByte(m, a, v % 0x100)
    case Stopped(_) => Stopped(m)
    case Stored(m1) => WriteByte(m1, Add(a, 1), v / 0x100)
  }

  function WriteWord(m: Bytes, a: u32, v: u32): Store {
    match WriteHalfword(m, a, v % 0x1_0000)
    case Stopped(m1) => Stopped(m1)
    case Stored(m1) => WriteHalfword(m1, Add(a, 2), v / 0x1_0000)
  }

  /** The `n` addresses from `a` on, with wrap-around. */
  function Span(a: u32, n: nat): set<u32> {
    if n == 0 then {} else Span(a, n - 1) + {Wrap(a + n - 1)}
  }

  /** `m'` differs from `m` at most on the `n` bytes that start at `a`. */
  ghost predicate ChangedOnly(m: Bytes, m': Bytes, a: u32, n: nat) {
    && m'.Keys == m.Keys
    && forall b: u32 | b in m && b !in Span(a, n) :: m'[b] == m[b]
  }

  ghost predicate Mapped(m: Bytes, a: u32, n: nat) {
    forall b | b in Span(a, n) :: b in m
  }

  lemma Offsets(a: u32)
    ensures Wrap(a) == a && Wrap(a + 1) == Add(a, 1) && Wrap(a + 2) == Add(a, 2) && Wrap(a + 3) == Add(Add(a, 2), 1)
    ensures a != Add(a, 1) && Add(a, 2) != Add(Add(a, 2), 1)
    ensures a != Add(a, 2) && a != Add(Add(a, 2), 1) && Add(a, 1) != Add(a, 2) && Add(a, 1) != Add(Add(a, 2), 1)
    ensures a % 4 == 0 ==> Add(a, 1) == a + 1 && Add(a, 2) == a + 2 && Add(Add(a, 2), 1) == a + 3
  {
    NoWrap(a, 1);
    NoWrap(a, 2);
    NoWrap(a, 3);
    NoWrap(Add(a, 2), 1);
  }

  lemma NoWrap(a: u32, k: nat)
    requires k < 4
    ensures Wrap(a + k) == if a + k < 0x1_0000_0000 then a + k else a + k - 0x1_0000_0000
  {
  }

  lemma Spans(a: u32)
    ensures Span(a, 1) == {a} && Span(a, 2) == {a, Add(a, 1)}
    ensures Span(a, 4) == {a, Add(a, 1), Add(a, 2), Add(Add(a, 2), 1)}
  {
    Offsets(a);
    assert Span(a, 1) == {} + {Wrap(a)};
    assert Span(a, 2) == Span(a, 1) + {Wrap(a + 1)};
    assert Span(a, 4) == Span(a, 2) + {Wrap(a + 2)} + {Wrap(a + 3)};
  }

  /** A halfword is stored exactly when both its bytes are mapped, and then reads back. */
  lemma HalfwordRoundTrip(m: Bytes, a: u32, v: u16)
    ensures WriteHalfword(m, a, v).Stored? <==> Mapped(m, a, 2)
    ensures WriteHalfword(m, a, v).Stored? ==> ReadHalfword(WriteHalfword(m, a, v).bytes, a) == Some(v)
    ensures ChangedOnly(m, WriteHalfword(m, a, v).bytes, a, 2)
  {
    Spans(a);
    Offsets(a);
  }

  /** A word is stored exactly when all four bytes are mapped, and then reads back. */
  lemma WordRoundTrip(m: Bytes, a: u32, v: u32)
    ensures WriteWord(m, a, v).Stored? <==> Mapped(m, a, 4)
    ensures WriteWord(m, a, v).Stored? ==> ReadWord(WriteWord(m, a, v).bytes, a) == Some(v)
    ensures ChangedOnly(m, WriteWord(m, a, v).bytes, a, 4)
  {
    hide WriteHalfword, ReadHalfword, Mapped, ChangedOnly, Span, Add, JoinHalves;
    WordHalves(m, a, v % 0x1_0000, v / 0x1_0000);
    HalvesJoin(v);
  }

  /** The two halfword writes of a word write. */
  lemma WordHalves(m: Bytes, a: u32, lo: u16, hi: u16)
    ensures var first := WriteHalfword(m, a, lo);
      var second := WriteHalfword(first.bytes, Add(a, 2), hi);
      && (first.Stored? && second.Stored? <==> Mapped(m, a, 4))
      && (first.Stored? && second.Stored? ==>
            ReadHalfword(second.bytes, a) == Some(lo) && ReadHalfword(second.bytes, Add(a, 2)) == Some(hi))
      && ChangedOnly(m, first.bytes, a, 4) && ChangedOnly(m, second.bytes, a, 4)
  {
    hide WriteHalfword, ReadHalfword, Mapped, ChangedOnly, Span, Add;
    var c := Add(a, 2);
    var m1 := WriteHalfword(m, a, lo).bytes;
    var m2 := WriteHalfword(m1, c, hi).bytes;
    HalfwordRoundTrip(m, a, lo);
    HalfwordRoundTrip(m1, c, hi);
    HalvesMapped(m, m1, a);
    WordSpan(a);
    HalfwordFrame(m1, m2, a, c);
    ChangesJoin(m, m1, m2, a, c);
  }

  lemma HalvesJoin(v: u32)
    ensures JoinHalves(v % 0x1_0000, v / 0x1_0000) == v
  {
  }

  lemma HalvesMapped(m: Bytes, m1: Bytes, a: u32)
    requires ChangedOnly(m, m1, a, 2)
    ensures Mapped(m, a, 4) <==> Mapped(m, a, 2) && Mapped(m1, Add(a, 2), 2)
  {
    hide Span, Add;
    WordSpan(a);
    assert m1.Keys == m.Keys;
    forall b: u32
      ensures b in m1 <==> b in m
    {
      assert b in m1.Keys <==> b in m.Keys;
    }
  }

  lemma ChangesJoin(m: Bytes, m1: Bytes, m2: Bytes, a: u32, c: u32)
    requires Span(a, 4) == Span(a, 2) + Span(c, 2) && ChangedOnly(m, m1, a, 2)
    ensures ChangedOnly(m, m1, a, 4)
    ensures ChangedOnly(m1, m2, c, 2) ==> ChangedOnly(m, m2, a, 4)
  {
    hide Span;
  }

  lemma WordSpan(a: u32)
    ensures Span(a, 4) == Span(a, 2) + Span(Add(a, 2), 2)
    ensures Span(a, 2) !! Span(Add(a, 2), 2)
  {
    Spans(a);
    Spans(Add(a, 2));
    Offsets(a);
  }

  /** A read depends on nothing but the bytes it covers. */
  lemma HalfwordFrame(m: Bytes, m': Bytes, a: u32, c: u32)
    requires ChangedOnly(m, m', c, 2) && Span(a, 2) !! Span(c, 2)
    ensures ReadHalfword(m', a) == ReadHalfword(m, a)
  {
    Spans(a);
  }
}
