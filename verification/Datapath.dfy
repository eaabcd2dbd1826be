/** What the loads, branches, bitwise operators and shifts compute, against independent readings. */
module Datapath {
  import opened Bits
  import opened Words
  import opened Wrappers
  import opened FlatMemory
  import opened PageWalk
  import opened Csrs
  import opened Instructions
  import opened Decoder
  import opened Execute
  import opened Sv32Refinement
  import MulDiv

  // --- A store read back by each load ---

  /** `r` is the two's-complement number of the low `width` bits of `v`, as a register holds it. */
  ghost predicate SignedPart(r: u32, v: u32, width: nat) {
    width > 0 && (Signed(r) - v) % Pow2(width) == 0 && 0 - Pow2(width - 1) <= Signed(r) < Pow2(width - 1)
  }

  lemma NarrowPowers()
    ensures Pow2(7) == 0x80 && Pow2(8) == 0x100 && Pow2(15) == 0x8000 && Pow2(16) == 0x1_0000
  {
    assert Pow2(8) == 0x100;
    Pow2Add(7, 8);
    Pow2Add(8, 8);
  }

  lemma SignedByte(v: u32)
    ensures SignedPart(SignExtend(v % 0x100, 8), v, 8)
  {
    NarrowPowers();
    hide Pow2;
    var n := v % 0x100;
    assert Signed(SignExtend(n, 8)) == if n >= 0x80 then n - 0x100 else n;
  }

  lemma SignedHalfword(v: u32)
    ensures SignedPart(SignExtend(v % 0x1_0000, 16), v, 16)
  {
    NarrowPowers();
    hide Pow2;
    var n := v % 0x1_0000;
    assert Signed(SignExtend(n, 16)) == if n >= 0x8000 then n - 0x1_0000 else n;
  }

  lemma WordStored(m: Bytes, a: u32, v: u32)
    ensures var st := StoreValue(SW, m, a, v); st.Stored? ==> LoadValue(LW, st.bytes, a) == Some(v)
  {
    WordRoundTrip(m, a, v);
    hide ReadWord, WriteWord;
  }

  lemma HalfwordStored(m: Bytes, a: u32, v: u32)
    ensures var st := StoreValue(SH, m, a, v); st.Stored? ==>
      && LoadValue(LHU, st.bytes, a) == Some(v % 0x1_0000)
      && LoadValue(LH, st.bytes, a) == Some(SignExtend(v % 0x1_0000, 16))
  {
    HalfwordRoundTrip(m, a, v % 0x1_0000);
    hide ReadHalfword, WriteHalfword, SignExtend;
    var n: u16 := v % 0x1_0000;
    var st := WriteHalfword(m, a, n);
    assert StoreValue(SH, m, a, v) == st;
    hide StoreValue, ChangedOnly, Mapped;
    if st.Stored? {
      HalfwordLoads(st.bytes, a, n);
    }
  }

  lemma HalfwordLoads(m: Bytes, a: u32, n: u16)
    requires ReadHalfword(m, a) == Some(n)
    ensures LoadValue(LHU, m, a) == Some(n) && LoadValue(LH, m, a) == Some(SignExtend(n, 16))
  {
    hide ReadHalfword, SignExtend, Wrap, ReadWord, ReadByte, MapByte;
    WrapSmall(n);
  }

  lemma ByteStored(m: Bytes, a: u32, v: u32)
    ensures var st := StoreValue(SB, m, a, v); st.Stored? ==>
      && LoadValue(LBU, st.bytes, a) == Some(v % 0x100)
      && LoadValue(LB, st.bytes, a) == Some(SignExtend(v % 0x100, 8))
  {
    hide SignExtend;
  }

  /** A word, halfword or byte that was stored is loaded back, zero- or sign-extended. */
  lemma LoadStored(m: Bytes, a: u32, v: u32)
    ensures var st := StoreValue(SW, m, a, v); st.Stored? ==> LoadValue(LW, st.bytes, a) == Some(v)
    ensures var st := StoreValue(SH, m, a, v); st.Stored? ==>
      && LoadValue(LHU, st.bytes, a) == Some(v % 0x1_0000)
      && LoadValue(LH, st.bytes, a).Some? && SignedPart(LoadValue(LH, st.bytes, a).value, v, 16)
    ensures var st := StoreValue(SB, m, a, v); st.Stored? ==>
      && LoadValue(LBU, st.bytes, a) == Some(v % 0x100)
      && LoadValue(LB, st.bytes, a).Some? && SignedPart(LoadValue(LB, st.bytes, a).value, v, 8)
  {
    hide StoreValue, LoadValue, SignExtend, SignedPart;
    WordStored(m, a, v);
    HalfwordStored(m, a, v);
    ByteStored(m, a, v);
    SignedHalfword(v);
    SignedByte(v);
  }

  // --- Comparisons ---

  /** The branches come in complementary pairs, and the orders are total. */
  lemma BranchOrder(a: u32, b: u32)
    ensures Taken(BNE, a, b) <==> !Taken(BEQ, a, b)
    ensures Taken(BGE, a, b) <==> !Taken(BLT, a, b)
    ensures Taken(BGEU, a, b) <==> !Taken(BLTU, a, b)
    ensures Taken(BEQ, a, b) <==> Taken(BGE, a, b) && Taken(BGE, b, a)
    ensures Taken(BEQ, a, b) <==> Taken(BGEU, a, b) && Taken(BGEU, b, a)
    ensures a / 0x8000_0000 == b / 0x8000_0000 ==> (Taken(BLT, a, b) <==> Taken(BLTU, a, b))
    ensures a / 0x8000_0000 != b / 0x8000_0000 ==> (Taken(BLT, a, b) <==> Taken(BLTU, b, a))
  {
  }

  /** Between them AMOMIN and AMOMAX return the two words in signed order. */
  lemma MinMax(val: u32, b: u32)
    ensures multiset{Rmw(AMOMIN_W, val, b), Rmw(AMOMAX_W, val, b)} == multiset{val, b}
    ensures Signed(Rmw(AMOMIN_W, val, b)) <= Signed(Rmw(AMOMAX_W, val, b))
  {
    hide Add, And32, Or32, Xor32;
  }

  /** AMOMINU and AMOMAXU return them in unsigned order. */
  lemma MinMaxUnsigned(val: u32, b: u32)
    ensures multiset{Rmw(AMOMINU_W, val, b), Rmw(AMOMAXU_W, val, b)} == multiset{val, b}
    ensures Rmw(AMOMINU_W, val, b) <= Rmw(AMOMAXU_W, val, b)
  {
    hide Add, And32, Or32, Xor32, Signed;
  }

  // --- Bitwise operators, bit by bit ---

  lemma {:induction false} AndBits(a: nat, b: nat, k: nat)
    ensures Read(And(a, b), k, 1) == if Read(a, k, 1) == 1 && Read(b, k, 1) == 1 then 1 else 0
    decreases k
  {
    ZeroBit(k);
    BitOf(a, k);
    BitOf(b, k);
    if a != 0 && b != 0 {
      var low := (a % 2) * (b % 2);
      assert low == if a % 2 == 1 && b % 2 == 1 then 1 else 0;
      BitOf(And(a, b), k);
      assert And(a, b) / 2 == And(a / 2, b / 2);
      if k > 0 {
        AndBits(a / 2, b / 2, k - 1);
      }
    }
  }

  lemma {:induction false} OrXorBits(a: nat, b: nat, k: nat)
    ensures Read(Or(a, b), k, 1) == if Read(a, k, 1) == 1 || Read(b, k, 1) == 1 then 1 else 0
    ensures Read(Xor(a, b), k, 1) == if Read(a, k, 1) != Read(b, k, 1) then 1 else 0
    decreases k
  {
    ZeroBit(k);
    BitOf(a, k);
    BitOf(b, k);
    if a != 0 {
      BitOf(Or(a, b), k);
      BitOf(Xor(a, b), k);
      if k > 0 {
        OrXorBits(a / 2, b / 2, k - 1);
      }
    }
  }

  lemma {:induction false} ZeroBit(k: nat)
    ensures Read(0, k, 1) == 0
  {
    if k > 0 {
      ZeroBit(k - 1);
    }
  }

  /** Bit `k` of a word: its parity, or bit `k - 1` of its half. */
  lemma BitOf(a: nat, k: nat)
    ensures Read(a, k, 1) == if k == 0 then a % 2 else Read(a / 2, k - 1, 1)
    ensures Read(a, k, 1) < 2
  {
    ReadBound(a, k, 1);
    assert Pow2(1) == 2;
    if k == 0 {
      assert Read(a / 2, 0, 0) == 0;
    }
  }

  lemma {:induction false} NotBits(a: nat, width: nat, k: nat)
    requires a < Pow2(width) && k < width
    ensures Read(Pow2(width) - 1 - a, k, 1) == 1 - Read(a, k, 1)
    decreases k
  {
    var n := Pow2(width) - 1 - a;
    BitOf(a, k);
    BitOf(n, k);
    assert Pow2(width) == 2 * Pow2(width - 1);
    assert n % 2 == 1 - a % 2 && n / 2 == Pow2(width - 1) - 1 - a / 2;
    if k > 0 {
      NotBits(a / 2, width - 1, k - 1);
    }
  }

  // --- Field writes, as shifts and masks ---

  function Ones(len: nat): nat {
    Pow2(len) - 1
  }

  /** `((1ULL << SIZE) - 1) << BEGIN` */
  function FieldMask(lo: nat, len: nat): nat {
    Ones(len) * Pow2(lo)
  }

  lemma {:induction false} OnesBit(len: nat, k: nat)
    ensures Read(Ones(len), k, 1) == if k < len then 1 else 0
    decreases len
  {
    BitOf(Ones(len), k);
    if len == 0 {
      ZeroBit(k);
    } else {
      assert Ones(len) == 2 * Ones(len - 1) + 1;
      if k > 0 {
        OnesBit(len - 1, k - 1);
      }
    }
  }

  lemma {:induction false} ShiftBit(v: nat, lo: nat, k: nat)
    ensures Read(v * Pow2(lo), k, 1) == if k < lo then 0 else Read(v, k - lo, 1)
    decreases lo
  {
    if lo > 0 {
      var half := v * Pow2(lo - 1);
      assert v * Pow2(lo) == 2 * half;
      BitOf(2 * half, k);
      if k > 0 {
        ShiftBit(v, lo - 1, k - 1);
      }
    }
  }

  lemma MaskBit(lo: nat, len: nat, k: nat)
    ensures Read(FieldMask(lo, len), k, 1) == if lo <= k < lo + len then 1 else 0
  {
    hide Read, Pow2, Ones;
    ShiftBit(Ones(len), lo, k);
    if k >= lo {
      OnesBit(len, k - lo);
    }
  }

  /** Cutting a number off at a width keeps the bits below it. */
  lemma {:induction false} CutBit(x: nat, width: nat, k: nat)
    requires k < width
    ensures Read(x % Pow2(width), k, 1) == Read(x, k, 1)
    decreases k
  {
    HalveDiv(x, Pow2(width - 1));
    BitOf(x, k);
    BitOf(x % Pow2(width), k);
    if k > 0 {
      CutBit(x / 2, width - 1, k - 1);
    }
  }

  lemma {:induction false} WriteBit(bits: nat, lo: nat, len: nat, v: nat, k: nat)
    ensures Read(Write(bits, lo, len, v), k, 1) == if lo <= k < lo + len then Read(v, k - lo, 1) else Read(bits, k, 1)
    decreases lo, len
  {
    BitOf(Write(bits, lo, len, v), k);
    BitOf(bits, k);
    if lo > 0 {
      if k > 0 {
        WriteBit(bits / 2, lo - 1, len, v, k - 1);
      }
    } else if len > 0 {
      BitOf(v, k);
      if k > 0 {
        WriteBit(bits / 2, 0, len - 1, v / 2, k - 1);
      }
    }
  }

  /** The assignment to a field as the source computes it, in a word of the given width. */
  function MaskedWrite(bits: nat, lo: nat, len: nat, v: nat, width: nat): nat
    requires lo + len <= width
  {
    MaskBound(lo, len, width);
    Or(And(bits, Pow2(width) - 1 - FieldMask(lo, len)), And(v * Pow2(lo) % Pow2(width), FieldMask(lo, len)))
  }

  lemma MaskBound(lo: nat, len: nat, width: nat)
    requires lo + len <= width
    ensures FieldMask(lo, len) < Pow2(width)
  {
    Pow2Add(len, lo);
    Pow2Add(lo + len, width - lo - len);
    hide Pow2;
    MulAtLeast(Pow2(width - lo - len), Pow2(lo + len));
    Less(Pow2(len), Pow2(lo));
  }

  lemma Less(a: nat, b: nat)
    requires a > 0 && b > 0
    ensures (a - 1) * b < a * b
  {
    assert (a - 1) * b == a * b - b;
  }

  lemma MaskedBit(bits: nat, lo: nat, len: nat, v: nat, width: nat, k: nat)
    requires lo + len <= width && k < width
    ensures Read(MaskedWrite(bits, lo, len, v, width), k, 1)
         == if lo <= k < lo + len then Read(v, k - lo, 1) else Read(bits, k, 1)
  {
    hide Read, And, Or, Pow2, FieldMask;
    MaskBound(lo, len, width);
    var mask, shifted := FieldMask(lo, len), v * Pow2(lo) % Pow2(width);
    var clear := Pow2(width) - 1 - mask;
    MaskBit(lo, len, k);
    NotBits(mask, width, k);
    CutBit(v * Pow2(lo), width, k);
    ShiftBit(v, lo, k);
    AndBits(bits, clear, k);
    AndBits(shifted, mask, k);
    OrXorBits(And(bits, clear), And(shifted, mask), k);
    BitOf(bits, k);
    BitOf(shifted, k);
  }

  /** Writing a field is `(bits & ~mask) | ((other << BEGIN) & mask)`. */
  lemma WriteIsMasked(bits: nat, lo: nat, len: nat, v: nat, width: nat)
    requires bits < Pow2(width) && lo + len <= width
    ensures Write(bits, lo, len, v) == MaskedWrite(bits, lo, len, v, width)
  {
    hide Read, Write, MaskedWrite;
    forall k: nat | k < width
      ensures Read(Write(bits, lo, len, v), k, 1) == Read(MaskedWrite(bits, lo, len, v, width), k, 1)
    {
      WriteBit(bits, lo, len, v, k);
      MaskedBit(bits, lo, len, v, width, k);
    }
    WriteBound(bits, lo, len, v, width);
    MaskedBound(bits, lo, len, v, width);
    ReadAll(Write(bits, lo, len, v), MaskedWrite(bits, lo, len, v, width), width);
  }

  lemma MaskedBound(bits: nat, lo: nat, len: nat, v: nat, width: nat)
    requires bits < Pow2(width) && lo + len <= width
    ensures MaskedWrite(bits, lo, len, v, width) < Pow2(width)
  {
    hide And, Or, Pow2, FieldMask;
    MaskBound(lo, len, width);
    var mask, shifted := FieldMask(lo, len), v * Pow2(lo) % Pow2(width);
    AndBound(bits, Pow2(width) - 1 - mask);
    AndBound(shifted, mask);
    OrBound(And(bits, Pow2(width) - 1 - mask), And(shifted, mask), width);
  }

  lemma Not32Bits(a: u32, k: nat)
    requires k < 32
    ensures Bit(Not32(a), k) == 1 - Bit(a, k)
  {
    hide Read;
    Pow2Of32();
    NotBits(a, 32, k);
  }

  lemma SetBits(a: u32, b: u32, k: nat)
    ensures Bit(Or32(a, b), k) == if Bit(b, k) == 1 then 1 else Bit(a, k)
  {
    BitBound(a, k);
    BitBound(b, k);
    OrXorBits(a, b, k);
    hide Read, Or;
  }

  lemma ClearBits(a: u32, b: u32, k: nat)
    requires k < 32
    ensures Bit(And32(a, Not32(b)), k) == if Bit(b, k) == 1 then 0 else Bit(a, k)
  {
    BitBound(a, k);
    BitBound(b, k);
    Not32Bits(b, k);
    AndBits(a, Not32(b), k);
    hide Read, And, Not32;
  }

  /** CSRRS and CSRRSI set exactly the bits of their operand, CSRRC and CSRRCI clear exactly those. */
  lemma CsrBits(before: u32, rs1Value: u32, uimm: reg, k: nat)
    requires k < 32
    ensures Bit(CsrResult(CSRRS, before, rs1Value, uimm), k) == if Bit(rs1Value, k) == 1 then 1 else Bit(before, k)
    ensures Bit(CsrResult(CSRRSI, before, rs1Value, uimm), k) == if Bit(uimm, k) == 1 then 1 else Bit(before, k)
    ensures Bit(CsrResult(CSRRC, before, rs1Value, uimm), k) == if Bit(rs1Value, k) == 1 then 0 else Bit(before, k)
    ensures Bit(CsrResult(CSRRCI, before, rs1Value, uimm), k) == if Bit(uimm, k) == 1 then 0 else Bit(before, k)
  {
    hide Bit, Or32, And32, Not32;
    SetBits(before, rs1Value, k);
    SetBits(before, uimm, k);
    ClearBits(before, rs1Value, k);
    ClearBits(before, uimm, k);
  }

  // --- Addition and shifts ---

  lemma Sums(a: u32, b: u32)
    ensures Sub(Add(a, b), b) == a
    ensures Add(a, b) == Wrap(Signed(a) + Signed(b))
  {
    AddThenSub(a, b);
    var i := MulDiv.SignedIs(a);
    var j := MulDiv.SignedIs(b);
    MulDiv.LowWord(a + b, Signed(a) + Signed(b), i + j);
    hide Wrap, Signed, Sub;
  }

  lemma AddThenSub(a: u32, b: u32)
    ensures Sub(Add(a, b), b) == a
  {
  }

  /** SUB undoes ADD, and the sum is the signed and the unsigned one modulo 2^32. */
  lemma SubUndoesAdd(a: u32, b: u32)
    ensures Alu(SUB, Alu(ADD, a, b), b) == a
    ensures Alu(ADD, a, b) == Wrap(Signed(a) + Signed(b))
    ensures AluImm(ADDI, a, b, 0) == Alu(ADD, a, b)
  {
    Sums(a, b);
    hide Add, Sub, Signed, Wrap, And32, Or32, Xor32, Shl, Shr, Sar;
    hide MulDiv.Mul, MulDiv.Mulh, MulDiv.Mulhu, MulDiv.Mulhsu, MulDiv.Div, MulDiv.Divu, MulDiv.Rem, MulDiv.Remu;
  }

  lemma SarDivides(a: u32, amount: nat)
    ensures Signed(Sar(a, amount)) == Signed(a) / Pow2(amount)
  {
    var d := Pow2(amount);
    hide Pow2;
    QuotientNarrow(Signed(a), d);
    MulDiv.SignedWrap(Signed(a) / d);
  }

  lemma QuotientNarrow(x: int, d: nat)
    requires -0x8000_0000 <= x < 0x8000_0000 && d > 0
    ensures -0x8000_0000 <= x / d < 0x8000_0000
  {
    Euclid(x, d);
    Narrow(x, x / d, x % d, d);
  }

  lemma Narrow(x: int, q: int, r: nat, d: nat)
    requires x == q * d + r && r < d
    ensures x >= 0 ==> 0 <= q <= x
    ensures x < 0 ==> x <= q < 0
  {
    MulAtLeast(q, d);
    MulAtLeast(q, d - 1);
    if q < 0 {
      MulAtMostOne(q, d);
    }
  }

  lemma MulAtMostOne(q: int, d: nat)
    requires q < 0 && d > 0
    ensures q * d <= q - (d - 1)
  {
    var k := -1 - q;
    MulAtLeast(d, k);
    Distribute(0, q, 1 + k, d);
    Distribute(1 + k, 1, k, d);
  }

  /** SRA divides the signed number rounding down, SRL the unsigned one; only the low five bits of rs2 count. */
  lemma ShiftsDivide(a: u32, b: u32)
    ensures Signed(Alu(SRA, a, b)) == Signed(a) / Pow2(b % 32)
    ensures Alu(SRL, a, b) == a / Pow2(b % 32)
  {
    SarDivides(a, b % 32);
    hide Pow2, Signed, Sar;
  }

  /** Shifting left and back drops the bits shifted out. */
  lemma ShiftBack(a: u32, shamt: reg)
    ensures AluImm(SRLI, AluImm(SLLI, a, 0, shamt), 0, shamt) == a % Pow2(32 - shamt)
  {
    ShlThenShr(a, shamt);
    hide Shl, Shr, Pow2;
  }

  lemma ShlThenShr(a: u32, shamt: nat)
    requires shamt <= 32
    ensures Shr(Shl(a, shamt), shamt) == a % Pow2(32 - shamt)
  {
    var d, e := Pow2(shamt), Pow2(32 - shamt);
    Pow2Of32();
    Pow2Add(shamt, 32 - shamt);
    hide Pow2;
    ModScaled(a, d, e);
    DivMod((a % e) * d, a % e, 0, d);
  }

  /** Scaling a number and the modulus scales the remainder. */
  lemma ModScaled(a: nat, d: nat, e: nat)
    requires d > 0 && e > 0
    ensures d * e > 0 && (a * d) % (d * e) == (a % e) * d
  {
    Euclid(a, e);
    Scaled(a, a / e, a % e, d, e);
    DivMod(a * d, a / e, (a % e) * d, d * e);
  }

  lemma Scaled(a: nat, q: nat, r: nat, d: nat, e: nat)
    requires a == q * e + r && r < e && d > 0
    ensures a * d == q * (d * e) + r * d && 0 <= r * d < d * e
  {
    MulAtLeast(e - r, d);
    Distribute(e, r, e - r, d);
    Distribute(a, q * e, r, d);
    Associate(q, e, d);
    assert r * d >= 0;
  }

  lemma Distribute(x: int, y: int, z: int, d: int)
    requires x == y + z
    ensures x * d == y * d + z * d
  {
  }

  lemma Associate(q: int, e: int, d: int)
    ensures (q * e) * d == q * (d * e)
  {
  }
}
