/** The 32-bit arithmetic of the hart: wrap-around, two's complement, shifts and bitwise operators. */
module Words {
  import opened Bits

  /** Conversion of any integer to `uint32_t`. */
  function Wrap(n: int): u32 {
    n % 0x1_0000_0000
  }

  /** `static_cast<int32_t>`. */
  function Signed(a: u32): int {
    if a >= 0x8000_0000 then a - 0x1_0000_0000 else a
  }

  function Add(a: u32, b: u32): u32 {
    Wrap(a + b)
  }

  function Sub(a: u32, b: u32): u32 {
    Wrap(a - b)
  }

  /** The macro SIGN_EXTEND: the low `width` bits of a word, read as two's complement. */
  function SignExtend(n: nat, width: nat): u32
    requires 0 < width <= 32
  {
    Wrap(if n / Pow2(width - 1) == 1 then n - Pow2(width) else n)
  }

  function And(a: nat, b: nat): nat {
    if a == 0 || b == 0 then 0 else (a % 2) * (b % 2) + 2 * And(a / 2, b / 2)
  }

  function Or(a: nat, b: nat): nat {
    if a == 0 then b else (if a % 2 == 1 || b % 2 == 1 then 1 else 0) + 2 * Or(a / 2, b / 2)
  }

  function Xor(a: nat, b: nat): nat {
    if a == 0 then b else (if a % 2 != b % 2 then 1 else 0) + 2 * Xor(a / 2, b / 2)
  }

  lemma {:induction false} AndBound(a: nat, b: nat)
    ensures And(a, b) <= a
  {
    if a != 0 && b != 0 {
      AndBound(a / 2, b / 2);
      assert (a % 2) * (b % 2) <= a % 2 by {
        if b % 2 == 0 {
        } else {
          assert b % 2 == 1;
        }
      }
    }
  }

  lemma {:induction false} OrBound(a: nat, b: nat, width: nat)
    requires a < Pow2(width) && b < Pow2(width)
    ensures Or(a, b) < Pow2(width) && Xor(a, b) < Pow2(width)
    decreases width
  {
    if a != 0 {
      OrBound(a / 2, b / 2, width - 1);
    }
  }

  lemma Pow2Of32()
    ensures Pow2(32) == 0x1_0000_0000
  {
    assert Pow2(8) == 0x100;
    Pow2Add(8, 8);
    Pow2Add(16, 16);
  }

  function And32(a: u32, b: u32): u32 {
    AndBound(a, b);
    And(a, b)
  }

  function Or32(a: u32, b: u32): u32 {
    Pow2Of32();
    OrBound(a, b, 32);
    Or(a, b)
  }

  function Xor32(a: u32, b: u32): u32 {
    Pow2Of32();
    OrBound(a, b, 32);
    Xor(a, b)
  }

  function Not32(a: u32): u32 {
    0xFFFF_FFFF - a
  }

  function Shl(a: u32, amount: nat): u32 {
    Wrap(a * Pow2(amount))
  }

  function Shr(a: u32, amount: nat): u32 {
    ShrBound(a, Pow2(amount));
    a / Pow2(amount)
  }

  lemma ShrBound(a: nat, d: nat)
    requires d > 0
    ensures 0 <= a / d <= a
  {
    Euclid(a, d);
    QuotientBound(a, a / d, a % d, d);
  }

  lemma QuotientBound(x: nat, q: int, r: nat, d: nat)
    requires x == q * d + r && r < d
    ensures 0 <= q <= x
  {
    MulAtLeast(q, d);
    assert q >= 0 ==> q * (d - 1) >= 0;
  }

  /** `>>` on `int32_t`: the sign bit is shifted in. */
  function Sar(a: u32, amount: nat): u32 {
    Wrap(Signed(a) / Pow2(amount))
  }

  /** A field write kept in its word. */
  function SetField(bits: u32, lo: nat, len: nat, v: nat): u32
    requires lo + len <= 32
  {
    Pow2Of32();
    WriteBound(bits, lo, len, v, 32);
    Write(bits, lo, len, v)
  }
}
