/** The M extension (src/rv32/hart.cpp:374-442). */
module MulDiv {
  import opened Bits
  import opened Words

  // --- What the code computes ---

  function Mul(a: u32, b: u32): u32 {
    Wrap(a * b)
  }

  /** Bits 63..32 of a product held in a `uint64_t`. */
  function High(product: int): u32 {
    (product % 0x1_0000_0000_0000_0000) / 0x1_0000_0000
  }

  function Mulh(a: u32, b: u32): u32 {
    High(Signed(a) * Signed(b))
  }

  function Mulhu(a: u32, b: u32): u32 {
    High(a * b)
  }

  function Mulhsu(a: u32, b: u32): u32 {
    High(Signed(a) * b)
  }

  function Magnitude(a: int): nat {
    if a < 0 then -a else a
  }

  /** C++ division: the quotient is rounded toward zero. */
  function TruncDiv(a: int, b: int): int
    requires b != 0
  {
    var q := Magnitude(a) / Magnitude(b);
    if (a < 0) == (b < 0) then q else -q
  }

  /** C++ remainder: it takes the sign of the dividend. */
  function TruncRem(a: int, b: int): int
    requires b != 0
  {
    a - b * TruncDiv(a, b)
  }

  function Div(a: u32, b: u32): u32 {
    if a == 0x8000_0000 && b == 0xFFFF_FFFF then a
    else if b != 0 then Wrap(TruncDiv(Signed(a), Signed(b)))
    else 0xFFFF_FFFF
  }

  function Divu(a: u32, b: u32): u32 {
    if b != 0 then Wrap(a / b) else 0xFFFF_FFFF
  }

  function Rem(a: u32, b: u32): u32 {
    if a == 0x8000_0000 && b == 0xFFFF_FFFF then 0
    else if b != 0 then Wrap(TruncRem(Signed(a), Signed(b)))
    else a
  }

  function Remu(a: u32, b: u32): u32 {
    if b != 0 then a % b else a
  }

  // --- What the two halves of a product mean ---

  /** Two registers read as one 64-bit two's-complement number. */
  function Signed64(hi: u32, lo: u32): int {
    (if hi >= 0x8000_0000 then hi - 0x1_0000_0000 else hi) * 0x1_0000_0000 + lo
  }

  /** A product in signed 64-bit range is recovered from its high and low words. */
  lemma HighLow(p: int, lo: u32)
    requires -0x8000_0000_0000_0000 <= p < 0x8000_0000_0000_0000
    requires lo == Wrap(p)
    ensures Signed64(High(p), lo) == p
  {
    var hi := p / 0x1_0000_0000;
    assert p == hi * 0x1_0000_0000 + lo;
    var k := if p >= 0 then 0 else 0x1_0000_0000;
    assert p % 0x1_0000_0000_0000_0000 == (hi + k) * 0x1_0000_0000 + lo;
    assert High(p) == hi + k;
  }

  /** Changing a factor by a multiple of 2^32 does not change the low word of the product. */
  lemma LowWord(p: int, q: int, k: int)
    requires p == q + k * 0x1_0000_0000
    ensures Wrap(p) == Wrap(q)
  {
  }

  lemma SignedIs(a: u32)
    returns (k: int)
    ensures k == 0 || k == 1
    ensures Signed(a) == a - k * 0x1_0000_0000
    ensures -0x8000_0000 <= Signed(a) < 0x8000_0000
  {
    k := if a >= 0x8000_0000 then 1 else 0;
  }

  lemma ProductBound(x: int, y: int, m: nat, n: nat)
    requires 0 - m <= x <= m && 0 - n <= y <= n
    ensures 0 - m * n <= x * y <= m * n
  {
    var ax, ay := if x >= 0 then x else -x, if y >= 0 then y else -y;
    ProductAtMost(ax, ay, m, n);
    assert x * y == ax * ay || x * y == -(ax * ay);
  }

  /** MULH above MUL is the exact signed product. */
  lemma MulhPair(a: u32, b: u32)
    ensures Signed64(Mulh(a, b), Mul(a, b)) == Signed(a) * Signed(b)
  {
    var i := SignedIs(a);
    var j := SignedIs(b);
    var x, y := Signed(a), Signed(b);
    ProductBound(x, y, 0x8000_0000, 0x8000_0000);
    assert a * b == x * y + (i * y + j * x + i * j * 0x1_0000_0000) * 0x1_0000_0000 by {
      assert a == x + i * 0x1_0000_0000 && b == y + j * 0x1_0000_0000;
    }
    LowWord(a * b, x * y, i * y + j * x + i * j * 0x1_0000_0000);
    HighLow(x * y, Mul(a, b));
  }

  /** MULHSU above MUL is the exact product of a signed and an unsigned number. */
  lemma MulhsuPair(a: u32, b: u32)
    ensures Signed64(Mulhsu(a, b), Mul(a, b)) == Signed(a) * b
  {
    var i := SignedIs(a);
    var x := Signed(a);
    ProductBound(x, b, 0x8000_0000, 0xFFFF_FFFF);
    assert a * b == x * b + (i * b) * 0x1_0000_0000 by {
      assert a == x + i * 0x1_0000_0000;
    }
    LowWord(a * b, x * b, i * b);
    HighLow(x * b, Mul(a, b));
  }

  /** MULHU above MUL is the exact unsigned product. */
  lemma MulhuPair(a: u32, b: u32)
    ensures Mulhu(a, b) * 0x1_0000_0000 + Mul(a, b) == a * b
  {
    ProductAtMost(a, b, 0xFFFF_FFFF, 0xFFFF_FFFF);
    UnsignedHighLow(a * b);
  }

  lemma ProductAtMost(a: nat, b: nat, m: nat, n: nat)
    requires a <= m && b <= n
    ensures 0 <= a * b <= m * n
  {
    assert (m - a) * b >= 0;
    assert m * (n - b) >= 0;
  }

  lemma UnsignedHighLow(p: nat)
    requires p < 0x1_0000_0000_0000_0000
    ensures High(p) * 0x1_0000_0000 + Wrap(p) == p
  {
    assert p % 0x1_0000_0000_0000_0000 == p;
  }

  // --- What division promises ---

  /** `q` and `r` divide `a` by `b`, rounding toward zero. */
  ghost predicate Divides(a: int, b: int, q: int, r: int) {
    && a == b * q + r
    && (if b > 0 then -b < r < b else b < r < -b)
    && (r != 0 ==> (r > 0 <==> a > 0))
  }

  lemma TruncDivides(a: int, b: int)
    requires b != 0
    ensures Divides(a, b, TruncDiv(a, b), TruncRem(a, b))
  {
    MagnitudePositive(b);
    hide Divides, Magnitude;
    var d := Magnitude(b);
    var rest: int := Magnitude(a) % d;
    var r := if a < 0 then 0 - rest else rest;
    Euclid(Magnitude(a), d);
    Signs(a, b, Magnitude(a) / d, rest);
    RemainderIs(a, b, TruncDiv(a, b), r);
  }

  lemma MagnitudePositive(b: int)
    ensures b != 0 ==> Magnitude(b) > 0
  {
  }

  lemma RemainderIs(a: int, b: int, q: int, r: int)
    requires Divides(a, b, q, r)
    ensures a - b * q == r
  {
  }

  lemma Signs(a: int, b: int, q: int, r: int)
    requires b != 0 && Magnitude(a) == q * Magnitude(b) + r && 0 <= r < Magnitude(b)
    ensures Divides(a, b, if (a < 0) == (b < 0) then q else -q, if a < 0 then -r else r)
  {
    if b < 0 {
      assert q * (-b) == -(b * q) == b * (-q);
    }
    if a == 0 {
      MulAtLeast(q, Magnitude(b));
    }
  }

  /** At most one quotient and remainder satisfy `Divides`. */
  lemma DividesUnique(a: int, b: int, q: int, r: int, q': int, r': int)
    requires b != 0 && Divides(a, b, q, r) && Divides(a, b, q', r')
    ensures q == q' && r == r'
  {
    var d := if b > 0 then b else -b;
    var k := if b > 0 then q - q' else q' - q;
    assert k * d == r' - r by {
      assert b * q - b * q' == b * (q - q');
    }
    MulAtLeast(k, d);
  }

  /**
   * DIV and REM: outside signed overflow the registers hold the one quotient and remainder that
   * round toward zero; in every case with a non-zero divisor they recompose the dividend mod 2^32.
   */
  lemma DivRem(a: u32, b: u32)
    requires b != 0
    ensures Wrap(Signed(b) * Signed(Div(a, b)) + Signed(Rem(a, b))) == a
    ensures !(a == 0x8000_0000 && b == 0xFFFF_FFFF)
        <==> Divides(Signed(a), Signed(b), Signed(Div(a, b)), Signed(Rem(a, b)))
    ensures a == 0x8000_0000 && b == 0xFFFF_FFFF ==> Div(a, b) == a && Rem(a, b) == 0
  {
    if a == 0x8000_0000 && b == 0xFFFF_FFFF {
    } else {
      var x, y := Signed(a), Signed(b);
      var q, r := TruncDiv(x, y), TruncRem(x, y);
      TruncDivides(x, y);
      QuotientRange(x, y, q, r);
      SignedWrap(q);
      SignedWrap(r);
      assert y * q + r == x;
      assert Wrap(x) == a;
    }
  }

  lemma SignedWrap(n: int)
    requires -0x8000_0000 <= n < 0x8000_0000
    ensures Signed(Wrap(n)) == n
  {
  }

  lemma QuotientRange(x: int, y: int, q: int, r: int)
    requires -0x8000_0000 <= x < 0x8000_0000 && -0x8000_0000 <= y < 0x8000_0000
    requires y != 0 && Divides(x, y, q, r) && !(x == -0x8000_0000 && y == -1)
    ensures -0x8000_0000 <= q < 0x8000_0000 && -0x8000_0000 <= r < 0x8000_0000
  {
    if y == 1 || y == -1 {
      assert r == 0;
      assert q == x || q == -x;
    } else {
      var d := Magnitude(y);
      var k := if y > 0 then q else -q;
      assert y * q == d * k;
      GrowsTwofold(d, k);
    }
  }

  lemma GrowsTwofold(d: nat, k: int)
    requires d >= 2
    ensures k >= 0 ==> d * k >= 2 * k
    ensures k <= 0 ==> d * k <= 2 * k
  {
    if k >= 0 {
      assert (d - 2) * k >= 0;
    } else {
      assert (d - 2) * (-k) >= 0;
    }
  }

  /** DIVU and REMU with a non-zero divisor. */
  lemma DivuRemu(a: u32, b: u32)
    requires b != 0
    ensures a == b * Divu(a, b) + Remu(a, b) && Remu(a, b) < b
  {
    ShrBound(a, b);
  }

  /** Division by zero: all ones for the quotient, the dividend for the remainder. */
  lemma DivideByZero(a: u32)
    ensures Signed(Div(a, 0)) == -1 && Divu(a, 0) == 0xFFFF_FFFF && Rem(a, 0) == a && Remu(a, 0) == a
  {
  }
}
