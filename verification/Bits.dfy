/** Machine words as bounded integers, and bit fields over them (src/bit_field.hpp). */
module Bits {

  type u8 = x: int | 0 <= x < 0x100
  type u16 = x: int | 0 <= x < 0x1_0000
  type u32 = x: int | 0 <= x < 0x1_0000_0000
  type u64 = x: int | 0 <= x < 0x1_0000_0000_0000_0000

  function Pow2(n: nat): (p: nat)
    ensures p > 0
  {
    if n == 0 then 1 else 2 * Pow2(n - 1)
  }

  lemma {:induction false} Pow2Add(m: nat, n: nat)
    ensures Pow2(m + n) == Pow2(m) * Pow2(n)
  {
    if m > 0 {
      Pow2Add(m - 1, n);
      assert Pow2(m + n) == 2 * (Pow2(m - 1) * Pow2(n));
    }
  }

  // --- Bit fields: the `len` bits of a word that start at bit `lo` ---

  /** `operator T`: shift the field down and mask it. */
  function Read(bits: nat, lo: nat, len: nat): nat
    decreases lo, len
  {
    if lo > 0 then Read(bits / 2, lo - 1, len)
    else if len == 0 then 0
    else bits % 2 + 2 * Read(bits / 2, 0, len - 1)
  }

  /** `operator=`: clear the field and put the low `len` bits of `v` in it. */
  function Write(bits: nat, lo: nat, len: nat, v: nat): nat
    decreases lo, len
  {
    if lo > 0 then bits % 2 + 2 * Write(bits / 2, lo - 1, len, v)
    else if len == 0 then bits
    else v % 2 + 2 * Write(bits / 2, 0, len - 1, v / 2)
  }

  lemma {:induction false} ReadBound(bits: nat, lo: nat, len: nat)
    ensures Read(bits, lo, len) < Pow2(len)
    decreases lo, len
  {
    if lo > 0 {
      ReadBound(bits / 2, lo - 1, len);
    } else if len > 0 {
      ReadBound(bits / 2, 0, len - 1);
    }
  }

  /** A field write never leaves the word it is made in. */
  lemma {:induction false} WriteBound(bits: nat, lo: nat, len: nat, v: nat, width: nat)
    requires bits < Pow2(width) && lo + len <= width
    ensures Write(bits, lo, len, v) < Pow2(width)
    decreases lo, len
  {
    if lo > 0 {
      WriteBound(bits / 2, lo - 1, len, v, width - 1);
    } else if len > 0 {
      WriteBound(bits / 2, 0, len - 1, v / 2, width - 1);
    }
  }

  /** What was written to a field is read back, truncated to the field. */
  lemma {:induction false} ReadWritten(bits: nat, lo: nat, len: nat, v: nat)
    ensures Read(Write(bits, lo, len, v), lo, len) == Read(v, 0, len)
    decreases lo, len
  {
    if lo > 0 {
      ReadWritten(bits / 2, lo - 1, len, v);
    } else if len > 0 {
      ReadWritten(bits / 2, 0, len - 1, v / 2);
    }
  }

  /** Writing a field again replaces what was written. */
  lemma {:induction false} WriteAgain(bits: nat, lo: nat, len: nat, v: nat, v': nat)
    ensures Write(Write(bits, lo, len, v), lo, len, v') == Write(bits, lo, len, v')
    decreases lo, len
  {
    if lo > 0 {
      WriteAgain(bits / 2, lo - 1, len, v, v');
    } else if len > 0 {
      WriteAgain(bits / 2, 0, len - 1, v / 2, v' / 2);
    }
  }

  /** A field write is invisible in every disjoint field. */
  lemma {:induction false} ReadOther(bits: nat, lo: nat, len: nat, v: nat, lo': nat, len': nat)
    requires lo + len <= lo' || lo' + len' <= lo
    ensures Read(Write(bits, lo, len, v), lo', len') == Read(bits, lo', len')
    decreases lo + lo', len + len'
  {
    if lo > 0 && lo' > 0 {
      ReadOther(bits / 2, lo - 1, len, v, lo' - 1, len');
    } else if lo > 0 {
      if len' > 0 {
        ReadOther(bits / 2, lo - 1, len, v, 0, len' - 1);
      }
    } else if len > 0 && lo' > 0 {
      ReadOther(bits / 2, 0, len - 1, v / 2, lo' - 1, len');
    }
  }

  /** A value that fits the field is read as it is. */
  lemma {:induction false} ReadLow(v: nat, len: nat)
    requires v < Pow2(len)
    ensures Read(v, 0, len) == v
  {
    if len > 0 {
      ReadLow(v / 2, len - 1);
    }
  }

  /** Two adjacent fields read as one: the high one shifted above the low one. */
  lemma {:induction false} ReadAdjacent(bits: nat, lo: nat, a: nat, b: nat)
    ensures Read(bits, lo, a + b) == Read(bits, lo, a) + Pow2(a) * Read(bits, lo + a, b)
    decreases lo, a
  {
    if lo > 0 {
      ReadAdjacent(bits / 2, lo - 1, a, b);
    } else if a > 0 {
      ReadAdjacent(bits / 2, 0, a - 1, b);
      var h := Read(bits / 2, a - 1, b);
      assert Pow2(a) * h == 2 * (Pow2(a - 1) * h);
    }
  }

  /** The shift-and-mask reading of a field: `(bits >> lo) & (2^len - 1)`. */
  lemma {:induction false} ReadIsDivMod(bits: nat, lo: nat, len: nat)
    ensures Read(bits, lo, len) == (bits / Pow2(lo)) % Pow2(len)
    decreases lo, len
  {
    if lo > 0 {
      ReadIsDivMod(bits / 2, lo - 1, len);
      HalveDiv(bits, Pow2(lo - 1));
    } else if len > 0 {
      ReadIsDivMod(bits / 2, 0, len - 1);
      HalveDiv(bits, Pow2(len - 1));
    }
  }

  /** Two words with the same fields at 0..n and above are the same word. */
  lemma {:induction false} ReadAll(a: nat, b: nat, width: nat)
    requires a < Pow2(width) && b < Pow2(width)
    requires forall k: nat | k < width :: Read(a, k, 1) == Read(b, k, 1)
    ensures a == b
  {
    if width > 0 {
      assert Read(a, 0, 1) == Read(b, 0, 1);
      assert a % 2 == b % 2 by {
        assert Read(a, 0, 1) == a % 2 + 2 * Read(a / 2, 0, 0);
        assert Read(b, 0, 1) == b % 2 + 2 * Read(b / 2, 0, 0);
      }
      forall k: nat | k < width - 1
        ensures Read(a / 2, k, 1) == Read(b / 2, k, 1)
      {
        assert Read(a, k + 1, 1) == Read(b, k + 1, 1);
      }
      ReadAll(a / 2, b / 2, width - 1);
    }
  }

  // --- Division facts the solver needs spelled out ---

  lemma MulAtLeast(a: int, d: nat)
    ensures a >= 1 ==> a * d >= d
    ensures a <= -1 ==> a * d <= 0 - d
  {
    if a >= 1 {
      assert (a - 1) * d >= 0;
    } else if a <= -1 {
      assert (-1 - a) * d >= 0;
    }
  }

  lemma Euclid(x: int, d: nat)
    requires d > 0
    ensures x == (x / d) * d + x % d && 0 <= x % d < d
  {
  }

  lemma DivMod(x: nat, q: nat, r: nat, d: nat)
    requires r < d && x == q * d + r
    ensures x / d == q && x % d == r
  {
    var q', r' := x / d, x % d;
    assert (q - q') * d == r' - r by {
      assert x == d * q' + r';
    }
    MulAtLeast(q - q', d);
  }

  /** Halving first, then dividing by `b`, is dividing by `2 * b`. */
  lemma HalveDiv(x: nat, b: nat)
    requires b > 0
    ensures x / (2 * b) == (x / 2) / b
    ensures x % (2 * b) == x % 2 + 2 * ((x / 2) % b)
  {
    var h := x / 2;
    var q, r := h / b, h % b;
    assert h == q * b + r;
    assert q * (2 * b) == 2 * (q * b);
    DivMod(x, q, x % 2 + 2 * r, 2 * b);
  }
}
