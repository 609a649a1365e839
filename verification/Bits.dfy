/**
 Bit-fields of fixed-width registers, seen as naturals.

 A C bit-field assignment, and a read-modify-write with a constant contiguous mask
 (`val &= ~mask; val |= (x << lo) & mask`), both replace `width` bits from bit `lo` upward:
 that is `Put`. Extracting such a field, or testing one bit with `val & BIT(n)`, is `Get`.
 Both are defined bit by bit; BitMasks proves that the masks and shifts of 32-bit words compute them.
 */
module Bits {

  type byte = x: int | 0 <= x < 256
  type u16 = x: int | 0 <= x < 0x1_0000
  type u32 = x: int | 0 <= x < 0x1_0000_0000

  function Pow2(n: nat): (p: nat)
    ensures p > 0
  {
    if n == 0 then 1 else 2 * Pow2(n - 1)
  }

  function Get(r: nat, lo: nat, width: nat): (v: nat)
    ensures v < Pow2(width)
    decreases lo, width
  {
    if lo > 0 then Get(r / 2, lo - 1, width)
    else if width == 0 then 0
    else r % 2 + 2 * Get(r / 2, 0, width - 1)
  }

  /** `val & BIT(n)` is non-zero. */
  predicate Test(r: nat, n: nat) {
    Get(r, n, 1) == 1
  }

  function Put(r: nat, lo: nat, width: nat, v: nat): nat
    decreases lo, width
  {
    if lo > 0 then r % 2 + 2 * Put(r / 2, lo - 1, width, v)
    else if width == 0 then r
    else v % 2 + 2 * Put(r / 2, 0, width - 1, v / 2)
  }

  /** The lowest bit of a store, and the rest. */
  lemma PutSplit(r: nat, lo: nat, width: nat, v: nat)
    ensures lo > 0 ==>
              Put(r, lo, width, v) % 2 == r % 2 && Put(r, lo, width, v) / 2 == Put(r / 2, lo - 1, width, v)
    ensures lo == 0 && width > 0 ==>
              Put(r, lo, width, v) % 2 == v % 2 && Put(r, lo, width, v) / 2 == Put(r / 2, 0, width - 1, v / 2)
  {
  }

  lemma PutNothing(r: nat, v: nat)
    ensures Put(r, 0, 0, v) == r
  {
  }

  /** A value that fits its field is not truncated. */
  lemma {:induction false} Fits(v: nat, width: nat)
    requires v < Pow2(width)
    ensures Get(v, 0, width) == v
    decreases width
  {
    if width > 0 {
      Fits(v / 2, width - 1);
    }
  }

  /** The stored field reads back, truncated to its width. */
  lemma {:induction false} GetPut(r: nat, lo: nat, width: nat, v: nat)
    ensures Get(Put(r, lo, width, v), lo, width) == Get(v, 0, width)
    decreases lo, width
  {
    var r' := Put(r, lo, width, v);
    if lo > 0 {
      GetPut(r / 2, lo - 1, width, v);
      assert r' / 2 == Put(r / 2, lo - 1, width, v);
    } else if width > 0 {
      GetPut(r / 2, 0, width - 1, v / 2);
      assert r' / 2 == Put(r / 2, 0, width - 1, v / 2);
    }
  }

  /** Storing one field leaves every disjoint field as it was. */
  lemma {:induction false} GetPutOther(r: nat, lo: nat, width: nat, v: nat, lo2: nat, width2: nat)
    requires lo + width <= lo2 || lo2 + width2 <= lo
    ensures Get(Put(r, lo, width, v), lo2, width2) == Get(r, lo2, width2)
    decreases lo + width + lo2 + width2
  {
    PutSplit(r, lo, width, v);
    PutNothing(r, v);
    hide Put;
    if lo > 0 && lo2 > 0 {
      GetPutOther(r / 2, lo - 1, width, v, lo2 - 1, width2);
    } else if lo > 0 {
      if width2 > 0 {
        GetPutOther(r / 2, lo - 1, width, v, 0, width2 - 1);
      }
    } else if width > 0 && lo2 > 0 {
      GetPutOther(r / 2, 0, width - 1, v / 2, lo2 - 1, width2);
    }
  }

  /** Bit by bit, a stored field holds the value. */
  lemma {:induction false} PutBit(r: nat, lo: nat, width: nat, v: nat, k: nat)
    requires lo <= k < lo + width
    ensures Get(Put(r, lo, width, v), k, 1) == Get(v, k - lo, 1)
    decreases lo, width
  {
    PutSplit(r, lo, width, v);
    hide Put;
    if lo > 0 {
      PutBit(r / 2, lo - 1, width, v, k - 1);
    } else if k > 0 {
      PutBit(r / 2, 0, width - 1, v / 2, k - 1);
    }
  }

  /** A store changes the register exactly when the field's value changes. */
  lemma {:induction false} PutChangesIff(r: nat, lo: nat, width: nat, v: nat)
    ensures Put(r, lo, width, v) == r <==> Get(v, 0, width) == Get(r, lo, width)
    decreases lo, width
  {
    if lo > 0 {
      PutChangesIff(r / 2, lo - 1, width, v);
    } else if width > 0 {
      PutChangesIff(r / 2, 0, width - 1, v / 2);
    }
  }

  /** Only the last store to a field counts. */
  lemma {:induction false} PutTwice(r: nat, lo: nat, width: nat, v: nat, x: nat)
    ensures Put(Put(r, lo, width, v), lo, width, x) == Put(r, lo, width, x)
    decreases lo, width
  {
    if lo > 0 {
      PutTwice(r / 2, lo - 1, width, v, x);
    } else if width > 0 {
      PutTwice(r / 2, 0, width - 1, v / 2, x / 2);
    }
  }

  /** The complement of an `n`-bit register complements each of its fields. */
  lemma {:induction false} GetComplement(r: nat, lo: nat, width: nat, n: nat)
    requires r < Pow2(n) && lo + width <= n
    ensures Get(Pow2(n) - 1 - r, lo, width) == Pow2(width) - 1 - Get(r, lo, width)
    decreases lo, width
  {
    if lo > 0 {
      ComplementHalf(r, n);
      GetComplement(r / 2, lo - 1, width, n - 1);
    } else if width > 0 {
      ComplementHalf(r, n);
      GetComplement(r / 2, 0, width - 1, n - 1);
    }
  }

  lemma ComplementHalf(r: nat, n: nat)
    requires n > 0 && r < Pow2(n)
    ensures r / 2 < Pow2(n - 1)
    ensures (Pow2(n) - 1 - r) / 2 == Pow2(n - 1) - 1 - r / 2 && (Pow2(n) - 1 - r) % 2 == 1 - r % 2
  {
  }

  // ---------------------------------------------------------------- bounds

  /** A register of `n` bits keeps `n` bits after a field inside it is stored. */
  lemma {:induction false} PutBound(r: nat, lo: nat, width: nat, v: nat, n: nat)
    requires lo + width <= n && r < Pow2(n)
    ensures Put(r, lo, width, v) < Pow2(n)
    decreases lo, width
  {
    if lo > 0 {
      PutBound(r / 2, lo - 1, width, v, n - 1);
    } else if width > 0 {
      PutBound(r / 2, 0, width - 1, v / 2, n - 1);
    }
  }

  /** Truncation to `width` bits is the remainder modulo the power of two. */
  lemma LowBits(v: nat, width: nat)
    ensures Get(v, 0, width) == v % Pow2(width)
  {
    var q := Quotient(v, width);
    DivModOf(q, Pow2(width), Get(v, 0, width));
  }

  /** A field is what a shift and a remainder leave of the register. */
  lemma {:induction false} GetIs(r: nat, lo: nat, width: nat)
    ensures Get(r, lo, width) == r / Pow2(lo) % Pow2(width)
    decreases lo
  {
    if lo > 0 {
      GetIs(r / 2, lo - 1, width);
      DivTwice(r, Pow2(lo - 1));
    } else {
      LowBits(r, width);
      assert r / 1 == r;
    }
  }

  lemma DivTwice(r: nat, m: nat)
    requires m > 0
    ensures r / 2 / m == r / (2 * m)
  {
    var q, rest := r / 2 / m, r / 2 % m;
    assert r / 2 == q * m + rest;
    assert r == q * (2 * m) + (2 * rest + r % 2);
    DivModOf(q, 2 * m, 2 * rest + r % 2);
  }

  lemma {:induction false} Quotient(v: nat, width: nat) returns (q: nat)
    ensures v == q * Pow2(width) + Get(v, 0, width)
    decreases width
  {
    if width == 0 {
      q := v;
    } else {
      q := Quotient(v / 2, width - 1);
      assert q * Pow2(width) == 2 * (q * Pow2(width - 1));
    }
  }

  lemma {:induction false} ZeroFields(lo: nat, width: nat)
    ensures Get(0, lo, width) == 0
    decreases lo, width
  {
    if lo > 0 { ZeroFields(lo - 1, width); } else if width > 0 { ZeroFields(0, width - 1); }
  }

  lemma DivModOf(q: nat, m: nat, rest: nat)
    requires rest < m
    ensures (q * m + rest) / m == q && (q * m + rest) % m == rest
  {
    var x := q * m + rest;
    var d := x / m - q;
    assert d * m == rest - x % m;
    MulSign(d, m);
  }

  lemma MulSign(d: int, m: int)
    requires m >= 0
    ensures d > 0 ==> d * m >= m
    ensures d < 0 ==> d * m <= -m
  {
    if d > 0 {
      MulNat(d - 1, m);
    } else if d < 0 {
      MulNat(-d - 1, m);
    }
  }

  lemma MulNat(a: int, b: int)
    requires a >= 0 && b >= 0
    ensures a * b >= 0 && (a + 1) * b == a * b + b && (-a - 1) * b == -(a * b) - b
  {
  }

  /** The position of the highest bit set: ilog2, __fls. */
  function Log2(n: nat): nat {
    if n < 2 then 0 else 1 + Log2(n / 2)
  }

  lemma {:induction false} Log2Is(n: nat)
    requires n > 0
    ensures Pow2(Log2(n)) <= n < 2 * Pow2(Log2(n))
    decreases n
  {
    if n >= 2 {
      Log2Is(n / 2);
    }
  }

  lemma {:induction false} PowerGrows(a: nat, b: nat)
    requires a <= b
    ensures Pow2(a) <= Pow2(b)
    decreases b
  {
    if a < b {
      PowerGrows(a, b - 1);
    }
  }

  lemma Powers()
    ensures Pow2(1) == 2 && Pow2(5) == 32 && Pow2(8) == 256 && Pow2(9) == 512
    ensures Pow2(16) == 0x1_0000 && Pow2(32) == 0x1_0000_0000
  {
    assert Pow2(5) == 32;
    assert Pow2(8) == 8 * Pow2(5);
    assert Pow2(12) == 16 * Pow2(8);
    assert Pow2(16) == 16 * Pow2(12);
    assert Pow2(20) == 16 * Pow2(16);
    assert Pow2(24) == 16 * Pow2(20);
    assert Pow2(28) == 16 * Pow2(24);
    assert Pow2(32) == 16 * Pow2(28);
  }
}
