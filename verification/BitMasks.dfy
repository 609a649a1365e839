/**
 The masks and shifts of the C code on 32-bit words, against the bit-fields of Bits: a read-modify-write with a mask is
 `Put`, and fields are apart exactly when their masks are disjoint.
 */
module BitMasks {
  import opened Bits
  import opened RegisterFields

  // ---------------------------------------------------------------- operators of C

  function Shl(x: bv32, k: bv32): bv32
    requires k <= 32
  {
    x << k
  }

  function Half(x: bv32): bv32 {
    x >> 1
  }

  function Double(x: bv32): bv32 {
    x << 1
  }

  predicate Odd(x: bv32) {
    x & 1 == 1
  }

  function And(x: bv32, y: bv32): bv32 {
    x & y
  }

  /** `(r & ~mask) | field` */
  function Merge(r: bv32, mask: bv32, field: bv32): bv32 {
    (r & !mask) | field
  }

  predicate InWord(lo: bv32, width: bv32) {
    lo < 32 && 0 < width <= 32 && lo + width <= 32
  }

  /** `GENMASK(lo + width - 1, lo)` */
  function Genmask(lo: bv32, width: bv32): bv32
    requires InWord(lo, width)
  {
    (0xFFFF_FFFF << lo) & (0xFFFF_FFFF >> (32 - lo - width))
  }

  /** A field of `r` replaced: the masks and shifts of a read-modify-write. */
  function MaskedStore(r: bv32, lo: bv32, width: bv32, v: bv32): bv32
    requires InWord(lo, width)
  {
    Merge(r, Genmask(lo, width), Shl(And(v, Genmask(0, width)), lo))
  }

  function Shr(x: bv32, k: bv32): bv32
    requires k <= 32
  {
    x >> k
  }

  /** `(r >> lo) & GENMASK(width - 1, 0)` */
  function MaskedLoad(r: bv32, lo: bv32, width: bv32): bv32
    requires InWord(lo, width)
  {
    And(Shr(r, lo), Genmask(0, width))
  }

  /** The number a word holds. */
  function Nat(x: bv32): nat
    decreases x
  {
    if x == 0 then 0 else (if Odd(x) then 1 else 0) + 2 * Nat(Half(x))
  }

  // ---------------------------------------------------------------- one bit further

  lemma MaskAbove(lo: bv32, width: bv32)
    requires InWord(lo, width) && lo > 0
    ensures Genmask(lo, width) == Double(Genmask(lo - 1, width))
  {
  }

  lemma ShlAbove(x: bv32, lo: bv32)
    requires 0 < lo < 32
    ensures Shl(x, lo) == Double(Shl(x, lo - 1))
  {
  }

  predicate TopClear(x: bv32) {
    x & 0x8000_0000 == 0
  }

  lemma DoubleHalf(x: bv32)
    requires TopClear(x)
    ensures Half(Double(x)) == x
  {
  }

  lemma LowMask(width: bv32)
    requires 0 < width <= 32
    ensures Odd(Genmask(0, width)) && (width > 1 ==> Half(Genmask(0, width)) == Genmask(0, width - 1))
  {
  }

  lemma FieldFits(v: bv32, lo: bv32, width: bv32)
    requires InWord(lo, width) && lo > 0
    ensures TopClear(Shl(And(v, Genmask(0, width)), lo - 1))
  {
  }

  lemma MergeAbove(r: bv32, mask: bv32, field: bv32)
    ensures Half(Merge(r, Double(mask), Double(field))) == Merge(Half(r), mask, Half(Double(field)))
    ensures Odd(Merge(r, Double(mask), Double(field))) == Odd(r)
  {
  }

  lemma MergeHalf(r: bv32, mask: bv32, v: bv32)
    requires Odd(mask)
    ensures Half(Merge(r, mask, And(v, mask))) == Merge(Half(r), Half(mask), And(Half(v), Half(mask)))
    ensures Odd(Merge(r, mask, And(v, mask))) == Odd(v)
  {
  }

  lemma ShlNone(x: bv32)
    ensures Shl(x, 0) == x
  {
  }

  lemma StoreAbove(r: bv32, lo: bv32, width: bv32, v: bv32)
    requires InWord(lo, width) && lo > 0
    ensures Half(MaskedStore(r, lo, width, v)) == MaskedStore(Half(r), lo - 1, width, v)
    ensures Odd(MaskedStore(r, lo, width, v)) == Odd(r)
  {
    hide Genmask, Shl, Half, Double, Odd, And, Merge, TopClear;
    var low := And(v, Genmask(0, width));
    MaskAbove(lo, width);
    ShlAbove(low, lo);
    FieldFits(v, lo, width);
    DoubleHalf(Shl(low, lo - 1));
    MergeAbove(r, Genmask(lo - 1, width), Shl(low, lo - 1));
  }

  lemma StoreLow(r: bv32, width: bv32, v: bv32)
    requires 1 < width <= 32
    ensures Half(MaskedStore(r, 0, width, v)) == MaskedStore(Half(r), 0, width - 1, Half(v))
    ensures Odd(MaskedStore(r, 0, width, v)) == Odd(v)
  {
    hide Genmask, Shl, Half, Odd, And, Merge;
    var mask := Genmask(0, width);
    LowMask(width);
    ShlNone(And(v, mask));
    ShlNone(And(Half(v), Half(mask)));
    MergeHalf(r, mask, v);
  }

  lemma StoreBit(r: bv32, v: bv32)
    ensures Half(MaskedStore(r, 0, 1, v)) == Half(r) && Odd(MaskedStore(r, 0, 1, v)) == Odd(v)
  {
  }

  lemma Predecessor(k: bv32)
    requires 0 < k <= 32
    ensures (k - 1) as nat == k as nat - 1
  {
  }

  lemma Halves(x: bv32)
    ensures Nat(x) / 2 == Nat(Half(x)) && Nat(x) % 2 == (if Odd(x) then 1 else 0)
  {
  }

  /**
   The read-modify-write of the C code is `Put`, for every word, field and value: the field takes the low bits of the
   value, and no other bit changes.
   */
  lemma {:induction false} MaskedStoreIsPut(r: bv32, lo: bv32, width: bv32, v: bv32)
    requires InWord(lo, width)
    ensures Nat(MaskedStore(r, lo, width, v)) == Put(Nat(r), lo as nat, width as nat, Nat(v))
    decreases lo, width
  {
    hide MaskedStore, Nat, Half, Odd;
    Halves(MaskedStore(r, lo, width, v));
    Halves(r);
    Halves(v);
    if lo > 0 {
      StoreAbove(r, lo, width, v);
      Predecessor(lo);
      MaskedStoreIsPut(Half(r), lo - 1, width, v);
    } else if width > 1 {
      StoreLow(r, width, v);
      Predecessor(width);
      MaskedStoreIsPut(Half(r), 0, width - 1, Half(v));
    } else {
      StoreBit(r, v);
      assert Put(Nat(r) / 2, 0, 0, Nat(v) / 2) == Nat(r) / 2;
    }
  }

  lemma ShrAbove(x: bv32, lo: bv32)
    requires 0 < lo < 32
    ensures Shr(x, lo) == Shr(Half(x), lo - 1)
  {
  }

  lemma ShrNone(x: bv32)
    ensures Shr(x, 0) == x
  {
  }

  lemma AndHalf(x: bv32, mask: bv32)
    requires Odd(mask)
    ensures Half(And(x, mask)) == And(Half(x), Half(mask)) && Odd(And(x, mask)) == Odd(x)
  {
  }

  lemma OneBit(x: bv32)
    ensures Half(And(x, Genmask(0, 1))) == 0
  {
  }

  /** Shifting and masking a word extracts its field. */
  lemma {:induction false} MaskedLoadIsGet(r: bv32, lo: bv32, width: bv32)
    requires InWord(lo, width)
    ensures Nat(MaskedLoad(r, lo, width)) == Get(Nat(r), lo as nat, width as nat)
    decreases lo, width
  {
    hide Nat, Half, Odd, Shr, And, Genmask;
    Halves(r);
    if lo > 0 {
      ShrAbove(r, lo);
      Predecessor(lo);
      MaskedLoadIsGet(Half(r), lo - 1, width);
    } else {
      ShrNone(r);
      ShrNone(Half(r));
      LowMask(width);
      AndHalf(r, Genmask(0, width));
      Halves(MaskedLoad(r, 0, width));
      Predecessor(width);
      if width > 1 {
        MaskedLoadIsGet(Half(r), 0, width - 1);
      } else {
        OneBit(r);
        NatZero();
        assert Get(Nat(r) / 2, 0, 0) == 0;
      }
    }
  }

  lemma NatZero()
    ensures Nat(0) == 0
  {
  }

  // ---------------------------------------------------------------- disjoint fields

  predicate Before(lo: bv32, width: bv32, lo2: bv32) {
    lo + width <= lo2
  }

  /** Two masks share no bit exactly when one field ends before the other begins. */
  lemma MasksBelow(lo: bv32, width: bv32, lo2: bv32, width2: bv32)
    requires lo < 32 && 0 < width <= 32 && lo + width <= 32
    requires lo2 < 32 && 0 < width2 <= 32 && lo2 + width2 <= 32 && lo <= lo2
    ensures Genmask(lo, width) & Genmask(lo2, width2) == 0 <==> Before(lo, width, lo2)
  {
  }

  lemma NotBefore(lo: bv32, lo2: bv32, width2: bv32)
    requires InWord(lo2, width2) && lo <= lo2
    ensures !Before(lo2, width2, lo)
  {
  }

  lemma Sum(a: bv32, b: bv32)
    requires a < 32 && b <= 32
    ensures (a + b) as nat == a as nat + b as nat
  {
  }

  lemma Order(a: bv32, b: bv32)
    requires a <= 64 && b <= 64
    ensures a <= b <==> a as nat <= b as nat
  {
  }

  lemma BeforeIs(lo: bv32, width: bv32, lo2: bv32)
    requires lo < 32 && width <= 32 && lo + width <= 32 && lo2 < 32
    ensures Before(lo, width, lo2) <==> lo as nat + width as nat <= lo2 as nat
  {
    Sum(lo, width);
    Order(lo + width, lo2);
  }

  /** The masks of two fields, in either order. */
  lemma MasksDisjointIff(lo: bv32, width: bv32, lo2: bv32, width2: bv32)
    requires InWord(lo, width) && InWord(lo2, width2)
    ensures Genmask(lo, width) & Genmask(lo2, width2) == 0 <==> Before(lo, width, lo2) || Before(lo2, width2, lo)
  {
    hide Genmask, Before;
    if lo <= lo2 {
      MasksBelow(lo, width, lo2, width2);
      NotBefore(lo, lo2, width2);
    } else {
      MasksBelow(lo2, width2, lo, width);
      NotBefore(lo2, lo, width);
    }
  }

  /** Two fields of one register are apart exactly when their masks share no bit. */
  lemma ApartIff(reg: nat, lo: bv32, width: bv32, lo2: bv32, width2: bv32)
    requires InWord(lo, width) && InWord(lo2, width2)
    ensures Apart(Field(reg, lo as nat, width as nat), Field(reg, lo2 as nat, width2 as nat)) <==>
            Genmask(lo, width) & Genmask(lo2, width2) == 0
  {
    MasksDisjointIff(lo, width, lo2, width2);
    hide Genmask, Before;
    BeforeIs(lo, width, lo2);
    BeforeIs(lo2, width2, lo);
  }
}
