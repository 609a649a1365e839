/** Temperature, hysteresis and interval arithmetic of the TMP401 family (kmods/backports/bp4f_tmp401.c). */
module TempCodec {
  import opened Bits

  function Abs(x: int): nat {
    if x < 0 then -x else x
  }

  function Clamp(v: int, lo: int, hi: int): int {
    if v < lo then lo else if v > hi then hi else v
  }

  /** C division. */
  function Quot(a: int, d: int): int
    requires d > 0
  {
    if a >= 0 then a / d else -(-a / d)
  }

  /** DIV_ROUND_CLOSEST */
  function RoundClosest(x: int, d: int): int
    requires d > 0
  {
    if x > 0 then Quot(x + d / 2, d) else Quot(x - d / 2, d)
  }

  // ---------------------------------------------------------------- conversions

  function Low(extended: bool): int {
    if extended then -64000 else 0
  }

  function High(extended: bool): int {
    if extended then 191000 else 127000
  }

  function InRange(v: int, extended: bool): int {
    Clamp(v, Low(extended), High(extended))
  }

  /** tmp401_register_to_temp */
  function RegisterToTemp(reg: u16, extended: bool): int {
    RoundClosest((if extended then reg - 64 * 256 else reg) * 125, 32)
  }

  /** tmp401_temp_to_register, for 4 or 8 unused low bits */
  function TempToRegister(v: int, extended: bool, byte_: bool): u16
  {
    var t := InRange(v, extended) - Low(extended);
    if byte_ then RoundClosest(t, 1000) * 256 else RoundClosest(t * 16, 1000) * 16
  }

  lemma Rounded(x: int, d: int)
    requires d == 32 || d == 1000
    ensures -d <= 2 * (RoundClosest(x, d) * d - x) <= d
  {
  }

  /** A 12-bit limit is the nearest step of 62.5 millidegrees to the clamped value. */
  lemma FineStep(v: int, extended: bool) returns (k: nat)
    ensures TempToRegister(v, extended, false) == 16 * k && k <= (if extended then 4080 else 2032)
    ensures Abs(125 * k - 2 * (InRange(v, extended) - Low(extended))) <= 62
  {
    hide RoundClosest;
    Rounded((InRange(v, extended) - Low(extended)) * 16, 1000);
    k := RoundClosest((InRange(v, extended) - Low(extended)) * 16, 1000);
  }

  /** An 8-bit limit is the nearest degree. */
  lemma CoarseStep(v: int, extended: bool) returns (k: nat)
    ensures TempToRegister(v, extended, true) == 256 * k && k <= (if extended then 255 else 127)
    ensures Abs(1000 * k - (InRange(v, extended) - Low(extended))) <= 500
  {
    hide RoundClosest;
    Rounded(InRange(v, extended) - Low(extended), 1000);
    k := RoundClosest(InRange(v, extended) - Low(extended), 1000);
  }

  /** What a 12-bit register reads as, to half a millidegree. */
  lemma ReadsFine(k: nat, extended: bool)
    requires k < 4096
    ensures Abs(2 * (RegisterToTemp(16 * k, extended) - Low(extended)) - 125 * k) <= 1
  {
    hide RoundClosest;
    Rounded((if extended then 16 * k - 64 * 256 else 16 * k) * 125, 32);
  }

  /** An 8-bit register reads as its degrees. */
  lemma ReadsCoarse(k: nat, extended: bool)
    requires k < 256
    ensures RegisterToTemp(256 * k, extended) == 1000 * k + Low(extended)
    ensures RegisterToTemp(256 * k, extended) == if extended then 1000 * k - 64000 else 1000 * k
  {
    hide RoundClosest;
    Rounded((if extended then 256 * k - 64 * 256 else 256 * k) * 125, 32);
  }

  /** The range is 0 to 127 degrees, or -64 to 191 in the extended mode. */
  lemma InRangeIs(v: int, extended: bool)
    ensures InRange(v, extended) ==
            if extended then (if v < -64000 then -64000 else if v > 191000 then 191000 else v)
            else if v < 0 then 0 else if v > 127000 then 127000 else v
  {
  }

  /** A 12-bit limit reads back within 31 millidegrees of the value clamped to the range, an 8-bit one within 500. */
  lemma ReadbackError(v: int, extended: bool)
    ensures var t := if extended then Clamp(v, -64000, 191000) else Clamp(v, 0, 127000);
            && Abs(RegisterToTemp(TempToRegister(v, extended, false), extended) - t) <= 31
            && Abs(RegisterToTemp(TempToRegister(v, extended, true), extended) - t) <= 500
            && t == InRange(v, extended)
  {
    InRangeIs(v, extended);
    hide TempToRegister, RegisterToTemp, InRange;
    var fine := FineStep(v, extended);
    var coarse := CoarseStep(v, extended);
    ReadsFine(fine, extended);
    ReadsCoarse(coarse, extended);
  }

  /** No register value `q` of the same resolution is closer to the clamped value. */
  lemma ReadbackNearest(v: int, extended: bool, k: nat, q: int)
    ensures var t := InRange(v, extended) - Low(extended);
            && (TempToRegister(v, extended, false) == 16 * k ==> Abs(125 * k - 2 * t) <= Abs(125 * q - 2 * t))
            && (TempToRegister(v, extended, true) == 256 * k ==> Abs(1000 * k - t) <= Abs(1000 * q - t))
  {
    hide TempToRegister, InRange;
    var fine := FineStep(v, extended);
    var coarse := CoarseStep(v, extended);
    assert q != fine ==> Abs(125 * q - 125 * fine) >= 125;
    assert q != coarse ==> Abs(1000 * q - 1000 * coarse) >= 1000;
  }

  /** Writing back what a limit reads stores the same register value. */
  lemma FineStable(v: int, extended: bool)
    ensures var reg := TempToRegister(v, extended, false);
            TempToRegister(RegisterToTemp(reg, extended), extended, false) == reg
  {
    hide TempToRegister, RegisterToTemp;
    var k := FineStep(v, extended);
    ReadsFine(k, extended);
    var back := RegisterToTemp(16 * k, extended);
    assert InRange(back, extended) == back;
    hide InRange;
    var again := FineStep(back, extended);
  }

  lemma CoarseStable(v: int, extended: bool)
    ensures var reg := TempToRegister(v, extended, true);
            TempToRegister(RegisterToTemp(reg, extended), extended, true) == reg
  {
    hide TempToRegister, RegisterToTemp;
    var k := CoarseStep(v, extended);
    ReadsCoarse(k, extended);
    var back := RegisterToTemp(256 * k, extended);
    assert InRange(back, extended) == back;
    hide InRange;
    var again := CoarseStep(back, extended);
  }

  // ---------------------------------------------------------------- hysteresis

  function Min(a: int, b: int): int {
    if a < b then a else b
  }

  function Max(a: int, b: int): int {
    if a < b then b else a
  }

  /** The critical limit of a register holding `k` degrees. */
  function CritOf(k: nat, extended: bool): int {
    1000 * k + Low(extended)
  }

  /** The hysteresis register a write of `v` stores below a critical limit of `crit`. */
  function HystRegister(v: int, extended: bool, crit: int): (reg: nat)
    ensures reg <= 255
  {
    var val := Clamp(InRange(v, extended), crit - 255000, crit);
    (crit - val + 500) / 1000
  }

  function HystReadback(v: int, extended: bool, crit: int): int {
    crit - HystRegister(v, extended, crit) * 1000
  }

  /** It reads back within 500 of the value clamped first to the range and then to what the register reaches. */
  lemma HystError(v: int, extended: bool, crit: int)
    ensures Abs(HystReadback(v, extended, crit) - Clamp(InRange(v, extended), crit - 255000, crit)) <= 500
  {
  }

  /**
   Within 500 of the value clamped only to what the register reaches, exactly when the range does not get in the way:
   the value is at most 500 outside it, or what the register reaches ends inside it on that side.
   */
  lemma HystIff(v: int, extended: bool, k: nat)
    requires k < 256
    ensures var crit, low, high := CritOf(k, extended), Low(extended), High(extended);
            Abs(HystReadback(v, extended, crit) - Clamp(v, crit - 255000, crit)) <= 500 <==>
            && (v >= Min(low, crit) - 500 || low <= crit - 255000)
            && (v <= Max(high, crit - 255000) + 500 || crit <= high)
  {
    hide HystRegister;
    var crit := CritOf(k, extended);
    HystError(v, extended, crit);
    if InRange(v, extended) != v {
      HystWhole(v, extended, k);
    }
  }

  /** Out of the range the clamped value is whole degrees, so the readback is exact. */
  lemma HystWhole(v: int, extended: bool, k: nat)
    requires InRange(v, extended) != v
    ensures var crit := CritOf(k, extended);
            HystReadback(v, extended, crit) == Clamp(InRange(v, extended), crit - 255000, crit)
  {
  }

  /** After a write of the critical limit by the driver: only values below the range are off. */
  lemma HystAfterCritIff(v: int, extended: bool, c: int)
    ensures var crit := RegisterToTemp(TempToRegister(c, extended, true), extended);
            Abs(HystReadback(v, extended, crit) - Clamp(v, crit - 255000, crit)) <= 500 <==>
            v >= Low(extended) - 500 || (extended && crit == High(extended))
  {
    hide TempToRegister, RegisterToTemp, HystRegister;
    var k := CoarseStep(c, extended);
    ReadsCoarse(k, extended);
    HystIff(v, extended, k);
  }

  // ---------------------------------------------------------------- update interval

  /** The conversion rate tmp401_set_convrate stores. */
  function Rate(v: int): int {
    7 - Log2(Clamp(v, 125, 16000) * 4 / 375)
  }

  function Interval(rate: nat): nat
    requires rate <= 7
  {
    Pow2(7 - rate) * 125
  }

  lemma RateIs(v: int)
    ensures 0 <= Rate(v) <= 7
    ensures 375 * Pow2(7 - Rate(v)) <= 4 * Clamp(v, 125, 16000) < 750 * Pow2(7 - Rate(v))
  {
    var x := Clamp(v, 125, 16000) * 4 / 375;
    Log2Is(x);
    if Log2(x) > 7 {
      PowerGrows(8, Log2(x));
      Powers();
    }
  }

  lemma PowerEnds(n: nat)
    requires n <= 7
    ensures 1 <= Pow2(n) <= 128
  {
    assert Pow2(0) == 1 && Pow2(4) == 16 && Pow2(7) == 8 * Pow2(4);
    PowerGrows(0, n);
    PowerGrows(n, 7);
  }

  lemma PowerStep(a: nat, b: nat)
    requires a < b
    ensures 2 * Pow2(a) <= Pow2(b)
  {
    PowerGrows(a + 1, b);
  }

  /** No interval the chip offers is nearer to the one asked for, whatever that is. */
  lemma IntervalNearest(v: int, n: nat)
    requires n <= 7
    ensures 0 <= Rate(v) <= 7
    ensures Abs(Interval(Rate(v)) - v) <= Abs(125 * Pow2(n) - v)
  {
    hide Rate, Pow2;
    RateIs(v);
    var f := 7 - Rate(v);
    PowerEnds(n);
    if n < f {
      PowerStep(n, f);
    } else if n > f {
      PowerStep(f, n);
    }
  }

  /** The interval halves from each rate to the next, down from 16 seconds. */
  lemma IntervalIs(rate: nat)
    requires rate <= 7
    ensures Interval(rate) * Pow2(rate) == 16000
  {
    assert Pow2(2) == 4 && Pow2(3) == 8 && Pow2(4) == 16 && Pow2(5) == 32 && Pow2(6) == 64 && Pow2(7) == 128;
  }

  /** An interval the chip offers is stored exactly. */
  lemma IntervalStable(rate: nat)
    requires rate <= 7
    ensures Rate(Interval(rate)) == rate
  {
    hide Rate, Pow2;
    PowerEnds(7 - rate);
    IntervalNearest(Interval(rate), 7 - rate);
    var r := Rate(Interval(rate));
    if r < rate {
      PowerStep(7 - rate, 7 - r);
    } else if r > rate {
      PowerStep(7 - r, 7 - rate);
    }
  }
}
