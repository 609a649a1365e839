/** Fan speed arithmetic of the MAX31790 (kmods/backports/bp4f_max31790.c). */
module FanSpeed {
  import opened Bits

  const FAN_RPM_MIN := 120
  const FAN_RPM_MAX := 7864320
  const COUNT_MAX := 0x7FF

  function Clamp(v: int, lo: int, hi: int): int {
    if v < lo then lo else if v > hi then hi else v
  }

  /** The speed-range bits of a FAN_DYNAMICS value. */
  function RangeBits(dynamics: bv8): bv8 {
    (dynamics & 0xE0) >> 5
  }

  /** tach_period[] */
  function TachPeriod(range: bv8): (sr: nat)
    ensures sr in {1, 2, 4, 8, 16, 32}
  {
    if range == 0 then 1 else if range == 1 then 2 else if range == 2 then 4
    else if range == 3 then 8 else if range == 4 then 16 else 32
  }

  /** bits_for_tach_period */
  function RangeFor(rpm: int): bv8 {
    if rpm < 500 then 0 else if rpm < 1000 then 1 else if rpm < 2000 then 2
    else if rpm < 4000 then 3 else if rpm < 8000 then 4 else 5
  }

  /** FAN_DYNAMICS with a new range and its other bits kept. */
  function WithRange(dynamics: bv8, range: bv8): bv8 {
    (dynamics & 0x1F) | (range << 5)
  }

  lemma WithRangeIs(dynamics: bv8, rpm: int)
    ensures RangeBits(WithRange(dynamics, RangeFor(rpm))) == RangeFor(rpm)
    ensures WithRange(dynamics, RangeFor(rpm)) & 0x1F == dynamics & 0x1F
  {
  }

  /** The three high bits of FAN_DYNAMICS give the tach period: 1, 2, 4, 8, 16 or 32. */
  lemma PeriodIs(dynamics: bv8)
    ensures TachPeriod(RangeBits(dynamics)) ==
            if dynamics < 0x20 then 1 else if dynamics < 0x40 then 2 else if dynamics < 0x60 then 4
            else if dynamics < 0x80 then 8 else if dynamics < 0xA0 then 16 else 32
  {
  }

  /** The period for a speed is the power of two it is 250 to 500 times of, as far as there is one. */
  lemma PeriodForIs(rpm: int)
    ensures RangeFor(rpm) <= 5
    ensures var sr := TachPeriod(RangeFor(rpm));
            sr in {1, 2, 4, 8, 16, 32} && (rpm < 500 * sr || sr == 32) && (rpm >= 250 * sr || sr == 1)
  {
  }

  /** Division of naturals. */
  function Div(a: nat, b: nat): (q: nat)
    requires b > 0
    ensures q * b <= a < (q + 1) * b
  {
    a / b
  }

  /** RPM_FROM_REG */
  function RpmFromReg(reg: nat, sr: nat): nat {
    if reg / 16 > 0 then Div(60 * sr * 8192, reg / 16) else FAN_RPM_MAX
  }

  /** The speed of a count, which is held in the high 12 bits: 491520 periods over the count, rounded down. */
  lemma RpmBounds(reg: u16, sr: nat)
    ensures reg < 16 ==> RpmFromReg(reg, sr) == 7864320
    ensures reg >= 16 ==> RpmFromReg(reg, sr) * (reg / 16) <= 491520 * sr < (RpmFromReg(reg, sr) + 1) * (reg / 16)
  {
    hide Div;
  }

  /** RPM_TO_REG */
  function RpmToReg(rpm: int, sr: nat): nat
    requires rpm > 0
  {
    Div(60 * sr * 8192, rpm * 2)
  }

  /** Tach counts at one revolution per minute, halved: speed times count is about this. */
  function Scale(sr: nat): nat {
    245760 * sr
  }

  function PeriodFor(v: int): nat {
    TachPeriod(RangeFor(Clamp(v, FAN_RPM_MIN, FAN_RPM_MAX)))
  }

  /** The target count a write of `v` stores. */
  function TargetCount(v: int): nat {
    Clamp(RpmToReg(Clamp(v, FAN_RPM_MIN, FAN_RPM_MAX), PeriodFor(v)), 1, COUNT_MAX)
  }

  /** The speed read back after a write of `v`. */
  function Readback(v: int): nat {
    RpmFromReg(TargetCount(v) * 32, PeriodFor(v))
  }

  // ---------------------------------------------------------------- arithmetic

  /** A quotient is at least `q` exactly when `q` divisors fit. */
  lemma DivAtLeast(a: nat, b: nat, q: nat)
    requires b > 0
    ensures q <= Div(a, b) <==> q * b <= a
  {
    hide Div;
    var d := Div(a, b);
    if q <= d {
      MulNat(d - q, b);
      assert (d - q) * b == d * b - q * b;
    } else {
      MulNat(q - (d + 1), b);
      assert (q - (d + 1)) * b == q * b - (d + 1) * b;
    }
  }

  /** A larger divisor gives no larger quotient. */
  lemma DivMonotone(a: nat, b: nat, b': nat)
    requires 0 < b <= b'
    ensures Div(a, b') <= Div(a, b)
  {
    hide Div;
    var d := Div(a, b');
    MulNat(b' - b, d);
    assert (b' - b) * d == d * b' - d * b;
    DivAtLeast(a, b, d);
  }

  lemma HalfBoth(a: nat, b: nat)
    requires b > 0
    ensures Div(2 * a, 2 * b) == Div(a, b)
  {
    hide Div;
    var q := Div(a, b);
    assert q * (2 * b) == 2 * (q * b) && (q + 1) * (2 * b) == 2 * ((q + 1) * b);
    DivAtLeast(2 * a, 2 * b, q);
    DivAtLeast(2 * a, 2 * b, q + 1);
  }

  lemma RpmToRegIs(c: int, sr: nat)
    requires c > 0
    ensures RpmToReg(c, sr) == Div(Scale(sr), c)
  {
    hide Div;
    HalfBoth(Scale(sr), c);
  }

  lemma RpmFromRegIs(tc: nat, sr: nat)
    requires tc > 0
    ensures RpmFromReg(tc * 32, sr) == Div(Scale(sr), tc)
  {
    hide Div;
    HalfBoth(Scale(sr), tc);
  }

  /** Within its range, every clamped speed has a count from 1 to 2048. */
  lemma CountRange(c: int)
    requires FAN_RPM_MIN <= c <= FAN_RPM_MAX
    ensures var n := Scale(TachPeriod(RangeFor(c)));
            && n <= FAN_RPM_MAX
            && 1 <= Div(n, c) <= 2048 && (c >= 500 ==> Div(n, c) <= 983)
            && (c < 500 ==> n == 245760)
  {
    hide Div;
    var n := Scale(TachPeriod(RangeFor(c)));
    DivAtLeast(n, c, 1);
    DivAtLeast(n, c, 2049);
    DivAtLeast(n, c, 984);
  }

  // ---------------------------------------------------------------- the target speed

  /** The stored count, in terms of the speed times count product `n`. */
  lemma TargetIs(v: int)
    ensures var c, n := Clamp(v, FAN_RPM_MIN, FAN_RPM_MAX), Scale(PeriodFor(v));
            && TargetCount(v) == Clamp(Div(n, c), 1, COUNT_MAX) && 1 <= TargetCount(v) <= COUNT_MAX
            && Readback(v) == Div(n, TargetCount(v))
            && TargetCount(v) <= Div(n, c) <= 2048
            && (Div(n, c) > COUNT_MAX ==> n == 245760)
            && n <= FAN_RPM_MAX
  {
    hide Div;
    var c := Clamp(v, FAN_RPM_MIN, FAN_RPM_MAX);
    RpmToRegIs(c, PeriodFor(v));
    CountRange(c);
    RpmFromRegIs(TargetCount(v), PeriodFor(v));
  }

  lemma TargetProducts(v: int)
    ensures var c, tc, r, n := Clamp(v, FAN_RPM_MIN, FAN_RPM_MAX), TargetCount(v), Readback(v), Scale(PeriodFor(v));
            && 1 <= tc <= COUNT_MAX
            && c <= r <= FAN_RPM_MAX
            && r * tc <= n <= c * (tc + 1)
  {
    hide Div, TargetCount, Readback, Scale, PeriodFor;
    var c, tc, r, n := Clamp(v, FAN_RPM_MIN, FAN_RPM_MAX), TargetCount(v), Readback(v), Scale(PeriodFor(v));
    TargetIs(v);
    DivAtLeast(n, c, tc);
    DivAtLeast(n, tc, c);
    DivMonotone(n, 1, tc);
    assert Div(n, 1) * 1 <= n;
    if Div(n, c) > COUNT_MAX {
      assert tc + 1 == 2048 && n == 245760;
    }
  }

  /**
   What a written target amounts to, for every `long`: never slower than asked, and less than one count faster. The tach
   period is the one for the clamped speed.
   */
  lemma TargetBounds(v: int)
    ensures var c, tc, r, sr := Clamp(v, 120, 7864320), TargetCount(v), Readback(v), PeriodFor(v);
            && 1 <= tc <= 0x7FF
            && c <= r <= 7864320
            && r * tc <= 245760 * sr <= c * (tc + 1)
            && sr in {1, 2, 4, 8, 16, 32} && (c < 500 * sr || sr == 32) && (c >= 250 * sr || sr == 1)
  {
    hide TargetCount, Readback, RangeFor, TachPeriod;
    TargetProducts(v);
    PeriodForIs(Clamp(v, FAN_RPM_MIN, FAN_RPM_MAX));
  }

  /** Among the speeds settable with the same tach period, the one set is the slowest that is not below the request. */
  lemma TargetIsBest(v: int, tc: nat)
    requires 1 <= tc <= COUNT_MAX
    requires RpmFromReg(tc * 32, PeriodFor(v)) >= Clamp(v, FAN_RPM_MIN, FAN_RPM_MAX)
    ensures tc <= TargetCount(v) && Readback(v) <= RpmFromReg(tc * 32, PeriodFor(v))
  {
    hide Div, TargetCount, Readback, Scale, PeriodFor, RpmFromReg;
    var c, n := Clamp(v, FAN_RPM_MIN, FAN_RPM_MAX), Scale(PeriodFor(v));
    TargetIs(v);
    RpmFromRegIs(tc, PeriodFor(v));
    DivAtLeast(n, tc, c);
    DivAtLeast(n, c, tc);
    DivMonotone(n, tc, TargetCount(v));
  }

  /** The range of a faster speed has a tach period that is a whole multiple. */
  lemma PeriodMultiple(c: int, r: int) returns (m: nat)
    requires FAN_RPM_MIN <= c <= r <= FAN_RPM_MAX
    ensures m >= 1 && TachPeriod(RangeFor(r)) == m * TachPeriod(RangeFor(c))
    ensures m > 1 ==> r >= 500
  {
    m := TachPeriod(RangeFor(r)) / TachPeriod(RangeFor(c));
  }

  /** Writing the speed that was read back changes nothing, even when it falls into another range. */
  lemma ReadbackIdempotent(v: int)
    ensures Readback(Readback(v)) == Readback(v)
  {
    hide Div, TargetCount, Readback, Scale, PeriodFor, Clamp;
    var r := Readback(v);
    TargetIs(v);
    TargetIs(r);
    var m := ScaleMultiple(v);
    Rescaled(Scale(PeriodFor(v)), TargetCount(v), r, m, Scale(PeriodFor(r)), TargetCount(r));
  }

  /** The speed read back is in range, and its scale is a whole multiple of the one it was set on. */
  lemma ScaleMultiple(v: int) returns (m: nat)
    ensures var r := Readback(v);
            && m >= 1 && 0 < r == Clamp(r, FAN_RPM_MIN, FAN_RPM_MAX)
            && Scale(PeriodFor(r)) == m * Scale(PeriodFor(v))
            && (m > 1 ==> Div(Scale(PeriodFor(r)), r) <= COUNT_MAX)
  {
    hide Div, TargetCount, Readback, RangeFor, TachPeriod;
    var c, r := Clamp(v, FAN_RPM_MIN, FAN_RPM_MAX), Readback(v);
    TargetProducts(v);
    m := PeriodMultiple(c, r);
    CountRange(r);
    ScaleTimes(m, TachPeriod(RangeFor(c)));
  }

  lemma ScaleTimes(m: nat, sr: nat)
    ensures Scale(m * sr) == m * Scale(sr)
  {
  }

  /** Reading `r` off count `tc`, then off a count at least as fine on an `m` times larger scale, gives `r` again. */
  lemma Rescaled(n: nat, tc: nat, r: nat, m: nat, n': nat, tc': nat)
    requires 0 < tc <= COUNT_MAX && m > 0 && r > 0 && r == Div(n, tc) && tc' > 0 && n' == m * n
    requires tc' == Clamp(Div(n', r), 1, COUNT_MAX) && tc' <= Div(n', r)
    requires m > 1 ==> Div(n', r) <= COUNT_MAX
    ensures Div(n', tc') == r
  {
    hide Div;
    DivAtLeast(n, tc, r);
    CountScales(n, tc, r, m);
    ScaleBoth(m, n, tc);
    DivAtLeast(n', r, tc');
    if m == 1 {
      assert tc <= tc';
    }
    DivMonotone(n', m * tc, tc');
    DivAtLeast(n', tc', r);
  }

  /** On an `m` times larger scale the count is at least `m` times the old one. */
  lemma CountScales(n: nat, tc: nat, r: nat, m: nat)
    requires r > 0 && m > 0 && r * tc <= n
    ensures m * tc <= Div(m * n, r)
  {
    hide Div;
    MulNat(m, n - r * tc);
    assert m * (n - r * tc) == m * n - (m * tc) * r;
    DivAtLeast(m * n, r, m * tc);
  }

  lemma ScaleBoth(m: nat, a: nat, b: nat)
    requires m > 0 && b > 0
    ensures m * b > 0 && Div(m * a, m * b) == Div(a, b)
  {
    hide Div;
    var q := Div(a, b);
    MulNat(m - 1, b);
    assert (m - 1) * b == m * b - b;
    MulNat(m, a - q * b);
    assert m * (a - q * b) == m * a - q * (m * b);
    MulNat(m, (q + 1) * b - a - 1);
    assert m * ((q + 1) * b - a - 1) == (q + 1) * (m * b) - m * a - m;
    DivAtLeast(m * a, m * b, q);
    DivAtLeast(m * a, m * b, q + 1);
  }

  // ---------------------------------------------------------------- PWM

  /** DIV_ROUND_CLOSEST of a non-negative number */
  function RoundClosest(x: nat, d: nat): nat
    requires d > 0
  {
    (x + d / 2) / d
  }

  /** The PWMOUT value for a duty cycle of `val` out of 255. */
  function PwmOut(val: nat): nat {
    RoundClosest(val * 511, 255) * 128
  }

  /**
   A duty cycle read back from a register that follows PWMOUT is the one written, and PWMOUT holds the nearest of its
   512 steps, seven bits up.
   */
  lemma PwmRoundTrip(val: nat)
    requires val <= 255
    ensures PwmOut(val) < 0x1_0000 && PwmOut(val) / 256 == val
    ensures PwmOut(val) % 128 == 0 && -127 <= PwmOut(val) / 128 * 255 - val * 511 <= 127
  {
    assert val * 511 == val * 510 + val;
  }
}
