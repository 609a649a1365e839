/** Registers and attributes of the TMP401 family (kmods/backports/bp4f_tmp401.c). */
module Tmp401 {
  import opened Bits
  import opened RegisterFields
  import opened TempCodec

  const CONVERSION_RATE := 4
  const CRIT_HYST := 0x21

  // ---------------------------------------------------------------- the chip

  /** Registers 3 to 8 are written at an address 6 above the one they are read at. */
  function Home(addr: nat): nat {
    if 9 <= addr <= 14 then addr - 6 else addr
  }

  predicate ReadOnly(addr: nat) {
    3 <= addr <= 8
  }

  /** The registers under their read addresses; a write to an address that is only read from does nothing. */
  datatype Chip = Chip(words: map<nat, nat>, bytes: map<nat, nat>) {
    function WriteWord(addr: nat, val: nat): Chip {
      if ReadOnly(addr) then this else this.(words := words[Home(addr) := val % 0x1_0000])
    }

    function WriteByte(addr: nat, val: nat): Chip {
      if ReadOnly(addr) then this else this.(bytes := bytes[Home(addr) := val % 0x100])
    }
  }

  predicate IsWord(reg: nat) {
    reg in {0, 1, 5, 6, 7, 8, 0x15, 0x16, 0x23, 0x30, 0x32, 0x34, 0xF6}
  }

  predicate IsCrit(reg: nat) {
    reg in {0x19, 0x1A, 0x20}
  }

  /** tmp401_reg_read, but for the simulated alarm registers */
  function RegRead(chip: Chip, reg: nat): u16 {
    if IsWord(reg) then Peek(chip.words, if reg == 0xF6 then 0x36 else reg) % 0x1_0000
    else if IsCrit(reg) then Peek(chip.bytes, reg) % 0x100 * 256
    else Peek(chip.bytes, reg) % 0x100
  }

  /** tmp401_reg_write */
  function RegWrite(chip: Chip, reg: nat, val: nat): Chip {
    if 5 <= reg <= 8 then chip.WriteWord(reg + 6, val)
    else if reg == 0x15 || reg == 0x16 then chip.WriteWord(reg, val)
    else if IsCrit(reg) then chip.WriteByte(reg, val / 256)
    else if reg == 3 || reg == 4 then chip.WriteByte(reg + 6, val)
    else chip.WriteByte(reg, val)
  }

  /** The registers the driver writes to hold a setting. */
  predicate Setting(reg: nat) {
    3 <= reg <= 8 || reg == 0x15 || reg == 0x16 || IsCrit(reg) || reg == CRIT_HYST
  }

  /** A write of a setting lands at the address it is read from. */
  lemma WriteLands(chip: Chip, reg: nat, val: u16)
    requires Setting(reg)
    ensures RegWrite(chip, reg, val) ==
            if IsWord(reg) then chip.(words := chip.words[reg := val])
            else chip.(bytes := chip.bytes[reg := if IsCrit(reg) then val / 256 else val % 256])
  {
    assert val / 256 % 0x100 == val / 256;
  }

  /** A setting reads as written, cut to its width, and no other register the driver reads changes. */
  lemma WriteThenRead(chip: Chip, reg: nat, val: u16, other: nat)
    requires Setting(reg) && !(9 <= other <= 14)
    ensures RegRead(RegWrite(chip, reg, val), other) ==
            if other != reg then RegRead(chip, other)
            else if IsWord(reg) then val
            else if IsCrit(reg) then val / 256 * 256
            else val % 256
  {
    hide RegWrite;
    WriteLands(chip, reg, val);
    assert reg != 0xF6 && reg != 0x36;
  }

  // ---------------------------------------------------------------- attributes

  datatype Limit = Min | Max | Crit

  /** The rows of TMP401_TEMP_MSB for the limits. */
  function LimitReg(l: Limit, channel: nat): nat {
    match l
    case Min => if channel == 0 then 6 else if channel == 1 then 8 else 0x16
    case Max => if channel == 0 then 5 else if channel == 1 then 7 else 0x15
    case Crit => if channel == 0 then 0x20 else if channel == 1 then 0x19 else 0x1A
  }

  function LimitOf(chip: Chip, extended: bool, l: Limit, channel: nat): int {
    RegisterToTemp(RegRead(chip, LimitReg(l, channel)), extended)
  }

  function HystOf(chip: Chip, extended: bool, channel: nat): int {
    LimitOf(chip, extended, Crit, channel) - RegRead(chip, CRIT_HYST) * 1000
  }

  /** Nine limits in nine registers, as the data sheet places them. */
  lemma LimitRegs(l: Limit, channel: nat, l2: Limit, channel2: nat)
    requires channel < 3 && channel2 < 3
    ensures LimitReg(l, channel) == LimitReg(l2, channel2) <==> l == l2 && channel == channel2
    ensures Setting(LimitReg(l, channel)) && LimitReg(l, channel) !in {3, CONVERSION_RATE, CRIT_HYST}
    ensures IsWord(LimitReg(l, channel)) == !l.Crit? && IsCrit(LimitReg(l, channel)) == l.Crit?
    ensures LimitReg(Max, channel) == (if channel < 2 then 5 + 2 * channel else 0x15)
    ensures LimitReg(Min, channel) == LimitReg(Max, channel) + 1
    ensures LimitReg(Crit, channel) == if channel == 0 then 0x20 else 0x18 + channel
  {
  }

  function WithLimit(chip: Chip, extended: bool, l: Limit, channel: nat, v: int): Chip {
    RegWrite(chip, LimitReg(l, channel), TempToRegister(v, extended, l.Crit?))
  }

  function WithHyst(chip: Chip, extended: bool, channel: nat, v: int): Chip {
    RegWrite(chip, CRIT_HYST, HystRegister(v, extended, LimitOf(chip, extended, Crit, channel)))
  }

  function WithInterval(chip: Chip, v: int): Chip {
    RateIs(v);
    RegWrite(chip, CONVERSION_RATE, Rate(v))
  }

  /** Everything the driver keeps in the chip, as it reads it. */
  ghost predicate SameLimit(a: Chip, b: Chip, extended: bool, l: Limit, channel: nat) {
    LimitOf(a, extended, l, channel) == LimitOf(b, extended, l, channel)
  }

  ghost predicate SameRest(a: Chip, b: Chip) {
    && RegRead(a, 3) == RegRead(b, 3)
    && forall reg :: (IsWord(reg) && !Setting(reg)) || reg == 2 ==> RegRead(a, reg) == RegRead(b, reg)
  }

  /**
   A limit reads back near the value written, clamped; every other limit, the hysteresis distance, the interval, the
   configuration and the measurements read as before.
   */
  lemma LimitWritten(chip: Chip, extended: bool, l: Limit, channel: nat, v: int, l2: Limit, channel2: nat)
    requires channel < 3 && channel2 < 3
    ensures var now := WithLimit(chip, extended, l, channel, v);
            && Abs(LimitOf(now, extended, l, channel) - InRange(v, extended)) <= (if l.Crit? then 500 else 31)
            && ((l2, channel2) != (l, channel) ==> SameLimit(now, chip, extended, l2, channel2))
            && RegRead(now, CRIT_HYST) == RegRead(chip, CRIT_HYST)
            && RegRead(now, CONVERSION_RATE) == RegRead(chip, CONVERSION_RATE)
            && SameRest(now, chip)
  {
    hide RegRead, RegWrite, TempToRegister, RegisterToTemp, InRange, LimitReg;
    var reg, val := LimitReg(l, channel), TempToRegister(v, extended, l.Crit?);
    LimitRegs(l, channel, l2, channel2);
    LimitRegs(l2, channel2, l, channel);
    ReadbackError(v, extended);
    StoredWhole(v, extended, l);
    RestKept(chip, reg, val);
    WriteThenRead(chip, reg, val, reg);
    WriteThenRead(chip, reg, val, LimitReg(l2, channel2));
    WriteThenRead(chip, reg, val, CRIT_HYST);
    WriteThenRead(chip, reg, val, CONVERSION_RATE);
  }

  lemma StoredWhole(v: int, extended: bool, l: Limit)
    ensures l.Crit? ==> var val := TempToRegister(v, extended, true); val / 256 * 256 == val
  {
    if l.Crit? {
      hide TempToRegister;
      var k := CoarseStep(v, extended);
    }
  }

  lemma RestKept(chip: Chip, reg: nat, val: u16)
    requires Setting(reg)
    ensures reg != 3 ==> SameRest(RegWrite(chip, reg, val), chip)
  {
    hide RegRead, RegWrite;
    WriteThenRead(chip, reg, val, 3);
    forall r | (IsWord(r) && !Setting(r)) || r == 2
      ensures RegRead(RegWrite(chip, reg, val), r) == RegRead(chip, r)
    {
      WriteThenRead(chip, reg, val, r);
    }
  }

  /**
   A hysteresis reads back within 500 of the value as far as the register and the range allow. The register is shared:
   the distance below the critical limit becomes the same for every channel, and nothing else changes.
   */
  lemma HystWritten(chip: Chip, extended: bool, channel: nat, v: int, l2: Limit, channel2: nat)
    requires channel < 3 && channel2 < 3
    ensures var now, crit := WithHyst(chip, extended, channel, v), LimitOf(chip, extended, Crit, channel);
            && Abs(HystOf(now, extended, channel) - Clamp(InRange(v, extended), crit - 255000, crit)) <= 500
            && HystOf(now, extended, channel) == crit - RegRead(now, 0x21) * 1000
            && HystOf(now, extended, channel2) - LimitOf(chip, extended, Crit, channel2)
                 == HystOf(now, extended, channel) - crit
            && SameLimit(now, chip, extended, l2, channel2)
            && RegRead(now, CONVERSION_RATE) == RegRead(chip, CONVERSION_RATE)
            && SameRest(now, chip)
  {
    hide RegRead, RegWrite, RegisterToTemp, HystRegister, InRange, LimitReg;
    var crit := LimitOf(chip, extended, Crit, channel);
    var val := HystRegister(v, extended, crit);
    LimitRegs(l2, channel2, Crit, channel);
    LimitRegs(Crit, channel, l2, channel2);
    LimitRegs(Crit, channel2, l2, channel2);
    HystError(v, extended, crit);
    RestKept(chip, CRIT_HYST, val);
    WriteThenRead(chip, CRIT_HYST, val, CRIT_HYST);
    WriteThenRead(chip, CRIT_HYST, val, LimitReg(l2, channel2));
    WriteThenRead(chip, CRIT_HYST, val, LimitReg(Crit, channel));
    WriteThenRead(chip, CRIT_HYST, val, LimitReg(Crit, channel2));
    WriteThenRead(chip, CRIT_HYST, val, CONVERSION_RATE);
  }

  /** An interval reads back as a nearest one the chip offers; nothing else changes. */
  lemma IntervalWritten(chip: Chip, extended: bool, v: int, n: nat, l2: Limit, channel2: nat)
    requires n <= 7 && channel2 < 3
    ensures var now := WithInterval(chip, v);
            && RegRead(now, CONVERSION_RATE) <= 7
            && Abs(Interval(RegRead(now, CONVERSION_RATE)) - v) <= Abs(125 * Pow2(n) - v)
            && SameLimit(now, chip, extended, l2, channel2)
            && RegRead(now, CRIT_HYST) == RegRead(chip, CRIT_HYST)
            && SameRest(now, chip)
  {
    hide RegRead, RegWrite, RegisterToTemp, Rate, Interval, Pow2, LimitReg;
    IntervalNearest(v, n);
    LimitRegs(l2, channel2, l2, channel2);
    RestKept(chip, CONVERSION_RATE, Rate(v));
    WriteThenRead(chip, CONVERSION_RATE, Rate(v), CONVERSION_RATE);
    WriteThenRead(chip, CONVERSION_RATE, Rate(v), CRIT_HYST);
    WriteThenRead(chip, CONVERSION_RATE, Rate(v), LimitReg(l2, channel2));
  }

  // ---------------------------------------------------------------- the driver

  /**
   A probed device: its conversion rate is one the driver knows. Register access `n` fails with `errno(n)` if
   negative.
   */
  class Driver {
    const extended: bool
    const errno: nat -> int
    var chip: Chip
    var accesses: nat

    constructor (extended: bool, errno: nat -> int, chip: Chip)
      requires RegRead(chip, CONVERSION_RATE) <= 7
      ensures Valid() && this.extended == extended && this.errno == errno && this.chip == chip
    {
      this.extended, this.errno, this.chip, accesses := extended, errno, chip, 0;
    }

    ghost predicate Valid()
      reads this
    {
      RegRead(chip, CONVERSION_RATE) <= 7
    }

    function Verdict(n: nat): int {
      if errno(n) < 0 then errno(n) else 0
    }

    method RegmapRead(reg: nat) returns (err: int, val: u16)
      modifies this`accesses
      ensures accesses == old(accesses) + 1 && err == Verdict(old(accesses)) && val == RegRead(chip, reg)
    {
      err, val := Verdict(accesses), RegRead(chip, reg);
      accesses := accesses + 1;
    }

    method RegmapWrite(reg: nat, val: nat) returns (err: int)
      modifies this`accesses, this`chip
      ensures accesses == old(accesses) + 1 && err == Verdict(old(accesses))
      ensures chip == if err == 0 then RegWrite(old(chip), reg, val) else old(chip)
    {
      err := Verdict(accesses);
      accesses := accesses + 1;
      if err == 0 {
        chip := RegWrite(chip, reg, val);
      }
    }

    /** tmp401_temp_read: min, max, crit */
    method ReadLimit(l: Limit, channel: nat) returns (ret: int, val: int)
      requires channel < 3
      modifies this`accesses
      ensures ret == Verdict(old(accesses))
      ensures ret == 0 ==> val == LimitOf(chip, extended, l, channel)
    {
      hide RegRead, RegisterToTemp;
      val := 0;
      var regval: u16;
      ret, regval := RegmapRead(LimitReg(l, channel));
      if ret < 0 {
        return;
      }
      val := RegisterToTemp(regval, extended);
    }

    /** tmp401_temp_read: crit_hyst */
    method ReadHyst(channel: nat) returns (ret: int, val: int)
      requires channel < 3
      modifies this`accesses
      ensures ret == if Verdict(old(accesses)) != 0 then Verdict(old(accesses)) else Verdict(old(accesses) + 1)
      ensures ret == 0 ==> val == HystOf(chip, extended, channel)
    {
      hide RegRead, RegisterToTemp;
      var regval: u16;
      val := 0;
      ret, regval := RegmapRead(LimitReg(Crit, channel));
      if ret < 0 {
        return;
      }
      val := RegisterToTemp(regval, extended);
      ret, regval := RegmapRead(CRIT_HYST);
      if ret < 0 {
        return;
      }
      val := val - regval * 1000;
    }

    /** tmp401_temp_write: min, max, crit */
    method WriteLimit(l: Limit, channel: nat, v: int) returns (ret: int)
      requires Valid() && channel < 3
      modifies this`accesses, this`chip
      ensures Valid() && ret == Verdict(old(accesses))
      ensures chip == if ret == 0 then WithLimit(old(chip), extended, l, channel, v) else old(chip)
      ensures ret == 0 ==>
                Abs(LimitOf(chip, extended, l, channel) - InRange(v, extended)) <= (if l.Crit? then 500 else 31)
    {
      hide RegRead, RegWrite, TempToRegister, RegisterToTemp, LimitReg;
      LimitWritten(chip, extended, l, channel, v, l, channel);
      ret := RegmapWrite(LimitReg(l, channel), TempToRegister(v, extended, l.Crit?));
    }

    /** tmp401_temp_write: crit_hyst */
    method WriteHyst(channel: nat, v: int) returns (ret: int)
      requires Valid() && channel < 3
      modifies this`accesses, this`chip
      ensures Valid()
      ensures ret == if Verdict(old(accesses)) != 0 then Verdict(old(accesses)) else Verdict(old(accesses) + 1)
      ensures chip == if ret == 0 then WithHyst(old(chip), extended, channel, v) else old(chip)
    {
      hide RegRead, RegWrite, RegisterToTemp, LimitReg;
      HystWritten(chip, extended, channel, v, Crit, channel);
      var val := InRange(v, extended);
      var regval: u16;
      ret, regval := RegmapRead(LimitReg(Crit, channel));
      if ret < 0 {
        return;
      }
      var temp := RegisterToTemp(regval, extended);
      val := Clamp(val, temp - 255000, temp);
      ret := RegmapWrite(CRIT_HYST, (temp - val + 500) / 1000);
    }

    /** tmp401_set_convrate */
    method SetConvrate(v: int) returns (ret: int)
      requires Valid()
      modifies this`accesses, this`chip
      ensures Valid() && ret == Verdict(old(accesses))
      ensures chip == if ret == 0 then WithInterval(old(chip), v) else old(chip)
    {
      hide RegRead, RegWrite;
      IntervalWritten(chip, extended, v, 0, Crit, 0);
      RateIs(v);
      var val := Clamp(v, 125, 16000);
      ret := RegmapWrite(CONVERSION_RATE, 7 - Log2(val * 4 / 375));
    }

    /** tmp401_chip_read: update_interval */
    method ReadInterval() returns (ret: int, val: nat)
      requires Valid()
      modifies this`accesses
      ensures ret == Verdict(old(accesses)) && (ret == 0 ==> val == Interval(RegRead(chip, CONVERSION_RATE)))
    {
      val := 0;
      var regval: u16;
      ret, regval := RegmapRead(CONVERSION_RATE);
      if ret < 0 {
        return;
      }
      val := Pow2(7 - regval) * 125;
    }
  }
}
