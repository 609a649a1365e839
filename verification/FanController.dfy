/** The MAX31790 fan controller driver (kmods/backports/bp4f_max31790.c). */
module FanController {
  import opened Bits
  import opened FanSpeed
  import opened FanFaults
  import opened Options

  const EINVAL := -22
  const EOPNOTSUPP := -95
  const FAN_COUNT_REG_MAX := 0xFFE0

  const FAULT_STATUS1 := 0x11
  const FAULT_STATUS2 := 0x10

  function TachCount(ch: nat): nat {
    0x18 + ch * 2
  }

  function DutyCycle(ch: nat): nat {
    0x30 + ch * 2
  }

  // FAN_CONFIG bits
  const RPM_MODE: bv8 := 0x80
  const CTRL_MON: bv8 := 0x10
  const TACH_INPUT_EN: bv8 := 0x08
  const TACH_INPUT: bv8 := 0x01

  /**
   The chip and the bus to it. Transaction number `n` fails with `errno(n)` if that is negative, and then does nothing;
   `bytes(n, reg)` and `words(n, reg)` are what volatile register `reg` returns to it.
   */
  datatype World = World(
    errno: nat -> int,
    bytes: (nat, nat) -> bv8,
    words: (nat, nat) -> u16)

  class Chip {
    const world: World
    var config: seq<bv8>
    var dynamics: seq<bv8>
    var target: seq<u16>
    var pwmOut: seq<u16>
    var bus: nat   // transactions so far

    constructor (world: World, config: seq<bv8>, dynamics: seq<bv8>, target: seq<u16>, pwmOut: seq<u16>)
      requires |config| == |dynamics| == |target| == |pwmOut| == NR_CHANNEL
      requires forall i :: 0 <= i < NR_CHANNEL ==> config[i] == Forced(config[i])
      ensures Valid() && this.world == world
    {
      this.world, this.config, this.dynamics, this.target, this.pwmOut := world, config, dynamics, target, pwmOut;
      bus := 0;
    }

    ghost predicate Valid()
      reads this
    {
      && |config| == |dynamics| == |target| == |pwmOut| == NR_CHANNEL
      && forall i :: 0 <= i < NR_CHANNEL ==> config[i] == Forced(config[i])
    }

    /** No transaction from number `n` on fails. */
    ghost predicate Quiet(n: nat) {
      forall k: nat :: k >= n ==> world.errno(k) >= 0
    }

    /** The next transaction: its number, and its error code if it fails. */
    method Transact() returns (n: nat, err: int)
      modifies this`bus
      ensures n == old(bus) && bus == n + 1
      ensures err == (if world.errno(n) < 0 then world.errno(n) else 0)
    {
      n, bus := bus, bus + 1;
      err := if world.errno(n) < 0 then world.errno(n) else 0;
    }

    /** A byte written to FAN_CONFIG: in RPM mode the chip keeps the tachometer input on. */
    method WriteConfig(ch: nat, val: bv8) returns (err: int)
      requires Valid() && ch < NR_CHANNEL
      modifies this`bus, this`config
      ensures Valid() && bus == old(bus) + 1
      ensures err == (if world.errno(old(bus)) < 0 then world.errno(old(bus)) else 0)
      ensures config == if err == 0 then old(config)[ch := Forced(val)] else old(config)
    {
      var n: nat;
      n, err := Transact();
      if err == 0 {
        ForcedTwice(val);
        config := config[ch := Forced(val)];
      }
    }

    method WriteDynamics(ch: nat, val: bv8) returns (err: int)
      requires Valid() && ch < NR_CHANNEL
      modifies this`bus, this`dynamics
      ensures Valid() && bus == old(bus) + 1
      ensures err == (if world.errno(old(bus)) < 0 then world.errno(old(bus)) else 0)
      ensures dynamics == if err == 0 then old(dynamics)[ch := val] else old(dynamics)
    {
      var n: nat;
      n, err := Transact();
      if err == 0 {
        dynamics := dynamics[ch := val];
      }
    }

    method WriteTarget(ch: nat, val: u16) returns (err: int)
      requires Valid() && ch < NR_CHANNEL
      modifies this`bus, this`target
      ensures Valid() && bus == old(bus) + 1
      ensures err == (if world.errno(old(bus)) < 0 then world.errno(old(bus)) else 0)
      ensures target == if err == 0 then old(target)[ch := val] else old(target)
    {
      var n: nat;
      n, err := Transact();
      if err == 0 {
        target := target[ch := val];
      }
    }

    /** A byte written to TARGET_COUNT: the high byte. */
    method WriteTargetHigh(ch: nat, val: byte) returns (err: int)
      requires Valid() && ch < NR_CHANNEL
      modifies this`bus, this`target
      ensures Valid() && bus == old(bus) + 1
      ensures err == (if world.errno(old(bus)) < 0 then world.errno(old(bus)) else 0)
      ensures target == if err == 0 then old(target)[ch := WithHigh(old(target)[ch], val)] else old(target)
    {
      var n: nat;
      n, err := Transact();
      if err == 0 {
        target := target[ch := WithHigh(target[ch], val)];
      }
    }

    method WritePwmOut(ch: nat, val: u16) returns (err: int)
      requires Valid() && ch < NR_CHANNEL
      modifies this`bus, this`pwmOut
      ensures Valid() && bus == old(bus) + 1
      ensures err == (if world.errno(old(bus)) < 0 then world.errno(old(bus)) else 0)
      ensures pwmOut == if err == 0 then old(pwmOut)[ch := val] else old(pwmOut)
    {
      var n: nat;
      n, err := Transact();
      if err == 0 {
        pwmOut := pwmOut[ch := val];
      }
    }
  }

  /** A 16-bit register whose high byte is written. */
  function WithHigh(target: u16, high: byte): u16 {
    var h: int := high;
    h * 0x100 + target % 0x100
  }

  /** What the chip makes of a FAN_CONFIG value. */
  function Forced(val: bv8): bv8 {
    if val & RPM_MODE != 0 then val | TACH_INPUT_EN else val
  }

  lemma ForcedTwice(val: bv8)
    ensures Forced(Forced(val)) == Forced(val)
  {
  }

  /** time_after on 64-bit jiffies: the signed difference decides, so the counter may wrap. */
  function TimeAfter(a: nat, b: nat): bool {
    var diff := (b - a) % 0x1_0000_0000_0000_0000;
    diff >= 0x8000_0000_0000_0000
  }

  datatype FanAttr = FanInput | FanTarget | FanFault | FanEnable | FanOther
  datatype PwmAttr = PwmInput | PwmEnable | PwmOther

  class Driver {
    const chip: Chip
    const hz: nat
    var valid: bool
    var lastUpdated: nat
    var fanConfig: seq<bv8>
    var fanDynamics: seq<bv8>
    var faultStatus: bv16
    var tach: seq<u16>
    var pwm: seq<u16>
    var targetCount: seq<u16>
    ghost var trace: seq<Event>

    /** A probed driver: kzalloc, then max31790_init_client without a bus failure. */
    constructor (chip: Chip, hz: nat)
      requires chip.Valid()
      ensures Valid() && Agrees() && this.chip == chip && trace == [] && !valid
    {
      this.chip, this.hz := chip, hz;
      valid, lastUpdated, faultStatus, trace := false, 0, 0, [];
      fanConfig, fanDynamics := chip.config, chip.dynamics;
      tach, pwm, targetCount := seq(NR_FAN, _ => 0), seq(NR_CHANNEL, _ => 0), seq(NR_CHANNEL, _ => 0);
      new;
      forall ch: nat | ch < NR_FAN
        ensures !Has(0, ch)
      {
        NoFault(ch);
      }
    }

    static lemma NoFault(ch: nat)
      requires ch < NR_FAN
      ensures !Has(0, ch)
    {
    }

    ghost predicate Shape()
      reads this, chip
    {
      && chip.Valid()
      && |fanConfig| == |fanDynamics| == |pwm| == |targetCount| == NR_CHANNEL && |tach| == NR_FAN
    }

    /** The sticky bits are exactly the faults owed to the readers, and all past readings were honest. */
    ghost predicate Valid()
      reads this, chip
    {
      && Shape() && Honest(trace)
      && forall ch: nat :: ch < NR_FAN ==> Has(faultStatus, ch) == Owed(trace, ch)
    }

    /** The cached configuration is what the chip holds. */
    ghost predicate Agrees()
      reads this, chip
    {
      fanConfig == chip.config && fanDynamics == chip.dynamics
    }

    // -------------------------------------------------------------- refresh

    /** One of the two fault registers is read and its bits are kept. */
    method ReadFaults(second: bool) returns (rv: int)
      requires Valid()
      modifies this`faultStatus, this`trace, chip`bus
      ensures Valid() && chip.bus == old(chip.bus) + 1
      ensures rv == (if chip.world.errno(old(chip.bus)) < 0 then chip.world.errno(old(chip.bus)) else 0)
      ensures trace == if rv < 0 then old(trace)
                       else old(trace) + [
                         StatusRead(chip.world.bytes(old(chip.bus), if second then 0x10 else 0x11), second)]
    {
      hide Honest, Owed, Has;
      var n: nat;
      n, rv := chip.Transact();
      if rv < 0 {
        return;
      }
      var reg := chip.world.bytes(n, if second then FAULT_STATUS2 else FAULT_STATUS1);
      ghost var t, f, e := trace, faultStatus, StatusRead(reg, second);
      faultStatus := Latch(faultStatus, reg, second);
      trace := trace + [e];
      HonestExtend(t, e);
      forall ch: nat | ch < NR_FAN
        ensures Has(faultStatus, ch) == Owed(trace, ch)
      {
        LatchIs(f, reg, second, ch);
        OwedExtend(t, e, ch);
      }
    }

    /** The cached readings are those of a refresh of the channels from transaction `n` on. */
    ghost predicate ReadingsFrom(n: nat)
      requires NR_CHANNEL == |fanConfig| == |pwm| && |tach| == NR_FAN
      reads this`fanConfig, this`tach, this`pwm
    {
      Readings(chip.world, fanConfig, n, NR_CHANNEL, tach, pwm)
    }

    /** The channel loop of max31790_update_device. */
    method RefreshChannels() returns (rv: int)
      requires Shape()
      modifies this`tach, this`pwm, this`targetCount, chip`bus
      ensures Shape() && rv <= 0 && chip.bus >= old(chip.bus)
      ensures chip.Quiet(old(chip.bus)) ==> rv == 0
      ensures forall i :: 0 <= i < NR_CHANNEL ==>
                if fanConfig[i] & 0x01 != 0 then targetCount[i] == old(targetCount[i])
                else if rv == 0 then targetCount[i] == chip.target[i]
                else targetCount[i] == old(targetCount[i]) || targetCount[i] == chip.target[i]
      ensures rv == 0 ==> ReadingsFrom(old(chip.bus))
    {
      hide Readings, ChannelRead, Accesses;
      NoReadings(chip.world, fanConfig, chip.bus, tach, pwm);
      for i := 0 to NR_CHANNEL
        invariant Shape() && chip.bus == old(chip.bus) + Rounds(fanConfig, i)
        invariant Readings(chip.world, fanConfig, old(chip.bus), i, tach, pwm)
        invariant forall j :: 0 <= j < NR_CHANNEL ==>
                    targetCount[j] == if j < i && fanConfig[j] & TACH_INPUT == 0 then chip.target[j]
                                      else old(targetCount[j])
      {
        ghost var tach0, pwm0 := tach, pwm;
        rv := RefreshChannel(i);
        if rv < 0 {
          return;
        }
        ReadingsNext(chip.world, fanConfig, old(chip.bus), i, tach0, pwm0, tach, pwm);
      }
      return 0;
    }

    /** One round of the channel loop. */
    method RefreshChannel(i: nat) returns (rv: int)
      requires Shape() && i < NR_CHANNEL
      modifies this`tach, this`pwm, this`targetCount, chip`bus
      ensures Shape() && rv <= 0 && chip.bus >= old(chip.bus)
      ensures chip.Quiet(old(chip.bus)) ==> rv == 0
      ensures targetCount == if rv == 0 && fanConfig[i] & 0x01 == 0 then old(targetCount)[i := chip.target[i]]
                             else old(targetCount)
      ensures rv == 0 ==>
                && chip.bus == old(chip.bus) + Accesses(fanConfig[i])
                && ChannelRead(chip.world, fanConfig, i, old(chip.bus), old(tach), old(pwm), tach, pwm)
    {
      var n: nat;
      n, rv := chip.Transact();
      if rv < 0 { return; }
      tach := tach[i := chip.world.words(n, TachCount(i))];
      if fanConfig[i] & TACH_INPUT != 0 {
        n, rv := chip.Transact();
        if rv < 0 { return; }
        tach := tach[NR_CHANNEL + i := chip.world.words(n, TachCount(NR_CHANNEL + i))];
      } else {
        n, rv := chip.Transact();
        if rv < 0 { return; }
        pwm := pwm[i := chip.world.words(n, DutyCycle(i))];
        n, rv := chip.Transact();
        if rv < 0 { return; }
        targetCount := targetCount[i := chip.target[i]];
      }
    }

    /** Whether the cache is to be refreshed at time `now`. */
    predicate Stale(now: nat)
      reads this`valid, this`lastUpdated
    {
      TimeAfter(now, lastUpdated + hz) || !valid
    }

    /** The cache serves its readers for `hz` jiffies after a refresh and no longer, even if the counter has wrapped. */
    lemma StaleIff(now: nat, elapsed: nat)
      requires now % 0x1_0000_0000_0000_0000 == (lastUpdated + elapsed) % 0x1_0000_0000_0000_0000
      requires hz < 0x8000_0000_0000_0000 && elapsed <= hz + 0x8000_0000_0000_0000
      ensures Stale(now) <==> !valid || elapsed > hz
    {
    }

    /** The fault registers that a refresh from transaction `n` on reads before one of the two transfers fails. */
    ghost function FaultsRead(n: nat): seq<Event> {
      var w := chip.world;
      if w.errno(n) < 0 then []
      else [StatusRead(w.bytes(n, 0x11), false)]
           + if w.errno(n + 1) < 0 then [] else [StatusRead(w.bytes(n + 1, 0x10), true)]
    }

    /** The first half of a refresh: register 1, then register 2. */
    method ReadStatus() returns (rv: int)
      requires Valid()
      modifies this`faultStatus, this`trace, chip`bus
      ensures Valid() && rv <= 0 && chip.bus >= old(chip.bus) && (chip.Quiet(old(chip.bus)) ==> rv == 0)
      ensures trace == old(trace) + FaultsRead(old(chip.bus))
      ensures rv == 0 ==>
                var n, w := old(chip.bus), chip.world;
                && chip.bus == n + 2
                && FaultsRead(n) == [StatusRead(w.bytes(n, 0x11), false), StatusRead(w.bytes(n + 1, 0x10), true)]
    {
      hide Honest, Owed, Has;
      rv := ReadFaults(false);
      if rv >= 0 {
        rv := ReadFaults(true);
      }
    }

    /** max31790_update_device: a failure in the middle keeps the fault bits already read and drops the cache. */
    method UpdateDevice(now: nat) returns (rv: int)
      requires Valid()
      modifies this`valid, this`lastUpdated, this`faultStatus, this`tach, this`pwm, this`targetCount, this`trace,
               chip`bus
      ensures Valid() && rv <= 0 && (chip.Quiet(old(chip.bus)) ==> rv == 0)
      ensures chip.bus >= old(chip.bus)
      ensures !old(Stale(now)) ==>
                && rv == 0 && trace == old(trace) && targetCount == old(targetCount) && chip.bus == old(chip.bus)
                && valid == old(valid)
      ensures !old(Stale(now)) ==> tach == old(tach) && pwm == old(pwm)
      ensures old(Stale(now)) ==>
                valid == (rv == 0) && (rv == 0 ==> lastUpdated == now && ReadingsFrom(old(chip.bus) + 2))
      ensures rv == 0 && old(Stale(now)) ==> forall i :: 0 <= i < NR_CHANNEL && fanConfig[i] & 0x01 == 0 ==>
                targetCount[i] == chip.target[i]
      ensures forall i :: 0 <= i < NR_CHANNEL ==>
                targetCount[i] == old(targetCount[i]) || targetCount[i] == chip.target[i]
      ensures trace == old(trace) + if old(Stale(now)) then FaultsRead(old(chip.bus)) else []
      ensures rv == 0 && old(Stale(now)) ==>
                var n, w := old(chip.bus), chip.world;
                trace == old(trace) + [StatusRead(w.bytes(n, 0x11), false), StatusRead(w.bytes(n + 1, 0x10), true)]
    {
      hide Honest, Owed, Has, ReadingsFrom, FaultsRead;
      rv := 0;
      if Stale(now) {
        rv := ReadStatus();
        if rv >= 0 {
          rv := RefreshChannels();
        }
        if rv < 0 {
          valid := false;
          return;
        }
        lastUpdated := now;
        valid := true;
      }
    }

    // -------------------------------------------------------------- fan attributes

    /** max31790_read_fan */
    method ReadFan(attr: FanAttr, channel: nat, now: nat) returns (err: int, val: int)
      requires Valid() && channel < NR_FAN && (attr == FanTarget || attr == FanEnable ==> channel < NR_CHANNEL)
      modifies this`valid, this`lastUpdated, this`faultStatus, this`tach, this`pwm, this`targetCount, this`trace,
               chip`bus, chip`target
      ensures Valid() && (chip.Quiet(old(chip.bus)) && !attr.FanOther? ==> err == 0)
      ensures attr.FanOther? && chip.Quiet(old(chip.bus)) ==> err == -95
      ensures attr.FanOther? ==> err < 0
      ensures err == 0 && attr.FanTarget? ==>
                && val == RpmFromReg(targetCount[channel], TachPeriod(RangeBits(fanDynamics[channel])))
                && targetCount[channel] in {old(targetCount[channel]), chip.target[channel]}
                && (old(Stale(now)) && fanConfig[channel] & 0x01 == 0 ==>
                     targetCount[channel] == chip.target[channel])
      ensures err == 0 && attr.FanInput? ==>
                val == if tach[channel] == 0xFFE0 then 0
                       else RpmFromReg(tach[channel], TachPeriod(RangeBits(fanDynamics[channel % NR_CHANNEL])))
      ensures err == 0 ==>
                if old(Stale(now)) then ReadingsFrom(old(chip.bus) + 2) else tach == old(tach) && pwm == old(pwm)
      ensures err == 0 && attr.FanEnable? ==> val == if fanConfig[channel] & 0x08 != 0 then 1 else 0
      ensures err == 0 && attr.FanFault? ==>
                && |trace| > 0 && trace[|trace| - 1] == FaultRead(channel, val == 1)
                && val == (if Owed(trace[..|trace| - 1], channel) then 1 else 0)
      ensures TargetsRead(old(Stale(now)), old(targetCount), old(chip.target)) && (err == 0 ==> valid)
      ensures !old(Stale(now)) && !attr.FanOther? ==> err == 0
      ensures err < 0 || !attr.FanFault? ==> chip.target == old(chip.target)
      ensures err == 0 && attr.FanFault? ==> FaultTaken(channel, val, old(chip.bus), old(chip.target))
      ensures !old(Stale(now)) && attr.FanFault? ==> chip.bus == old(chip.bus) + val
      ensures trace == old(trace) + (if old(Stale(now)) then FaultsRead(old(chip.bus)) else [])
                       + if err == 0 && attr.FanFault? then [FaultRead(channel, val == 1)] else []
      ensures err == 0 && old(Stale(now)) ==>
                var n, w := old(chip.bus), chip.world;
                FaultsRead(n) == [StatusRead(w.bytes(n, 0x11), false), StatusRead(w.bytes(n + 1, 0x10), true)]
    {
      hide Honest, Owed, Has, ReadingsFrom;
      err := UpdateDevice(now);
      val := 0;
      if err < 0 {
        return;
      }
      match attr {
        case FanInput =>
          var sr := TachPeriod(RangeBits(fanDynamics[channel % NR_CHANNEL]));
          val := if tach[channel] == FAN_COUNT_REG_MAX then 0 else RpmFromReg(tach[channel], sr);
        case FanTarget =>
          val := RpmFromReg(targetCount[channel], TachPeriod(RangeBits(fanDynamics[channel])));
        case FanFault =>
          val := TakeFault(channel);
        case FanEnable =>
          val := if fanConfig[channel] & TACH_INPUT_EN != 0 then 1 else 0;
        case FanOther =>
          err := EOPNOTSUPP;
      }
    }

    /** What a read leaves of the cached targets: those cached before, those the chip holds, or some of each. */
    ghost predicate TargetsRead(stale: bool, cached: seq<u16>, held: seq<u16>)
      requires |fanConfig| == |targetCount| == |cached| == |held| == NR_CHANNEL
      reads this
    {
      && (forall i :: 0 <= i < NR_CHANNEL ==> targetCount[i] == cached[i] || targetCount[i] == held[i])
      && (!stale ==> valid && targetCount == cached)
      && (stale && valid ==>
           forall i :: 0 <= i < NR_CHANNEL && !TwoTachs(fanConfig[i]) ==> targetCount[i] == held[i])
    }

    /**
     The target register after a fault read that found `val`, when it held `held` before: a fault that is reported makes
     the driver write the high byte of the cached target, in the last transaction. So the chip keeps its target exactly
     when there was no fault, that write failed, or the cached high byte was the chip's.
     */
    ghost predicate FaultTaken(channel: nat, val: int, n: nat, held: seq<u16>)
      requires channel < NR_FAN && |held| == |targetCount| == NR_CHANNEL
      reads this, chip
    {
      var ch := channel % NR_CHANNEL;
      && val in {0, 1} && chip.bus >= n + val
      && var writes := val == 1 && chip.world.errno(chip.bus - 1) >= 0;
         && chip.target == (if writes then held[ch := WithHigh(held[ch], targetCount[ch] / 0x100)] else held)
         && (chip.target == held <==> !writes || targetCount[ch] / 0x100 == held[ch] / 0x100)
    }

    /** The fault case: report the sticky bit, drop it, and if it was set make the chip drop its own. */
    method TakeFault(channel: nat) returns (val: int)
      requires Valid() && channel < NR_FAN
      modifies this`faultStatus, this`trace, chip`bus, chip`target
      ensures Valid() && trace == old(trace) + [FaultRead(channel, val == 1)]
      ensures val == if Owed(old(trace), channel) then 1 else 0
      ensures chip.bus == old(chip.bus) + val && FaultTaken(channel, val, old(chip.bus), old(chip.target))
    {
      hide Honest, Owed, Has, Clear, OwedAfter;
      val := if Has(faultStatus, channel) then 1 else 0;
      ghost var t, f, e := trace, faultStatus, FaultRead(channel, val == 1);
      faultStatus := Clear(faultStatus, channel);
      trace := trace + [e];
      HonestExtend(t, e);
      forall ch: nat | ch < NR_FAN
        ensures Has(faultStatus, ch) == Owed(trace, ch)
      {
        ClearIs(f, channel, ch);
        OwedExtend(t, e, ch);
        TakenIs(channel, val == 1, Owed(t, ch), ch);
      }
      if val == 1 {
        var ch := channel % NR_CHANNEL;
        ghost var held := chip.target;
        HighKeptIff(held[ch], targetCount[ch]);
        var _ := chip.WriteTargetHigh(ch, targetCount[ch] / 0x100);
        ghost var mixed := WithHigh(held[ch], targetCount[ch] / 0x100);
        assert held[ch := mixed][ch] == mixed;
      }
    }

    static lemma HighKeptIff(held: u16, cached: u16)
      ensures WithHigh(held, cached / 0x100) == held <==> cached / 0x100 == held / 0x100
    {
    }

    static lemma TakenIs(channel: nat, value: bool, before: bool, ch: nat)
      requires ch < NR_FAN && (ch == channel ==> value == before)
      ensures OwedAfter(FaultRead(channel, value), before, ch) == (before && ch != channel)
    {
    }

    /** max31790_write_fan */
    method WriteFan(attr: FanAttr, channel: nat, val: int) returns (err: int)
      requires Valid() && channel < NR_CHANNEL
      modifies this`fanConfig, this`fanDynamics, this`targetCount, chip`bus, chip`config, chip`dynamics, chip`target
      ensures Valid() && trace == old(trace)
      ensures attr.FanTarget? ==>
                && fanDynamics == old(fanDynamics)[
                     channel := WithRange(old(fanDynamics[channel]), RangeFor(Clamp(val, FAN_RPM_MIN, FAN_RPM_MAX)))]
                && fanConfig == old(fanConfig) && chip.config == old(chip.config)
                && chip.bus == old(chip.bus) + (if chip.world.errno(old(chip.bus)) < 0 then 1 else 2)
                && (chip.world.errno(old(chip.bus)) < 0 ==>
                     && err == chip.world.errno(old(chip.bus))
                     && chip.dynamics == old(chip.dynamics) && chip.target == old(chip.target)
                     && targetCount == old(targetCount))
                && (chip.world.errno(old(chip.bus)) >= 0 ==>
                     && chip.dynamics == old(chip.dynamics)[channel := fanDynamics[channel]]
                     && targetCount == old(targetCount)[channel := TargetCount(val) * 32]
                     && (chip.world.errno(old(chip.bus) + 1) >= 0 ==>
                          err == 0 && chip.target == old(chip.target)[channel := targetCount[channel]])
                     && (chip.world.errno(old(chip.bus) + 1) < 0 ==>
                          err == chip.world.errno(old(chip.bus) + 1) && chip.target == old(chip.target)))
      ensures attr.FanEnable? ==>
                && fanDynamics == old(fanDynamics) && chip.dynamics == old(chip.dynamics)
                && chip.target == old(chip.target) && targetCount == old(targetCount)
                && EnableStored(channel, val, old(fanConfig), old(chip.config), old(chip.bus), err)
      ensures attr.FanTarget? && old(Agrees()) ==>
                (Agrees() <==> chip.world.errno(old(chip.bus)) >= 0 || fanDynamics == old(fanDynamics))
      ensures attr.FanEnable? && old(fanConfig == chip.config) ==>
                (fanConfig == chip.config <==>
                 StaysInStep(val, old(fanConfig[channel]), chip.world.errno(old(chip.bus))))
      ensures !attr.FanTarget? && !attr.FanEnable? ==>
                && err == -95 && fanConfig == old(fanConfig) && fanDynamics == old(fanDynamics)
                && targetCount == old(targetCount) && chip.target == old(chip.target)
    {
      hide Honest, Owed, Has, WithRange, RangeFor, EnableStored, StaysInStep;
      err := 0;
      match attr {
        case FanTarget =>
          err := WriteTarget(channel, val);
        case FanEnable =>
          err := WriteEnable(channel, val);
        case _ =>
          err := EOPNOTSUPP;
      }
    }

    /** The target case: the range is cached before it is written, the count only afterwards. */
    method WriteTarget(channel: nat, val: int) returns (err: int)
      requires Shape() && channel < NR_CHANNEL
      modifies this`fanDynamics, this`targetCount, chip`bus, chip`dynamics, chip`target
      ensures Shape()
      ensures fanDynamics == old(fanDynamics)[
                channel := WithRange(old(fanDynamics[channel]), RangeFor(Clamp(val, FAN_RPM_MIN, FAN_RPM_MAX)))]
      ensures var e0, e1 := chip.world.errno(old(chip.bus)), chip.world.errno(old(chip.bus) + 1);
              && err == (if e0 < 0 then e0 else if e1 < 0 then e1 else 0)
              && chip.bus == old(chip.bus) + (if e0 < 0 then 1 else 2)
              && chip.dynamics == (if e0 < 0 then old(chip.dynamics)
                                   else old(chip.dynamics)[channel := fanDynamics[channel]])
              && targetCount == (if e0 < 0 then old(targetCount)
                                 else old(targetCount)[channel := TargetCount(val) * 32])
              && chip.target == (if err < 0 then old(chip.target)
                                 else old(chip.target)[channel := targetCount[channel]])
    {
      var v := Clamp(val, FAN_RPM_MIN, FAN_RPM_MAX);
      var bits := RangeFor(v);
      WithRangeIs(fanDynamics[channel], v);
      hide WithRange, RangeFor, RangeBits;
      fanDynamics := fanDynamics[channel := WithRange(fanDynamics[channel], bits)];
      err := chip.WriteDynamics(channel, fanDynamics[channel]);
      if err < 0 {
        return;
      }
      var sr := TachPeriod(RangeBits(fanDynamics[channel]));
      TargetBounds(val);
      var count := Clamp(RpmToReg(v, sr), 1, COUNT_MAX);
      assert count == TargetCount(val);
      targetCount := targetCount[channel := count * 32];
      err := chip.WriteTarget(channel, targetCount[channel]);
    }

    /** The enable case. */
    method WriteEnable(channel: nat, val: int) returns (err: int)
      requires Shape() && channel < NR_CHANNEL
      modifies this`fanConfig, chip`bus, chip`config
      ensures Shape() && EnableStored(channel, val, old(fanConfig), old(chip.config), old(chip.bus), err)
      ensures old(fanConfig == chip.config) ==>
                (fanConfig == chip.config <==>
                 StaysInStep(val, old(fanConfig[channel]), chip.world.errno(old(chip.bus))))
    {
      hide Forced, StaysInStep, WithInput;
      ghost var config, n := fanConfig, chip.bus;
      NoSwitch(fanConfig[channel], val);
      if val == 0 || val == 1 {
        err := StoreConfig(channel, WithInput(fanConfig[channel], val));
      } else {
        err := EINVAL;
      }
      if config[channel] == Forced(config[channel]) {
        EnableInStep(channel, val, config, chip.world.errno(n));
      }
    }

    ghost predicate EnableStored(channel: nat, val: int, cached: seq<bv8>, held: seq<bv8>, n: nat, err: int)
      requires channel < |cached| == |held|
      reads this, chip
    {
      if val == 0 || val == 1 then ConfigStored(channel, WithInput(cached[channel], val), cached, held, n, err)
      else err == EINVAL && fanConfig == cached && chip.config == held
    }

    /** What a changed FAN_CONFIG leaves behind; an unchanged one is not written. */
    ghost predicate ConfigStored(channel: nat, val: bv8, cached: seq<bv8>, held: seq<bv8>, n: nat, err: int)
      requires channel < |cached| == |held|
      reads this, chip
    {
      if val == cached[channel] || chip.world.errno(n) < 0 then
        && fanConfig == cached && chip.config == held
        && err == if val == cached[channel] then 0 else chip.world.errno(n)
      else
        fanConfig == cached[channel := val] && chip.config == held[channel := Forced(val)] && err == 0
    }

    method StoreConfig(channel: nat, val: bv8) returns (err: int)
      requires Shape() && channel < NR_CHANNEL
      modifies this`fanConfig, chip`bus, chip`config
      ensures Shape() && ConfigStored(channel, val, old(fanConfig), old(chip.config), old(chip.bus), err)
    {
      err := 0;
      if val != fanConfig[channel] {
        err := chip.WriteConfig(channel, val);
        if err == 0 {
          fanConfig := fanConfig[channel := val];
        }
      }
    }

    // -------------------------------------------------------------- PWM attributes

    /** max31790_read_pwm */
    method ReadPwm(attr: PwmAttr, channel: nat, now: nat) returns (err: int, val: int)
      requires Valid() && channel < NR_CHANNEL
      modifies this`valid, this`lastUpdated, this`faultStatus, this`tach, this`pwm, this`targetCount, this`trace,
               chip`bus
      ensures Valid()
      ensures err == 0 && attr.PwmInput? ==> val == pwm[channel] / 0x100
      ensures err == 0 ==>
                if old(Stale(now)) then ReadingsFrom(old(chip.bus) + 2) else tach == old(tach) && pwm == old(pwm)
      ensures err == 0 && attr.PwmEnable? ==> val == ModeOf(fanConfig[channel])
      ensures attr.PwmOther? ==> err < 0
      ensures chip.Quiet(old(chip.bus)) && !attr.PwmOther? ==> err == 0
      ensures trace == old(trace) + if old(Stale(now)) then FaultsRead(old(chip.bus)) else []
      ensures TargetsRead(old(Stale(now)), old(targetCount), chip.target)
    {
      hide Honest, Owed, Has, ReadingsFrom;
      err := UpdateDevice(now);
      val := 0;
      if err < 0 {
        return;
      }
      match attr {
        case PwmInput => val := pwm[channel] / 0x100;
        case PwmEnable => val := ModeOf(fanConfig[channel]);
        case PwmOther => err := EOPNOTSUPP;
      }
    }

    /** max31790_write_pwm */
    method WritePwm(attr: PwmAttr, channel: nat, val: int) returns (err: int)
      requires Valid() && channel < NR_CHANNEL
      modifies this`fanConfig, this`valid, chip`bus, chip`config, chip`pwmOut
      ensures Valid() && trace == old(trace) && (valid ==> old(valid))
      ensures attr.PwmInput? ==>
                if val < 0 || val > 255 then err == -22 && chip.pwmOut == old(chip.pwmOut) && valid == old(valid)
                else && !valid
                     && err == (if chip.world.errno(old(chip.bus)) < 0 then chip.world.errno(old(chip.bus)) else 0)
                     && chip.pwmOut == if err == 0 then old(chip.pwmOut)[channel := PwmOut(val)] else old(chip.pwmOut)
      ensures !attr.PwmEnable? ==> fanConfig == old(fanConfig) && chip.config == old(chip.config)
      ensures attr.PwmEnable? && 0 <= val <= 2 ==>
                ConfigStored(channel, WithMode(old(fanConfig[channel]), val), old(fanConfig), old(chip.config),
                             old(chip.bus), err)
      ensures old(Agrees()) ==> Agrees()
      ensures attr.PwmEnable? && !(0 <= val <= 2) ==>
                err == -22 && fanConfig == old(fanConfig) && chip.config == old(chip.config)
    {
      hide Honest, Owed, Has;
      err := 0;
      match attr {
        case PwmInput =>
          if val < 0 || val > 255 {
            err := EINVAL;
          } else {
            PwmRoundTrip(val);
            valid := false;
            err := chip.WritePwmOut(channel, PwmOut(val));
          }
        case PwmEnable =>
          if 0 <= val <= 2 {
            ModeRoundTrip(fanConfig[channel], val);
            err := StoreConfig(channel, WithMode(fanConfig[channel], val));
          } else {
            err := EINVAL;
          }
        case PwmOther =>
          err := EOPNOTSUPP;
      }
    }
  }

  // ---------------------------------------------------------------- the readings of a refresh

  /** The channel's PWM pin is a second tachometer input. */
  predicate TwoTachs(config: bv8) {
    config & 0x01 != 0
  }

  /** A round reads two tachometers, or one with duty cycle and target. */
  function Accesses(config: bv8): nat {
    if TwoTachs(config) then 2 else 3
  }

  /** Transactions of the first `k` rounds. */
  function Rounds(config: seq<bv8>, k: nat): nat
    requires k <= |config|
  {
    if k == 0 then 0 else Rounds(config, k - 1) + Accesses(config[k - 1])
  }

  /** What round `i` makes of the cached readings when it starts with transaction `n`. */
  ghost predicate ChannelRead(w: World, config: seq<bv8>, i: nat, n: nat,
                              tach0: seq<u16>, pwm0: seq<u16>, tach1: seq<u16>, pwm1: seq<u16>)
    requires i < NR_CHANNEL == |config| == |pwm0| && NR_FAN == |tach0|
  {
    if TwoTachs(config[i])
    then && tach1 == tach0[i := w.words(n, TachCount(i))][NR_CHANNEL + i := w.words(n + 1, TachCount(NR_CHANNEL + i))]
         && pwm1 == pwm0
    else tach1 == tach0[i := w.words(n, TachCount(i))] && pwm1 == pwm0[i := w.words(n + 1, DutyCycle(i))]
  }

  /** The first `k` channels hold what a refresh from transaction `n` on read, each from its own registers. */
  ghost predicate Readings(w: World, config: seq<bv8>, n: nat, k: nat, tach: seq<u16>, pwm: seq<u16>)
    requires k <= NR_CHANNEL == |config| == |pwm| && NR_FAN == |tach|
  {
    forall i :: 0 <= i < k ==> ReadingOf(w, config, i, n + Rounds(config, i), tach, pwm)
  }

  ghost predicate ReadingOf(w: World, config: seq<bv8>, i: nat, n: nat, tach: seq<u16>, pwm: seq<u16>)
    requires i < NR_CHANNEL == |config| == |pwm| && NR_FAN == |tach|
  {
    && tach[i] == w.words(n, 0x18 + 2 * i)
    && if TwoTachs(config[i]) then tach[NR_CHANNEL + i] == w.words(n + 1, 0x18 + 2 * (6 + i))
       else pwm[i] == w.words(n + 1, 0x30 + 2 * i)
  }

  lemma NoReadings(w: World, config: seq<bv8>, n: nat, tach: seq<u16>, pwm: seq<u16>)
    requires NR_CHANNEL == |config| == |pwm| && NR_FAN == |tach|
    ensures Readings(w, config, n, 0, tach, pwm)
  {
  }

  lemma ReadingsNext(w: World, config: seq<bv8>, n: nat, i: nat,
                     tach0: seq<u16>, pwm0: seq<u16>, tach1: seq<u16>, pwm1: seq<u16>)
    requires i < NR_CHANNEL == |config| == |pwm0| == |pwm1| && NR_FAN == |tach0| == |tach1|
    requires Readings(w, config, n, i, tach0, pwm0)
    requires ChannelRead(w, config, i, n + Rounds(config, i), tach0, pwm0, tach1, pwm1)
    ensures Readings(w, config, n, i + 1, tach1, pwm1)
  {
    hide Rounds, TwoTachs;
    forall j | 0 <= j < i + 1
      ensures ReadingOf(w, config, j, n + Rounds(config, j), tach1, pwm1)
    {
      assert j < i ==> ReadingOf(w, config, j, n + Rounds(config, j), tach0, pwm0);
    }
  }

  /** The pwm_enable value a FAN_CONFIG stands for, and the FAN_CONFIG a pwm_enable value asks for. */
  function ModeOf(config: bv8): int {
    if config & CTRL_MON != 0 then 0 else if config & RPM_MODE != 0 then 2 else 1
  }

  function WithMode(config: bv8, mode: int): bv8 {
    if mode == 0 then (config | CTRL_MON) & !RPM_MODE
    else if mode == 1 then config & !(CTRL_MON | RPM_MODE)
    else (config & !CTRL_MON) | (RPM_MODE | TACH_INPUT_EN)
  }

  /**
   A pwm mode reads back as written, touches no other bit but the tachometer input, and the chip keeps it as cached.
   */
  lemma ModeRoundTrip(config: bv8, mode: int)
    requires 0 <= mode <= 2
    ensures ModeOf(WithMode(config, mode)) == mode
    ensures Forced(WithMode(config, mode)) == WithMode(config, mode)
    ensures WithMode(config, mode) & 0x67 == config & 0x67
    ensures mode != 2 ==> WithMode(config, mode) & TACH_INPUT_EN == config & TACH_INPUT_EN
    ensures WithMode(config, mode) & 0x90 == if mode == 0 then 0x10 else if mode == 1 then 0 else 0x80
    ensures mode == 2 ==> WithMode(config, mode) & 0x08 != 0
    ensures ModeOf(config) == if config & 0x10 != 0 then 0 else if config & 0x80 != 0 then 2 else 1
  {
  }

  /**
   An enable write keeps cache and chip in step, unless it reaches the chip and switches the input off in RPM mode.
   */
  predicate StaysInStep(val: int, config: bv8, errno: int) {
    !(val == 0 && config & RPM_MODE != 0 && errno >= 0)
  }

  /** FAN_CONFIG with the tachometer input switched. */
  function WithInput(config: bv8, val: int): bv8 {
    if val == 0 then config & !TACH_INPUT_EN else if val == 1 then config | TACH_INPUT_EN else config
  }

  lemma NoSwitch(config: bv8, val: int)
    ensures val !in {0, 1} ==> WithInput(config, val) == config
  {
  }

  /**
   Switching the tachometer input of a channel leaves cache and chip in agreement exactly when it is not switched off
   in RPM mode: there the chip keeps it on and the cache does not.
   */
  lemma EnableAgreesIff(config: bv8, val: int)
    ensures config == Forced(config) && !(val == 0 && config & RPM_MODE != 0) ==>
              Forced(WithInput(config, val)) == WithInput(config, val)
    ensures val == 0 && config & RPM_MODE != 0 ==> Forced(WithInput(config, val)) != WithInput(config, val)
    ensures val == 0 && config & RPM_MODE != 0 && config == Forced(config) ==> WithInput(config, val) != config
    ensures val in {0, 1} ==> (WithInput(config, val) & 0x08 != 0 <==> val == 1)
    ensures WithInput(config, val) & 0xF7 == config & 0xF7 && (val !in {0, 1} ==> WithInput(config, val) == config)
  {
  }

  lemma EnableInStep(channel: nat, val: int, config: seq<bv8>, errno: int)
    requires channel < |config| && config[channel] == Forced(config[channel])
    ensures var new_ := WithInput(config[channel], val);
            var written := new_ != config[channel] && errno >= 0;
            && (written ==>
                 (config[channel := new_] == config[channel := Forced(new_)] <==>
                   StaysInStep(val, config[channel], errno)))
            && (!written ==> StaysInStep(val, config[channel], errno))
  {
    hide Forced, WithInput;
    var new_ := WithInput(config[channel], val);
    EnableAgreesIff(config[channel], val);
    assert config[channel := new_][channel] == new_ && config[channel := Forced(new_)][channel] == Forced(new_);
  }
}
