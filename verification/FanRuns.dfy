/** Fan targets over runs of attribute accesses (kmods/backports/bp4f_max31790.c). */
module FanRuns {
  import opened Bits
  import opened FanController
  import opened FanFaults
  import opened FanSpeed
  import opened Options

  // ---------------------------------------------------------------- a failed write and a fault read

  /**
   A target write that fails in its second transfer leaves the new target cached and the old one in the chip. A fault
   that is read within the second then stores the new high byte beside the old low one.
   */
  method FaultAfterFailedWrite(d: Driver, channel: nat, val: int, now: nat)
      returns (err: int, readErr: int, fault: int)
    requires d.Valid() && channel < NR_CHANNEL && !d.Stale(now) && Owed(d.trace, channel)
    requires var w, n := d.chip.world, d.chip.bus; w.errno(n) >= 0 && w.errno(n + 1) < 0 && w.errno(n + 2) >= 0
    modifies d, d.chip
    ensures err < 0 && readErr == 0 && fault == 1
    ensures d.chip.target == old(d.chip.target)[channel := MixedTarget(old(d.chip.target[channel]), val)]
  {
    hide Honest, Owed, Has, WithRange, RangeFor, RangeBits, TargetCount, Driver.ReadingsFrom,
         Driver.FaultsRead, Driver.EnableStored, WithHigh, TachPeriod, RpmFromReg, StaysInStep;
    TargetBounds(val);
    err := d.WriteFan(FanTarget, channel, val);
    ghost var t := d.trace;
    readErr, fault := d.ReadFan(FanFault, channel, now);
    assert d.trace == t + [FaultRead(channel, fault == 1)];
  }

  function MixedTarget(held: u16, val: int): u16 {
    TargetBounds(val);
    WithHigh(held, TargetCount(val) * 32 / 0x100)
  }

  /** From 1000 to 600 revolutions per minute: the chip ends up with a target that is neither. */
  lemma MixedTargetIsNeither()
    ensures TargetCount(1000) * 32 == 0x7AE0 && TargetCount(600) * 32 == 0x6660
    ensures MixedTarget(0x7AE0, 600) == 0x66E0
  {
    assert Div(60 * 4 * 8192, 2000) == 983;
    assert Div(60 * 2 * 8192, 1200) == 819;
  }

  // ---------------------------------------------------------------- a fault read from the chip

  /** With nothing owed and a stale cache, a fault attribute reads its own bit of its own status register. */
  method FreshFault(d: Driver, channel: nat, now: nat) returns (fault: int)
    requires d.Valid() && channel < NR_FAN && d.Stale(now) && d.chip.Quiet(d.chip.bus) && !Owed(d.trace, channel)
    modifies d, d.chip
    ensures var n, w := old(d.chip.bus), d.chip.world;
            var reg := if channel < 6 then w.bytes(n, 0x11) else w.bytes(n + 1, 0x10);
            fault == if BitSet(reg, channel % 6) then 1 else 0
  {
    hide Honest, Owed, Has, Raised, BitSet, Driver.ReadingsFrom, Driver.TargetsRead, Driver.FaultTaken;
    ghost var t, n, w := d.trace, d.chip.bus, d.chip.world;
    var err: int;
    err, fault := d.ReadFan(FanFault, channel, now);
    ghost var first, second := StatusRead(w.bytes(n, 0x11), false), StatusRead(w.bytes(n + 1, 0x10), true);
    assert d.trace[..|d.trace| - 1] == t + [first] + [second];
    OwedExtend(t, first, channel);
    OwedExtend(t + [first], second, channel);
    RaisedIs(w.bytes(n, 0x11), false, channel);
    RaisedIs(w.bytes(n + 1, 0x10), true, channel);
  }

  // ---------------------------------------------------------------- accesses

  datatype Op =
    | FanRead(attr: FanAttr, channel: nat)
    | FanWrite(attr: FanAttr, channel: nat, val: int)
    | PwmRead(pwm: PwmAttr, channel: nat)
    | PwmWrite(pwm: PwmAttr, channel: nat, val: int)
  {
    /** The channels hwmon offers the attribute on. */
    predicate Offered() {
      channel < if FanRead? && attr != FanTarget && attr != FanEnable then NR_FAN else NR_CHANNEL
    }

    predicate Sets(ch: nat) {
      FanWrite? && attr == FanTarget && channel == ch
    }
  }

  /** What bears on the targets: the cached configuration and counts, and the counts in the chip. */
  datatype Targets = Targets(config: seq<bv8>, dynamics: seq<bv8>, cached: seq<u16>, held: seq<u16>) {
    predicate Shape() {
      |config| == |dynamics| == |cached| == |held| == NR_CHANNEL
    }

    /** Channels without a second tachometer are cached as the chip has them. */
    ghost predicate InStep()
      requires Shape()
    {
      forall i :: 0 <= i < NR_CHANNEL && !TwoTachs(config[i]) ==> cached[i] == held[i]
    }

    /** Channel `ch` is set to what a write of `val` asks for. */
    predicate SetTo(ch: nat, val: int)
      requires Shape() && ch < NR_CHANNEL
    {
      && cached[ch] == held[ch] == TargetCount(val) * 32
      && RangeBits(dynamics[ch]) == RangeFor(Clamp(val, FAN_RPM_MIN, FAN_RPM_MAX))
    }

    /**
     Between this state and `t` the target of channel `i` was left alone: if cache and chip agreed on it they still do,
     and on a channel without a second tachometer the chip still has it.
     */
    predicate Keeps(t: Targets, i: nat)
      requires Shape() && t.Shape() && i < NR_CHANNEL
    {
      && t.dynamics[i] == dynamics[i]
      && (cached[i] == held[i] ==> t.cached[i] == t.held[i] == held[i])
      && (!TwoTachs(config[i]) ==> t.held[i] == held[i])
    }

    ghost predicate SameInputs(t: Targets)
      requires Shape() && t.Shape()
    {
      forall i :: 0 <= i < NR_CHANNEL ==> TwoTachs(t.config[i]) == TwoTachs(config[i])
    }
  }

  function TargetsOf(d: Driver): (t: Targets)
    reads d, d.chip
    ensures d.Shape() ==> t.Shape()
  {
    Targets(d.fanConfig, d.fanDynamics, d.targetCount, d.chip.target)
  }

  /** A driver on a bus without failures, whose valid cache is in step with the chip; a probed driver is one. */
  ghost predicate Sound(d: Driver)
    reads d, d.chip
  {
    d.Valid() && d.chip.Quiet(0) && (d.valid ==> TargetsOf(d).InStep())
  }

  ghost predicate AllKept(a: Targets, b: Targets)
    requires a.Shape() && b.Shape()
  {
    a.SameInputs(b) && forall i :: 0 <= i < NR_CHANNEL ==> a.Keeps(b, i)
  }

  lemma ConfigKeepsInput(c: bv8, mode: int)
    ensures TwoTachs(c & !TACH_INPUT_EN) == TwoTachs(c) == TwoTachs(c | TACH_INPUT_EN) == TwoTachs(WithMode(c, mode))
  {
  }

  /** After a read: the cache holds some of what it held and some of what the chip holds. */
  ghost predicate Reread(a: Targets, b: Targets, stale: bool, valid: bool)
    requires a.Shape() && b.Shape()
  {
    && b.config == a.config && b.dynamics == a.dynamics
    && (forall i :: 0 <= i < NR_CHANNEL ==> b.cached[i] == a.cached[i] || b.cached[i] == a.held[i])
    && (!stale ==> a.InStep() && b.cached == a.cached)
    && (stale && valid ==> forall i :: 0 <= i < NR_CHANNEL && !TwoTachs(a.config[i]) ==> b.cached[i] == a.held[i])
  }

  lemma ReadKeeps(a: Targets, b: Targets, stale: bool, valid: bool)
    requires a.Shape() && b.Shape() && Reread(a, b, stale, valid) && b.held == a.held
    ensures AllKept(a, b) && (valid ==> b.InStep())
  {
    hide TwoTachs;
  }

  /** A fault read that rewrites a high byte from a cache in step with the chip changes nothing. */
  lemma FaultKeeps(a: Targets, b: Targets, stale: bool, ch: nat)
    requires a.Shape() && b.Shape() && Reread(a, b, stale, true) && ch < NR_CHANNEL
    requires b.held == a.held || b.held == a.held[ch := WithHigh(a.held[ch], b.cached[ch] / 0x100)]
    ensures AllKept(a, b) && b.InStep()
  {
    hide TwoTachs;
    Driver.HighKeptIff(a.held[ch], a.held[ch]);
    assert a.held[ch := a.held[ch]] == a.held;
  }

  lemma SameKeeps(a: Targets, b: Targets)
    requires a.Shape() && b == a
    ensures AllKept(a, b)
  {
  }

  /** The configuration of one channel was replaced by one with the same second input. */
  lemma StoredKeeps(d: Driver, a: Targets, channel: nat, val: bv8, held: seq<bv8>, n: nat, err: int)
    requires d.Shape() && a.Shape() && channel < NR_CHANNEL == |held|
    requires d.ConfigStored(channel, val, a.config, held, n, err) && TwoTachs(val) == TwoTachs(a.config[channel])
    requires d.fanDynamics == a.dynamics && d.targetCount == a.cached && d.chip.target == a.held
    ensures AllKept(a, TargetsOf(d)) && (a.InStep() ==> TargetsOf(d).InStep())
  {
    hide TwoTachs, Forced;
  }

  /** One access. */
  method Do(d: Driver, op: Op, now: nat)
    requires Sound(d) && op.Offered()
    modifies d, d.chip
    ensures Sound(d) && old(TargetsOf(d)).SameInputs(TargetsOf(d))
    ensures forall i :: 0 <= i < NR_CHANNEL ==>
              if op.Sets(i) then TargetsOf(d).SetTo(i, op.val) else old(TargetsOf(d)).Keeps(TargetsOf(d), i)
  {
    match op {
      case FanRead(attr, channel) => DoFanRead(d, attr, channel, now);
      case FanWrite(attr, channel, val) =>
        if attr == FanTarget {
          DoTargetWrite(d, channel, val);
        } else {
          DoFanWrite(d, attr, channel, val);
        }
      case PwmRead(attr, channel) => DoPwmRead(d, attr, channel, now);
      case PwmWrite(attr, channel, val) => DoPwmWrite(d, attr, channel, val);
    }
  }

  method DoFanRead(d: Driver, attr: FanAttr, channel: nat, now: nat)
    requires Sound(d) && FanRead(attr, channel).Offered()
    modifies d, d.chip
    ensures Sound(d) && AllKept(old(TargetsOf(d)), TargetsOf(d))
  {
    hide Honest, Owed, Has, TwoTachs, Targets.InStep, AllKept, Driver.ReadingsFrom;
    ghost var a, stale := TargetsOf(d), d.Stale(now);
    var err, val := d.ReadFan(attr, channel, now);
    if attr == FanFault {
      FaultKeeps(a, TargetsOf(d), stale, channel % NR_CHANNEL);
    } else {
      ReadKeeps(a, TargetsOf(d), stale, d.valid);
    }
  }

  method DoFanWrite(d: Driver, attr: FanAttr, channel: nat, val: int)
    requires Sound(d) && attr != FanTarget && channel < NR_CHANNEL
    modifies d, d.chip
    ensures Sound(d) && AllKept(old(TargetsOf(d)), TargetsOf(d))
  {
    hide Honest, Owed, Has, TwoTachs, Targets.InStep, AllKept, Driver.EnableStored, StaysInStep, WithRange, RangeFor;
    ghost var a, held, n := TargetsOf(d), d.chip.config, d.chip.bus;
    var err := d.WriteFan(attr, channel, val);
    if attr == FanEnable {
      EnableKeeps(d, a, channel, val, held, n, err);
    } else {
      SameKeeps(a, TargetsOf(d));
    }
  }

  lemma EnableKeeps(d: Driver, a: Targets, channel: nat, val: int, held: seq<bv8>, n: nat, err: int)
    requires d.Shape() && a.Shape() && channel < NR_CHANNEL == |held|
    requires d.EnableStored(channel, val, a.config, held, n, err)
    requires d.fanDynamics == a.dynamics && d.targetCount == a.cached && d.chip.target == a.held
    ensures AllKept(a, TargetsOf(d)) && (a.InStep() ==> TargetsOf(d).InStep())
  {
    hide TwoTachs, Targets.InStep, AllKept, Driver.ConfigStored;
    ConfigKeepsInput(a.config[channel], 0);
    if val == 0 {
      StoredKeeps(d, a, channel, a.config[channel] & !TACH_INPUT_EN, held, n, err);
    } else if val == 1 {
      StoredKeeps(d, a, channel, a.config[channel] | TACH_INPUT_EN, held, n, err);
    } else {
      SameKeeps(a, TargetsOf(d));
    }
  }

  method DoTargetWrite(d: Driver, channel: nat, val: int)
    requires Sound(d) && channel < NR_CHANNEL
    modifies d, d.chip
    ensures Sound(d) && old(TargetsOf(d)).SameInputs(TargetsOf(d))
    ensures forall i :: 0 <= i < NR_CHANNEL ==>
              if i == channel then TargetsOf(d).SetTo(i, val) else old(TargetsOf(d)).Keeps(TargetsOf(d), i)
  {
    hide Honest, Owed, Has, TwoTachs, WithRange, RangeFor, RangeBits, TargetCount;
    WithRangeIs(d.fanDynamics[channel], Clamp(val, FAN_RPM_MIN, FAN_RPM_MAX));
    var err := d.WriteFan(FanTarget, channel, val);
  }

  method DoPwmRead(d: Driver, attr: PwmAttr, channel: nat, now: nat)
    requires Sound(d) && channel < NR_CHANNEL
    modifies d, d.chip
    ensures Sound(d) && AllKept(old(TargetsOf(d)), TargetsOf(d))
  {
    hide Honest, Owed, Has, TwoTachs, Targets.InStep, AllKept, Driver.ReadingsFrom;
    ghost var a, stale := TargetsOf(d), d.Stale(now);
    var err, val := d.ReadPwm(attr, channel, now);
    ReadKeeps(a, TargetsOf(d), stale, d.valid);
  }

  method DoPwmWrite(d: Driver, attr: PwmAttr, channel: nat, val: int)
    requires Sound(d) && channel < NR_CHANNEL
    modifies d, d.chip
    ensures Sound(d) && AllKept(old(TargetsOf(d)), TargetsOf(d))
  {
    hide Honest, Owed, Has, TwoTachs, Targets.InStep, AllKept, Driver.ConfigStored, WithMode;
    ghost var a, held, n := TargetsOf(d), d.chip.config, d.chip.bus;
    ConfigKeepsInput(d.fanConfig[channel], val);
    var err := d.WritePwm(attr, channel, val);
    if attr == PwmEnable && 0 <= val <= 2 {
      StoredKeeps(d, a, channel, WithMode(a.config[channel], val), held, n, err);
    } else {
      SameKeeps(a, TargetsOf(d));
    }
  }

  // ---------------------------------------------------------------- runs

  /** The last target written to channel `ch` in a run. */
  function LastTarget(ops: seq<Op>, ch: nat): Option<int> {
    if ops == [] then None
    else
      var n := |ops| - 1;
      if ops[n].Sets(ch) then Some(ops[n].val) else LastTarget(ops[..n], ch)
  }

  /** Channel `i` after a run that began in `a`: it has its last target, or is as it was. */
  predicate Follows(a: Targets, b: Targets, ops: seq<Op>, i: nat)
    requires a.Shape() && b.Shape() && i < NR_CHANNEL
  {
    match LastTarget(ops, i)
    case Some(v) => b.SetTo(i, v)
    case None => a.Keeps(b, i)
  }

  lemma FollowsNext(a: Targets, b: Targets, c: Targets, ops: seq<Op>, op: Op, i: nat)
    requires a.Shape() && b.Shape() && c.Shape() && i < NR_CHANNEL && a.SameInputs(b) && Follows(a, b, ops, i)
    requires if op.Sets(i) then c.SetTo(i, op.val) else b.Keeps(c, i)
    ensures Follows(a, c, ops + [op], i)
  {
    hide TwoTachs, RangeBits, RangeFor, TargetCount;
    assert (ops + [op])[..|ops|] == ops;
  }

  lemma FollowsStart(a: Targets, i: nat)
    requires a.Shape() && i < NR_CHANNEL
    ensures Follows(a, a, [], i) && a.SameInputs(a)
  {
  }

  lemma SameInputsTwice(a: Targets, b: Targets, c: Targets)
    requires a.Shape() && b.Shape() && c.Shape() && a.SameInputs(b) && b.SameInputs(c)
    ensures a.SameInputs(c)
  {
    hide TwoTachs;
  }

  /**
   On a bus without failures, any run of attribute reads and writes, fault reads included, at any times: each channel is
   set to the last target written to it, in cache and chip; and if none was, a target that cache and chip agreed on, or
   any target of a channel without a second tachometer, is still there.
   */
  method Run(d: Driver, ops: seq<Op>, times: seq<nat>)
    requires Sound(d) && |times| == |ops| && forall i :: 0 <= i < |ops| ==> ops[i].Offered()
    modifies d, d.chip
    ensures Sound(d)
    ensures forall i :: 0 <= i < NR_CHANNEL ==> Follows(old(TargetsOf(d)), TargetsOf(d), ops, i)
  {
    hide Honest, Owed, Has, Targets.SetTo, Targets.SameInputs, Targets.InStep, Follows;
    ghost var a := TargetsOf(d);
    FollowsStart(a, 0);
    forall i: nat | i < NR_CHANNEL
      ensures Follows(a, a, ops[..0], i)
    {
      FollowsStart(a, i);
    }
    for k := 0 to |ops|
      invariant Sound(d) && d.Shape() && a.SameInputs(TargetsOf(d))
      invariant forall i :: 0 <= i < NR_CHANNEL ==> Follows(a, TargetsOf(d), ops[..k], i)
    {
      ghost var b := TargetsOf(d);
      Do(d, ops[k], times[k]);
      ghost var c, now := TargetsOf(d), ops[..k + 1];
      assert now == ops[..k] + [ops[k]];
      SameInputsTwice(a, b, c);
      forall i: nat | i < NR_CHANNEL
        ensures Follows(a, c, now, i)
      {
        FollowsNext(a, b, c, ops[..k], ops[k], i);
      }
    }
    assert ops[..|ops|] == ops;
  }

  /** After any run, the target attribute of a channel reads the speed of the last target written, at any time. */
  method TargetAfterRun(d: Driver, ops: seq<Op>, times: seq<nat>, channel: nat, now: nat) returns (got: int)
    requires Sound(d) && |times| == |ops| && forall i :: 0 <= i < |ops| ==> ops[i].Offered()
    requires channel < NR_CHANNEL
    modifies d, d.chip
    ensures LastTarget(ops, channel).Some? ==> got == Readback(LastTarget(ops, channel).value)
  {
    hide Honest, Owed, Has, TwoTachs, RangeBits, RangeFor, TargetCount;
    Run(d, ops, times);
    assert Follows(old(TargetsOf(d)), TargetsOf(d), ops, channel);
    var err: int;
    err, got := d.ReadFan(FanTarget, channel, now);
  }

  /**
   So a target written reads back as the slowest settable speed not below it, and writing that speed back reads the same
   again.
   */
  method TargetRoundTrip(d: Driver, channel: nat, val: int, now: nat, later: nat) returns (got: int, again: int)
    requires Sound(d) && channel < NR_CHANNEL
    modifies d, d.chip
    ensures got == again == Readback(val)
  {
    DoTargetWrite(d, channel, val);
    got := ReadTarget(d, channel, now, val);
    ReadbackIdempotent(val);
    DoTargetWrite(d, channel, got);
    again := ReadTarget(d, channel, later, got);
  }

  /** Reading a target that was just written. */
  method ReadTarget(d: Driver, channel: nat, now: nat, ghost val: int) returns (got: int)
    requires Sound(d) && channel < NR_CHANNEL && TargetsOf(d).SetTo(channel, val)
    modifies d, d.chip
    ensures Sound(d) && got == Readback(val)
  {
    hide Honest, Owed, Has, TwoTachs, RangeBits, RangeFor, TargetCount;
    var err: int;
    err, got := d.ReadFan(FanTarget, channel, now);
  }
}
