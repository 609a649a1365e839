/** Sticky fan faults of the MAX31790: what a run owes to the readers of the fault attributes. */
module FanFaults {

  const NR_CHANNEL := 6
  const NR_FAN := 12

  // ---------------------------------------------------------------- fault bits

  /** `1 << k` in eight and in sixteen bits */
  function Bit8(k: nat): bv8
    requires k < 6
  {
    if k == 0 then 1 else if k == 1 then 2 else if k == 2 then 4 else if k == 3 then 8 else if k == 4 then 16 else 32
  }

  function Bit16(k: nat): bv16
    requires k < NR_FAN
  {
    if k == 0 then 1 else if k == 1 then 2 else if k == 2 then 4 else if k == 3 then 8 else if k == 4 then 16
    else if k == 5 then 32 else if k == 6 then 64 else if k == 7 then 128 else if k == 8 then 256
    else if k == 9 then 512 else if k == 10 then 1024 else 2048
  }

  predicate Has(status: bv16, ch: nat)
    requires ch < NR_FAN
  {
    Meets(status, Bit16(ch))
  }

  /** Status register 1 holds the faults of channels 0 to 5, status register 2 those of channels 6 to 11. */
  predicate Raised(reg: bv8, second: bool, ch: nat)
    requires ch < NR_FAN
  {
    second == (ch >= NR_CHANNEL) && reg & Bit8(ch % NR_CHANNEL) != 0
  }

  predicate BitSet(reg: bv8, k: nat)
    requires k < 8
  {
    (reg >> k) & 1 == 1
  }

  /** That is: bit `ch % 6` of the register of the channel's half. */
  lemma RaisedIs(reg: bv8, second: bool, ch: nat)
    requires ch < NR_FAN
    ensures Raised(reg, second, ch) <==> (if ch < 6 then !second else second) && BitSet(reg, ch % 6)
  {
    if ch % 6 == 0 {} else if ch % 6 == 1 {} else if ch % 6 == 2 {} else if ch % 6 == 3 {} else if ch % 6 == 4 {}
  }

  /** `status |= (reg & 0x3F)`, shifted by six for the second register */
  function Latch(status: bv16, reg: bv8, second: bool): bv16 {
    var low := (reg & 0x3F) as bv16;
    status | if second then low << 6 else low
  }

  lemma LatchIs(status: bv16, reg: bv8, second: bool, ch: nat)
    requires ch < NR_FAN
    ensures Has(Latch(status, reg, second), ch) <==> Has(status, ch) || Raised(reg, second, ch)
  {
  }

  function Clear(status: bv16, ch: nat): bv16
    requires ch < NR_FAN
  {
    status & !Bit16(ch)
  }

  lemma ClearIs(status: bv16, ch: nat, c: nat)
    requires ch < NR_FAN && c < NR_FAN
    ensures Has(Clear(status, ch), c) <==> Has(status, c) && c != ch
  {
    hide Bit16, Meets;
    MaskIs(status, Bit16(ch), Bit16(c));
    if c != ch {
      BitsDisjoint(ch, c);
    }
  }

  lemma BitsDisjoint(a: nat, b: nat)
    requires a < NR_FAN && b < NR_FAN && a != b
    ensures Bit16(a) & Bit16(b) == 0
  {
  }

  predicate Meets(x: bv16, y: bv16) {
    x & y != 0
  }

  lemma MaskIs(status: bv16, x: bv16, y: bv16)
    ensures x & y == 0 ==> Meets(status & !x, y) == Meets(status, y)
    ensures x == y ==> !Meets(status & !x, y)
  {
  }

  // ---------------------------------------------------------------- runs

  /** What passes between chip, driver and readers: a fault register read, and a fault attribute read. */
  datatype Event =
    | StatusRead(reg: bv8, second: bool)
    | FaultRead(channel: nat, value: bool)

  /** After `t`, a fault of channel `ch` has been read from the chip and not been reported since. */
  predicate Owed(t: seq<Event>, ch: nat)
    requires ch < NR_FAN
  {
    t != [] && OwedAfter(t[|t| - 1], Owed(t[..|t| - 1], ch), ch)
  }

  predicate OwedAfter(e: Event, before: bool, ch: nat)
    requires ch < NR_FAN
  {
    match e
    case StatusRead(reg, second) => before || Raised(reg, second, ch)
    case FaultRead(c, v) => before && !(c == ch && v)
  }

  /** Every fault attribute read in `t` reported what was owed. */
  ghost predicate Honest(t: seq<Event>) {
    forall i :: 0 <= i < |t| && t[i].FaultRead? ==> t[i].channel < NR_FAN && t[i].value == Owed(t[..i], t[i].channel)
  }

  ghost predicate Reports(t: seq<Event>, i: int, ch: nat)
    requires 0 <= i < |t|
  {
    t[i] == FaultRead(ch, true)
  }

  ghost predicate Raises(t: seq<Event>, i: int, ch: nat)
    requires 0 <= i < |t| && ch < NR_FAN
  {
    t[i].StatusRead? && Raised(t[i].reg, t[i].second, ch)
  }

  /** A fault is owed exactly when it was raised at some point and not reported after it. */
  lemma {:induction false} OwedIff(t: seq<Event>, ch: nat)
    requires ch < NR_FAN
    ensures Owed(t, ch) <==>
            exists i :: 0 <= i < |t| && Raises(t, i, ch) && forall j :: i < j < |t| ==> !Reports(t, j, ch)
    decreases |t|
  {
    if t != [] {
      var n := |t| - 1;
      var before := t[..n];
      OwedIff(before, ch);
      assert forall i :: 0 <= i < n ==>
          Raises(before, i, ch) == Raises(t, i, ch) && Reports(before, i, ch) == Reports(t, i, ch);
      if Owed(t, ch) {
        if !Raises(t, n, ch) {
          var i :| 0 <= i < n && Raises(before, i, ch) && forall j :: i < j < n ==> !Reports(before, j, ch);
          assert Raises(t, i, ch) && !Reports(t, n, ch);
        }
      } else {
        forall i | 0 <= i < |t| && Raises(t, i, ch)
          ensures exists j :: i < j < |t| && Reports(t, j, ch)
        {
          if Owed(before, ch) {
            assert Reports(t, n, ch);
          } else {
            assert Raises(before, i, ch);
            var j :| i < j < n && Reports(before, j, ch);
            assert Reports(t, j, ch);
          }
        }
      }
    }
  }

  /** No lost fault: once raised, the next read of the channel's fault attribute reports it. */
  lemma NoLostFault(t: seq<Event>, i: nat, j: nat, ch: nat)
    requires Honest(t) && ch < NR_FAN && i < j < |t| && Raises(t, i, ch)
    requires t[j].FaultRead? && t[j].channel == ch
    requires forall k :: i < k < j ==> !Reports(t, k, ch)
    ensures t[j].value
  {
    var p := t[..j];
    OwedIff(p, ch);
    assert Raises(p, i, ch);
    forall k | i < k < |p|
      ensures !Reports(p, k, ch)
    {
      assert !Reports(t, k, ch);
    }
  }

  /** No invented fault, and none reported twice: between two reports the fault was raised again. */
  lemma ReportedOnce(t: seq<Event>, j: nat, ch: nat)
    requires Honest(t) && ch < NR_FAN && j < |t| && Reports(t, j, ch)
    ensures exists i :: 0 <= i < j && Raises(t, i, ch) && forall k :: i < k < j ==> !Reports(t, k, ch)
  {
    var p := t[..j];
    OwedIff(p, ch);
    var i :| 0 <= i < |p| && Raises(p, i, ch) && forall k :: i < k < |p| ==> !Reports(p, k, ch);
    assert Raises(t, i, ch);
    forall k | i < k < j
      ensures !Reports(t, k, ch)
    {
      assert !Reports(p, k, ch);
    }
  }

  lemma HonestExtend(t: seq<Event>, e: Event)
    requires Honest(t) && (e.FaultRead? ==> e.channel < NR_FAN && e.value == Owed(t, e.channel))
    ensures Honest(t + [e])
  {
    forall i | 0 <= i < |t| + 1 && (t + [e])[i].FaultRead?
      ensures (t + [e])[i].channel < NR_FAN && (t + [e])[i].value == Owed((t + [e])[..i], (t + [e])[i].channel)
    {
      if i < |t| {
        assert (t + [e])[..i] == t[..i];
      } else {
        assert (t + [e])[..i] == t;
      }
    }
  }

  lemma OwedExtend(t: seq<Event>, e: Event, ch: nat)
    requires ch < NR_FAN
    ensures Owed(t + [e], ch) == OwedAfter(e, Owed(t, ch), ch)
  {
    assert (t + [e])[..|t + [e]| - 1] == t;
  }
}
