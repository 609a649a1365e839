/** Averaging of the ADM1275 family (kmods/backports/bp4f_adm1275.c). */
module Adm1275 {
  import opened Bits
  import opened RegisterFields

  const ENXIO := -6
  const PMON_CONTROL := 0xD3
  const PMON_CONFIG := 0xD4
  const CONVERT_EN := 1
  const SAMPLES_AVG_MAX := 128

  /** The averaging field: chips with power sampling have a 16-bit register and two fields, others a single one. */
  function AvgField(wide: bool, power: bool): Field {
    Field(PMON_CONFIG, if !wide then 0 else if power then 11 else 8, 3)
  }

  /** Power counts are in bits 11 to 13 and the others in bits 8 to 10, or in bits 0 to 2 of the small register. */
  lemma AvgFieldIs(wide: bool, power: bool, regs: map<nat, nat>)
    ensures var config := Peek(regs, 0xD4);
            AvgField(wide, power).Of(regs) ==
            if !wide then config % 8 else if power then config / 0x800 % 8 else config / 0x100 % 8
  {
    hide Get;
    Powers();
    assert Pow2(0) == 1 && Pow2(3) == 8 && Pow2(11) == 8 * Pow2(8);
    GetIs(Peek(regs, 0xD4), AvgField(wide, power).offset, 3);
  }

  function Clamped(word: u16): nat {
    if word < 1 then 1 else if word > SAMPLES_AVG_MAX then SAMPLES_AVG_MAX else word
  }

  // ---------------------------------------------------------------- the chip

  /** A write to one of the two registers, and whether it got through. */
  datatype Access = Access(reg: nat, val: nat, ok: bool)

  predicate Stops(a: Access) {
    a == Access(PMON_CONTROL, 0, true)
  }

  predicate Starts(a: Access) {
    a.reg == PMON_CONTROL && a.val == CONVERT_EN
  }

  /** The configuration is written only just after conversions were stopped, and a stop is followed by a start. */
  ghost predicate Disciplined(log: seq<Access>) {
    && (forall i :: 0 <= i < |log| && log[i].reg == PMON_CONFIG ==> i > 0 && Stops(log[i - 1]))
    && (forall i :: 0 <= i < |log| && Stops(log[i]) ==> exists j :: i < j < |log| && Starts(log[j]))
  }

  lemma DisciplinedAfterRefusal(log: seq<Access>)
    requires Disciplined(log)
    ensures Disciplined(log + [Access(PMON_CONTROL, 0, false)])
  {
    var now := log + [Access(PMON_CONTROL, 0, false)];
    assert forall i :: 0 <= i < |log| ==> now[i] == log[i];
  }

  lemma DisciplinedAfterRound(log: seq<Access>, val: nat, written: bool, restarted: bool)
    requires Disciplined(log)
    ensures Disciplined(log + [Access(PMON_CONTROL, 0, true), Access(PMON_CONFIG, val, written),
                               Access(PMON_CONTROL, CONVERT_EN, restarted)])
  {
    var now := log + [Access(PMON_CONTROL, 0, true), Access(PMON_CONFIG, val, written),
                      Access(PMON_CONTROL, CONVERT_EN, restarted)];
    assert forall i :: 0 <= i < |log| ==> now[i] == log[i];
    assert Starts(now[|log| + 2]);
  }

  datatype Request = Request(power: bool, word: u16)

  /**
   A client and its chip. Transfer `n` fails with `errno(n)` if that is negative; a register whose write fails keeps its
   value.
   */
  class Client {
    const wide: bool               // have_power_sampling
    const errno: nat -> int
    var regs: map<nat, nat>
    var transfers: nat
    var log: seq<Access>

    constructor (wide: bool, errno: nat -> int, config: u16)
      requires wide || config < 256
      ensures Valid() && this.wide == wide && this.errno == errno && regs == map[PMON_CONFIG := config] && log == []
    {
      this.wide, this.errno, regs, transfers, log := wide, errno, map[PMON_CONFIG := config], 0, [];
    }

    ghost predicate Valid()
      reads this
    {
      Config() < (if wide then 0x1_0000 else 0x100) && Disciplined(log)
    }

    function Config(): nat
      reads this`regs
    {
      Peek(regs, PMON_CONFIG)
    }

    function Verdict(n: nat): int {
      if errno(n) < 0 then errno(n) else 0
    }

    /** The first error among transfers `n` to `end`, 0 if there is none. */
    function FirstError(n: nat, end: nat): int
      decreases end - n
    {
      if n >= end then 0 else if Verdict(n) != 0 then Verdict(n) else FirstError(n + 1, end)
    }

    lemma FirstErrors(n: nat)
      ensures FirstError(n, n + 2) == 0 <==> Verdict(n) == 0 && Verdict(n + 1) == 0
      ensures FirstError(n, n + 3) == 0 <==> FirstError(n, n + 2) == 0 && Verdict(n + 2) == 0
      ensures FirstError(n, n + 4) == if FirstError(n, n + 3) != 0 then FirstError(n, n + 3) else Verdict(n + 3)
      ensures FirstError(n, n + 3) == if FirstError(n, n + 2) != 0 then FirstError(n, n + 2) else Verdict(n + 2)
    {
      assert FirstError(n + 3, n + 4) == Verdict(n + 3);
      assert FirstError(n + 2, n + 4) == if Verdict(n + 2) != 0 then Verdict(n + 2) else Verdict(n + 3);
      assert FirstError(n + 2, n + 3) == Verdict(n + 2);
      assert FirstError(n + 1, n + 2) == Verdict(n + 1);
      assert FirstError(n + 1, n + 3) == if Verdict(n + 1) != 0 then Verdict(n + 1) else Verdict(n + 2);
    }

    /** A byte or word write of a register. */
    method SmbusWrite(reg: nat, val: nat) returns (err: int)
      modifies this`regs, this`transfers, this`log
      ensures transfers == old(transfers) + 1 && err == Verdict(old(transfers))
      ensures regs == if err == 0 then old(regs)[reg := val] else old(regs)
      ensures log == old(log) + [Access(reg, val, err == 0)]
    {
      err := Verdict(transfers);
      transfers := transfers + 1;
      log := log + [Access(reg, val, err == 0)];
      if err == 0 {
        regs := regs[reg := val];
      }
    }

    method SmbusRead(reg: nat) returns (err: int, val: nat)
      modifies this`transfers
      ensures transfers == old(transfers) + 1 && err == Verdict(old(transfers)) && val == Peek(regs, reg)
    {
      err, val := Verdict(transfers), Peek(regs, reg);
      transfers := transfers + 1;
    }

    /** PMBUS_VIRT_POWER_SAMPLES, or PMBUS_VIRT_IN_SAMPLES and PMBUS_VIRT_CURR_SAMPLES, of adm1275_read_word_data */
    method ReadSamples(page: nat, power: bool) returns (ret: int)
      requires Valid()
      modifies this`transfers
      ensures if page > 0 || (power && !wide) then ret == -6 && transfers == old(transfers)
              else if Verdict(old(transfers)) < 0 then ret == Verdict(old(transfers))
              else ret == Pow2(if !wide then Config() % 8 else if power then Config() / 0x800 % 8
                               else Config() / 0x100 % 8)
    {
      hide Get;
      AvgFieldIs(wide, power, regs);
      if page > 0 || (power && !wide) {
        return ENXIO;
      }
      var err, val := SmbusRead(PMON_CONFIG);
      if err < 0 {
        return err;
      }
      ret := Get(val, AvgField(wide, power).offset, 3);
      return Pow2(ret);
    }

    /**
     adm1275_write_pmon_config. Conversions are stopped first; if that works they are started again, whatever comes of
     the write between.
     */
    method WritePmonConfig(word: u16) returns (ret: int)
      requires Valid() && (wide || word < 256)
      modifies this`regs, this`transfers, this`log
      ensures Valid()
      ensures var n := old(transfers);
              if Verdict(n) != 0 then && ret == Verdict(n) && regs == old(regs)
                                      && log == old(log) + [Access(0xD3, 0, false)]
              else && ret == (if Verdict(n + 1) != 0 then Verdict(n + 1) else Verdict(n + 2))
                   && Config() == (if Verdict(n + 1) == 0 then word else old(Config()))
                   && Peek(regs, 0xD3) == (if Verdict(n + 2) == 0 then 1 else 0)
                   && (forall r :: r != 0xD3 && r != 0xD4 ==> Peek(regs, r) == Peek(old(regs), r))
                   && log == old(log) + [Access(0xD3, 0, true), Access(0xD4, word, Verdict(n + 1) == 0),
                                         Access(0xD3, 1, Verdict(n + 2) == 0)]
    {
      hide Disciplined;
      ghost var before := log;
      ret := SmbusWrite(PMON_CONTROL, 0);
      if ret != 0 {
        DisciplinedAfterRefusal(before);
        return;
      }
      ret := SmbusWrite(PMON_CONFIG, word);
      ghost var written := ret == 0;
      var ret2 := SmbusWrite(PMON_CONTROL, CONVERT_EN);
      DisciplinedAfterRound(before, word, written, ret2 == 0);
      assert log == before + [Access(PMON_CONTROL, 0, true), Access(PMON_CONFIG, word, written),
                              Access(PMON_CONTROL, CONVERT_EN, ret2 == 0)];
      if ret == 0 {
        ret := ret2;
      }
    }

    /** adm1275_write_samples */
    method WriteAvg(power: bool, word: u16) returns (ret: int, ghost done: bool)
      requires Valid() && (power ==> wide)
      modifies this`regs, this`transfers, this`log
      ensures Valid() && ret == FirstError(old(transfers), old(transfers) + 4)
      ensures done <==> FirstError(old(transfers), old(transfers) + 3) == 0
      ensures Config() == if done then Put(old(Config()), AvgField(wide, power).offset, 3, word) else old(Config())
    {
      hide Disciplined, Put, Pow2;
      done := false;
      FirstErrors(transfers);
      var val: nat;
      ret, val := SmbusRead(PMON_CONFIG);
      if ret < 0 {
        return;
      }
      Powers();
      PutBound(val, AvgField(wide, power).offset, 3, word, if wide then 16 else 8);
      done := FirstError(transfers, transfers + 2) == 0;
      ret := WritePmonConfig(Put(val, AvgField(wide, power).offset, 3, word));
    }

    /**
     The same cases of adm1275_write_word_data: `done` says whether the count got into the register, which it did if the
     call succeeded.
     */
    method WriteSamples(page: nat, power: bool, word: u16) returns (ret: int, ghost done: bool)
      requires Valid()
      modifies this`regs, this`transfers, this`log
      ensures Valid() && (ret == 0 ==> done)
      ensures if page > 0 || (power && !wide) then ret == -6 && !done && regs == old(regs) && log == old(log)
              else && ret == FirstError(old(transfers), old(transfers) + 4)
                   && (done <==> FirstError(old(transfers), old(transfers) + 3) == 0)
      ensures Config() == if done then Put(old(Config()), AvgField(wide, power).offset, 3, Log2(Clamped(word)))
                          else old(Config())
    {
      hide Disciplined, Put;
      if page > 0 || (power && !wide) {
        return ENXIO, false;
      }
      FirstErrors(transfers);
      Log2Is(Clamped(word));
      LogBelow(Clamped(word));
      ret, done := WriteAvg(power, Log2(Clamped(word)));
    }

    /** A run of writes, whichever of them fail: each count reads back as the last request for it that got through. */
    method Run(requests: seq<Request>) returns (rets: seq<int>, ghost done: seq<bool>)
      requires Valid()
      modifies this`regs, this`transfers, this`log
      ensures Valid() && |rets| == |done| == |requests|
      ensures forall i :: 0 <= i < |rets| && rets[i] == 0 ==> done[i]
      ensures forall power: bool :: (power ==> wide) ==>
                Pow2(AvgField(wide, power).Of(regs)) == CountAfter(wide, old(regs), requests, done, power)
      ensures forall lo: nat, width: nat :: OtherBits(wide, lo, width) ==>
                Get(Config(), lo, width) == Get(old(Config()), lo, width)
    {
      hide Disciplined, Put, Get, Pow2, Log2, OtherBits;
      rets, done := [], [];
      for i := 0 to |requests|
        invariant Valid() && |rets| == |done| == i
        invariant forall j :: 0 <= j < i && rets[j] == 0 ==> done[j]
        invariant forall power: bool :: (power ==> wide) ==>
                    Pow2(AvgField(wide, power).Of(regs)) == CountAfter(wide, old(regs), requests[..i], done, power)
        invariant forall lo: nat, width: nat :: OtherBits(wide, lo, width) ==>
                    Get(Config(), lo, width) == Get(old(Config()), lo, width)
      {
        ghost var before, config, done0 := regs, Config(), done;
        var q := requests[i];
        var ret;
        ghost var d;
        ret, d := WriteSamples(0, q.power, q.word);
        rets, done := rets + [ret], done + [d];
        assert requests[..i + 1][..i] == requests[..i] && done[..i] == done0;
        if d {
          OneWrite(wide, config, q);
        }
      }
      assert requests[..|requests|] == requests;
    }
  }

  lemma LogBelow(n: nat)
    requires 0 < n <= SAMPLES_AVG_MAX
    ensures Log2(n) <= 7
  {
    Log2Is(n);
    if Log2(n) > 7 {
      PowerGrows(8, Log2(n));
      Powers();
    }
  }

  // ---------------------------------------------------------------- what reads back

  /** The count a request for `word` asks for. */
  function Samples(word: u16): nat {
    Pow2(Log2(Clamped(word)))
  }

  /** It is the largest power of two not above the request, or the nearest of 1 and 128. */
  lemma SamplesIs(word: u16, n: nat)
    ensures var c := if word == 0 then 1 else if word < 128 then word else 128;
            Samples(word) <= c && (Pow2(n) <= c ==> Pow2(n) <= Samples(word))
  {
    var c := Clamped(word);
    Log2Is(c);
    if n > Log2(c) {
      PowerGrows(Log2(c) + 1, n);
    } else {
      PowerGrows(n, Log2(c));
    }
  }

  /** The count `power` selects after a run: that of its last request that got through, or the one before the run. */
  function CountAfter(wide: bool, regs: map<nat, nat>, requests: seq<Request>, done: seq<bool>, power: bool): nat
    requires |done| == |requests|
  {
    if requests == [] then Pow2(AvgField(wide, power).Of(regs))
    else
      var n := |requests| - 1;
      if done[n] && requests[n].power == power then Samples(requests[n].word)
      else CountAfter(wide, regs, requests[..n], done[..n], power)
  }

  /** Bits of the configuration that hold no count. */
  predicate OtherBits(wide: bool, lo: nat, width: nat) {
    if wide then lo + width <= 8 || 14 <= lo else 3 <= lo
  }

  /** One write stores its own count and disturbs neither the other one nor any other bit. */
  lemma OneWrite(wide: bool, config: nat, q: Request)
    requires q.power ==> wide
    ensures var now := Put(config, AvgField(wide, q.power).offset, 3, Log2(Clamped(q.word)));
            && Pow2(Get(now, AvgField(wide, q.power).offset, 3)) == Samples(q.word)
            && (wide ==> var other := AvgField(wide, !q.power).offset; Get(now, other, 3) == Get(config, other, 3))
            && forall lo: nat, width: nat :: OtherBits(wide, lo, width) ==>
                 Get(now, lo, width) == Get(config, lo, width)
  {
    var at, v := AvgField(wide, q.power).offset, Log2(Clamped(q.word));
    hide Get, Put, Log2;
    GetPut(config, at, 3, v);
    LogBelow(Clamped(q.word));
    assert Pow2(3) == 8;
    Fits(v, 3);
    if wide {
      GetPutOther(config, at, 3, v, AvgField(wide, !q.power).offset, 3);
    }
    forall lo: nat, width: nat | OtherBits(wide, lo, width)
      ensures Get(Put(config, at, 3, v), lo, width) == Get(config, lo, width)
    {
      GetPutOther(config, at, 3, v, lo, width);
    }
  }
}
