/** The SPI master driver (kmods/fboss_iob_spi.c), proved against SpiPlan. */
module SpiMaster {
  import opened Bits
  import opened Options
  import opened SpiController
  import opened SpiPlan
  import Mmio

  class SpiTransfer {
    const txBuf: array?<byte>
    const rxBuf: array?<byte>
    const len: u32

    constructor (txBuf: array?<byte>, rxBuf: array?<byte>, len: u32)
      ensures this.txBuf == txBuf && this.rxBuf == rxBuf && this.len == len
    {
      this.txBuf, this.rxBuf, this.len := txBuf, rxBuf, len;
    }
  }

  /** `int xfer_len = xfer->len` */
  function ToInt(len: u32): int {
    if len < 0x8000_0000 then len else len - 0x1_0000_0000
  }

  /** The bytes a send really covers: a length that turns negative sends nothing. */
  function Covered(data: seq<byte>, len: u32): seq<byte>
    requires len <= |data|
  {
    if ToInt(len) > 0 then data[..len] else []
  }

  /** A send covers the caller's bytes exactly when the length fits a signed 32-bit integer. */
  lemma CoveredIff(data: seq<byte>, len: u32)
    requires len <= |data|
    ensures Covered(data, len) == data[..len] <==> len < 0x8000_0000
  {
    assert |data[..len]| == len;
  }

  // ---------------------------------------------------------------- DESC_CMD values

  /** The word fbiob_spi_send_cmd stores: VALID up, interrupts down, a new length, all else kept. */
  function SendWord(val: u32, xferLen: nat): (r: u32) {
    var field := if xferLen != MAX_XFER_LEN then xferLen else 0;
    Powers();
    PutBound(val, 31, 1, 1, 32);
    PutBound(Put(val, 31, 1, 1), 1, 1, 0, 32);
    PutBound(Put(Put(val, 31, 1, 1), 1, 1, 0), 0, 1, 0, 32);
    PutBound(Put(Put(Put(val, 31, 1, 1), 1, 1, 0), 0, 1, 0), 8, 9, field, 32);
    Put(Put(Put(Put(val, 31, 1, 1), 1, 1, 0), 0, 1, 0), 8, 9, field)
  }

  /** The bits of DESC_CMD. */
  lemma DescBits(reg: u32)
    ensures var c := Decode(reg);
            && c.valid == (reg / 0x8000_0000 == 1) && c.csActive == (reg / 0x4000_0000 % 2 == 1)
            && c.csMode == (reg / 0x2000_0000 % 2 == 1) && c.len == reg / 0x100 % 512
            && c.errInt == (reg / 2 % 2 == 1) && c.doneInt == (reg % 2 == 1)
  {
    hide Get;
    Powers();
    assert Pow2(0) == 1 && Pow2(31) == 0x8000_0000 && Pow2(30) == 0x4000_0000 && Pow2(29) == 0x2000_0000;
    GetIs(reg, 31, 1);
    GetIs(reg, 30, 1);
    GetIs(reg, 29, 1);
    GetIs(reg, 8, 9);
    GetIs(reg, 1, 1);
    GetIs(reg, 0, 1);
  }

  /**
   The 9-bit field at bit 8 holds every length from 1 to 512, VALID at bit 31 is up, the interrupts at bits 0 and 1 are
   down, and the chip-select bits stay.
   */
  lemma SendWordIs(val: u32, n: nat)
    requires 0 < n <= MAX_XFER_LEN
    ensures var word := SendWord(val, n);
            && word / 0x8000_0000 == 1 && word / 0x100 % 512 == n % 512 && word % 2 == word / 2 % 2 == 0
            && word / 0x2000_0000 % 4 == val / 0x2000_0000 % 4
    ensures var c := Decode(SendWord(val, n));
            && c == Decode(val).(valid := true, errInt := false, doneInt := false, len := n % 512)
            && Size(c) == n
  {
    hide Decode, Put, Get;
    SendWordFields(val, n);
    SendWordBits(val, SendWord(val, n), n);
  }

  lemma SendWordBits(val: u32, word: u32, n: nat)
    requires 0 < n <= MAX_XFER_LEN
    requires Decode(word) == Decode(val).(valid := true, errInt := false, doneInt := false, len := n % 512)
    ensures word / 0x8000_0000 == 1 && word / 0x100 % 512 == n % 512 && word % 2 == word / 2 % 2 == 0
    ensures word / 0x2000_0000 % 4 == val / 0x2000_0000 % 4
  {
    hide Decode;
    DescBits(val);
    DescBits(word);
  }

  lemma SendWordFields(val: u32, n: nat)
    requires 0 < n <= MAX_XFER_LEN
    ensures var c := Decode(SendWord(val, n));
            && c == Decode(val).(valid := true, errInt := false, doneInt := false, len := n % 512)
            && Size(c) == n
  {
    hide Decode, Put, Get;
    var field := if n != MAX_XFER_LEN then n else 0;
    var v1 := Put(val, 31, 1, 1);
    var v2 := Put(v1, 1, 1, 0);
    var v3 := Put(v2, 0, 1, 0);
    SetBit(val, 31, 1);
    SetBit(v1, 1, 0);
    SetBit(v2, 0, 0);
    SetLen(v3, field);
  }

  /** Storing one flag of DESC_CMD changes no other field. */
  lemma SetBit(val: nat, bit: nat, x: nat)
    requires bit in {31, 30, 29, 1, 0} && x <= 1
    ensures var c, r := Decode(val), Decode(Put(val, bit, 1, x));
            r == Command(if bit == 31 then x == 1 else c.valid, if bit == 30 then x == 1 else c.csActive,
                         if bit == 29 then x == 1 else c.csMode, c.len,
                         if bit == 1 then x == 1 else c.errInt, if bit == 0 then x == 1 else c.doneInt)
  {
    hide Put, Get;
    Powers();
    GetPut(val, bit, 1, x);
    Fits(x, 1);
    GetPutOther(val, bit, 1, x, 8, 9);
    if bit != 31 { GetPutOther(val, bit, 1, x, 31, 1); }
    if bit != 30 { GetPutOther(val, bit, 1, x, 30, 1); }
    if bit != 29 { GetPutOther(val, bit, 1, x, 29, 1); }
    if bit != 1 { GetPutOther(val, bit, 1, x, 1, 1); }
    if bit != 0 { GetPutOther(val, bit, 1, x, 0, 1); }
  }

  lemma SetLen(val: nat, field: nat)
    requires field < 512
    ensures Decode(Put(val, 8, 9, field)) == Decode(val).(len := field)
  {
    Powers();
    GetPut(val, 8, 9, field);
    Fits(field, 9);
    GetPutOther(val, 8, 9, field, 31, 1);
    GetPutOther(val, 8, 9, field, 30, 1);
    GetPutOther(val, 8, 9, field, 29, 1);
    GetPutOther(val, 8, 9, field, 1, 1);
    GetPutOther(val, 8, 9, field, 0, 1);
  }

  /** `val | CS_MAN_ACT`, or `val & ~CS_MAN_ACT` when the line is to go high. */
  function SelectWord(val: u32, level: bool): u32 {
    Powers();
    PutBound(val, 30, 1, if level then 0 else 1, 32);
    Put(val, 30, 1, if level then 0 else 1)
  }

  lemma SelectWordIs(val: u32, level: bool)
    ensures SelectWord(val, level) / 0x4000_0000 % 2 == if level then 0 else 1
    ensures Decode(SelectWord(val, level)) == Decode(val).(csActive := !level)
  {
    DescBits(SelectWord(val, level));
    SetBit(val, 30, if level then 0 else 1);
  }

  class Bus {
    const dev: Controller

    constructor (dev: Controller)
      ensures this.dev == dev
    {
      this.dev := dev;
    }

    ghost predicate Valid()
      reads this, dev
    {
      dev.Valid()
    }

    /** fbiob_spi_set_cs: moves the chip select and starts nothing. */
    method SetCs(level: bool)
      requires Valid()
      modifies dev`desc, dev`log, dev`epoch, dev`since
      ensures Valid() && Decode(dev.desc) == old(Decode(dev.desc)).(csActive := !level)
      ensures dev.Totals() == old(dev.Totals())
    {
      hide Decode, Described, SelectWord;
      SelectWordIs(dev.desc, level);
      dev.WriteDesc(SelectWord(dev.desc, level));
    }

    /** fbiob_spi_send_cmd */
    method SendCmd(xferLen: nat)
      requires Valid() && 0 < xferLen <= MAX_XFER_LEN
      modifies dev`desc, dev`log, dev`epoch, dev`since
      ensures Valid() && SameSelect(old(Decode(dev.desc)), Decode(dev.desc))
      ensures dev.since == 0 && dev.epoch == old(dev.epoch) + 1
      ensures var c := Decode(dev.desc);
              dev.log == old(dev.log) + [Transfer(c.csActive, c.csMode, dev.mosi[..xferLen])]
    {
      hide Decode, SendWord;
      SendWordIs(dev.desc, xferLen);
      dev.WriteDesc(SendWord(dev.desc, xferLen));
      assert dev.mosi[..][..xferLen] == dev.mosi[..xferLen];
    }

    /** wait_till_xfer_done: at most 31 polls; an error bit beats a done bit of the same read. */
    method WaitTillXferDone() returns (ret: int)
      requires Valid() && dev.since == 0 && dev.status == Status(false, false)
      modifies dev`status, dev`since, dev`statusReads, dev.miso
      ensures ret == Errno(Settle(dev.world, dev.epoch, 0))
      ensures ret in {0, -5, -110}
      ensures var w, c := dev.world, dev.epoch;
              ret == 0 <==>
              exists j :: 0 <= j < 31 && w.status(c, j).done && forall i :: 0 <= i <= j ==> !w.status(c, i).err
      ensures var w, c := dev.world, dev.epoch;
              ret == -5 <==>
              exists j :: 0 <= j < 31 && w.status(c, j).err && forall i :: 0 <= i < j ==> !w.status(c, i).done
      ensures dev.statusReads <= old(dev.statusReads) + 31
      ensures ret == 0 ==> dev.miso[..] == dev.world.miso(dev.epoch)
    {
      hide Decode;
      SettleDone(dev.world, dev.epoch, 0);
      SettleError(dev.world, dev.epoch, 0);
      var retry := 30;
      var more := true;
      while more
        invariant -1 <= retry <= 30 && dev.since == 30 - retry && (more ==> retry >= 0) && (!more ==> retry == -1)
        invariant dev.status == Status(false, false)
        invariant Settle(dev.world, dev.epoch, 0) == Settle(dev.world, dev.epoch, dev.since)
        invariant dev.statusReads == old(dev.statusReads) + dev.since
        decreases retry, more
      {
        var val := dev.ReadStatus();
        if val.err {
          return EIO;
        }
        if val.done {
          return 0;
        }
        more := retry != 0;
        retry := retry - 1;
      }
      return ETIMEDOUT;
    }

    /** One round of either loop: clear the status, start a transfer of `n` bytes, poll it. */
    method Exchange(n: nat) returns (ret: int)
      requires Valid() && 0 < n <= MAX_XFER_LEN
      modifies dev, dev.miso
      ensures Valid() && SameSelect(old(Decode(dev.desc)), Decode(dev.desc))
      ensures var c := Decode(dev.desc);
              Polled(dev.world, old(dev.Totals()), dev.Totals(), Transfer(c.csActive, c.csMode, dev.mosi[..n]))
      ensures ret == Errno(Settle(dev.world, dev.epoch, 0))
      ensures ret == 0 ==> dev.miso[..] == dev.world.miso(dev.epoch)
    {
      hide Decode, Settle;
      dev.WriteStatus(Status(true, true));
      SendCmd(n);
      ret := WaitTillXferDone();
    }

    /** spi_iobuf_write of `n` bytes */
    method LoadMosi(buf: array<byte>, off: nat, n: nat)
      requires Valid() && buf != dev.mosi && off + n <= buf.Length && n <= MAX_XFER_LEN
      modifies dev.mosi
      ensures dev.mosi[..n] == buf[off..off + n]
    {
      hide Decode, Mmio.Overwritten, Mmio.Moved, Mmio.WordCeil;
      Mmio.MovedAll(n);
      ghost var before, data := dev.mosi[..], buf[off..off + n];
      Mmio.BulkWrite(dev.mosi, 0, buf, off, n);
      Mmio.OverwrittenAt(before, 0, data, 0);
      assert dev.mosi[..n] == dev.mosi[..][0..n];
    }

    /** spi_iobuf_read of `n` bytes */
    method TakeMiso(buf: array<byte>, off: nat, n: nat)
      requires Valid() && buf != dev.miso && off + n <= buf.Length && n <= MAX_XFER_LEN
      modifies buf
      ensures buf[..] == old(buf[..off]) + dev.miso[..n] + old(buf[off + n..])
    {
      Mmio.MovedAll(n);
      Mmio.BulkRead(dev.miso, 0, buf, off, n);
      assert dev.miso[0..n] == dev.miso[..n];
    }

    /** fbiob_spi_xfer_tx */
    method XferTx(xfer: SpiTransfer) returns (ret: int)
      requires Valid() && xfer.txBuf != null && xfer.len <= xfer.txBuf.Length
      requires xfer.txBuf != dev.mosi && xfer.txBuf != dev.miso
      modifies dev, dev.mosi, dev.miso
      ensures Valid() && SameSelect(old(Decode(dev.desc)), Decode(dev.desc))
      ensures var c := Decode(dev.desc);
              Executed(dev.world, TxPlan(c.csActive, c.csMode, Covered(xfer.txBuf[..], xfer.len)),
                       old(dev.Totals()), dev.Totals(), ret)
      ensures ret == 0 <==> AllDone(dev.world, old(dev.epoch), (|Covered(xfer.txBuf[..], xfer.len)| + 511) / 512)
    {
      hide Decode, Settle, Underway, Executed, Polled, AllDone;
      var left := ToInt(xfer.len);
      var off := 0;
      ghost var w, s0, c0, data := dev.world, dev.Totals(), Decode(dev.desc), Covered(xfer.txBuf[..], xfer.len);
      ghost var plan := TxPlan(c0.csActive, c0.csMode, data);
      UnderwayStart(w, plan, s0);
      assert data[0..] == data;
      while left > 0
        invariant Valid() && SameSelect(c0, Decode(dev.desc))
        invariant 0 <= off <= |data| && (left > 0 ==> left == |data| - off) && (left <= 0 ==> off == |data|)
        invariant Underway(w, plan, s0, dev.Totals(), TxPlan(c0.csActive, c0.csMode, data[off..]))
      {
        var n := if left < MAX_XFER_LEN then left else MAX_XFER_LEN;
        ghost var s1 := dev.Totals();
        LoadMosi(xfer.txBuf, off, n);
        assert xfer.txBuf[off..off + n] == data[off..off + n];
        ret := Exchange(n);
        TxRound(w, plan, s0, s1, dev.Totals(), c0.csActive, c0.csMode, data, off, n);
        if ret < 0 {
          TxDoneIff(w, c0.csActive, c0.csMode, data, s0, dev.Totals(), ret);
          return;
        }
        left := left - n;
        off := off + n;
      }
      NoDataIff(c0.csActive, c0.csMode, data[off..]);
      UnderwayEnd(w, plan, s0, dev.Totals());
      TxDoneIff(w, c0.csActive, c0.csMode, data, s0, dev.Totals(), 0);
      return 0;
    }

    /** fbiob_spi_xfer_single_rx, after the status is cleared */
    method XferSingleRx(xfer: SpiTransfer, off: nat) returns (ret: int)
      requires Valid() && xfer.rxBuf != null && off < xfer.len <= xfer.rxBuf.Length
      requires xfer.rxBuf != dev.mosi && xfer.rxBuf != dev.miso
      modifies dev, dev.miso, xfer.rxBuf
      ensures Valid() && SameSelect(old(Decode(dev.desc)), Decode(dev.desc))
      ensures var c, n := Decode(dev.desc), Min(MAX_XFER_LEN, xfer.len - off);
              var v := Settle(dev.world, dev.epoch, 0);
              && Polled(dev.world, old(dev.Totals()), dev.Totals(), Transfer(c.csActive, c.csMode, dev.mosi[..n]))
              && ret == (if v == Done then n else Errno(v))
              && (ret >= 0 ==>
                   xfer.rxBuf[..] ==
                   old(xfer.rxBuf[..off]) + dev.world.miso(dev.epoch)[..n] + old(xfer.rxBuf[off + n..]))
      ensures ret < 0 ==> xfer.rxBuf[..] == old(xfer.rxBuf[..])
    {
      hide Decode, Settle, Polled, SameSelect;
      var left := xfer.len - off;
      var request: nat := if left < MAX_XFER_LEN then left else MAX_XFER_LEN;
      ret := Exchange(request);
      if ret < 0 {
        return;
      }
      TakeMiso(xfer.rxBuf, off, request);
      assert dev.miso[..request] == dev.miso[..][..request];
      return request;
    }

    /** fbiob_spi_xfer_rx */
    method XferRx(xfer: SpiTransfer) returns (ret: int)
      requires Valid() && xfer.rxBuf != null && xfer.len <= xfer.rxBuf.Length
      requires xfer.rxBuf != dev.mosi && xfer.rxBuf != dev.miso
      modifies dev, dev.miso, xfer.rxBuf
      ensures Valid() && SameSelect(old(Decode(dev.desc)), Decode(dev.desc))
      ensures var c := Decode(dev.desc);
              Executed(dev.world, RxPlan(c.csActive, c.csMode, dev.mosi[..], xfer.len),
                       old(dev.Totals()), dev.Totals(), ret)
      ensures ret == 0 <==> AllDone(dev.world, old(dev.epoch), (xfer.len + 511) / 512)
      ensures ret == 0 ==>
                xfer.rxBuf[..] == Received(dev.world, old(dev.epoch), xfer.len) + old(xfer.rxBuf[xfer.len..])
      ensures xfer.rxBuf[xfer.len..] == old(xfer.rxBuf[xfer.len..])
    {
      hide Decode, Settle, Reading, Executed, Polled, Received, RxPlan, Described, AllDone;
      var ndata: nat := 0;
      ghost var w, s0, c0, start := dev.world, dev.Totals(), Decode(dev.desc), xfer.rxBuf[..];
      ghost var mosi: Window := dev.mosi[..];
      ReadingStart(w, s0, c0.csActive, c0.csMode, mosi, xfer.len, start);
      while ndata < xfer.len
        invariant Valid() && SameSelect(c0, Decode(dev.desc)) && ndata <= xfer.len
        invariant Reading(w, s0, dev.Totals(), c0.csActive, c0.csMode, mosi, xfer.len, ndata, start, xfer.rxBuf[..])
        invariant xfer.rxBuf[xfer.len..] == start[xfer.len..]
        decreases xfer.len - ndata
      {
        ghost var s1, n, held := dev.Totals(), Min(MAX_XFER_LEN, xfer.len - ndata), xfer.rxBuf[..];
        ret := XferSingleRx(xfer, ndata);
        assert dev.mosi[..n] == mosi[..n];
        ReadingStep(w, s0, s1, dev.Totals(), c0.csActive, c0.csMode, mosi, xfer.len, ndata, n, start, held,
                    xfer.rxBuf[..], ret);
        TailKept(xfer.len, ndata, n, held, w.miso(dev.epoch)[..n], xfer.rxBuf[..], start, ret);
        if ret < 0 {
          RxDoneIff(w, c0.csActive, c0.csMode, mosi, xfer.len, s0, dev.Totals(), ret);
          return;
        }
        ndata := ndata + ret;
      }
      ReadingEnd(w, s0, dev.Totals(), c0.csActive, c0.csMode, mosi, xfer.len, start, xfer.rxBuf[..]);
      RxDoneIff(w, c0.csActive, c0.csMode, mosi, xfer.len, s0, dev.Totals(), 0);
      return 0;
    }

    static lemma TailKept(len: nat, off: nat, n: nat, held: seq<byte>, more: seq<byte>, now: seq<byte>,
                          start: seq<byte>, ret: int)
      requires off + n <= len <= |held| == |start| && |more| == n && held[len..] == start[len..]
      requires now == if ret >= 0 then held[..off] + more + held[off + n..] else held
      ensures now[len..] == start[len..]
    {
    }

    /** What the caller wants sent, and the plans for both directions. */
    ghost function TxBytes(xfer: SpiTransfer): seq<byte>
      requires xfer.txBuf != null && xfer.len <= xfer.txBuf.Length
      reads xfer.txBuf
    {
      Covered(xfer.txBuf[..], xfer.len)
    }

    ghost function TxWanted(xfer: SpiTransfer): Option<seq<Event>>
      requires xfer.txBuf != null ==> xfer.len <= xfer.txBuf.Length
      reads dev`desc, xfer.txBuf
    {
      var c := Decode(dev.desc);
      if xfer.txBuf == null then None else Some(TxPlan(c.csActive, c.csMode, TxBytes(xfer)))
    }

    ghost function RxWanted(xfer: SpiTransfer): Option<seq<Event>>
      requires Valid()
      reads this, dev, dev.mosi
    {
      var c := Decode(dev.desc);
      if xfer.rxBuf == null then None else Some(RxPlan(c.csActive, c.csMode, dev.mosi[..], xfer.len))
    }

    /** fbiob_spi_xfer_one; `unset` is what the status variable held before. */
    method XferOne(xfer: SpiTransfer, unset: int) returns (ret: int, ghost middle: Account, ghost txRet: int)
      requires Valid()
      requires xfer.txBuf != null ==>
                 xfer.len <= xfer.txBuf.Length && xfer.txBuf != dev.mosi && xfer.txBuf != dev.miso
      requires xfer.rxBuf != null ==>
                 xfer.len <= xfer.rxBuf.Length && xfer.rxBuf != dev.mosi && xfer.rxBuf != dev.miso
      modifies dev, dev.mosi, dev.miso, xfer.rxBuf
      ensures Valid() && SameSelect(old(Decode(dev.desc)), Decode(dev.desc))
      ensures Exchanged(dev.world, old(TxWanted(xfer)), RxWanted(xfer), old(dev.Totals()), middle, dev.Totals(),
                        unset, txRet, ret)
      ensures ret == 0 && (xfer.txBuf == null || xfer.rxBuf == null || old(TxBytes(xfer)) == []) ==>
                AllDone(dev.world, old(dev.epoch), old(Chunks(TxWanted(xfer))) + Chunks(RxWanted(xfer)))
      ensures xfer.rxBuf != null ==>
                && (ret == 0 ==> xfer.rxBuf[..xfer.len] == Received(dev.world, middle.epoch, xfer.len))
                && xfer.rxBuf[xfer.len..] == old(xfer.rxBuf[xfer.len..])
    {
      hide Decode, Settle, Executed, Received, RxPlan, TxPlan, AllDone;
      ghost var w, s0, tx := dev.world, dev.Totals(), TxWanted(xfer);
      ghost var plain := xfer.txBuf == null || xfer.rxBuf == null || TxBytes(xfer) == [];
      ret := unset;
      if xfer.txBuf != null {
        ret := XferTx(xfer);
      }
      middle, txRet := dev.Totals(), ret;
      if xfer.rxBuf != null {
        ret := XferRx(xfer);
      }
      if plain {
        if tx.Some? {
          NoDataIff(Decode(dev.desc).csActive, Decode(dev.desc).csMode, old(TxBytes(xfer)));
        }
        ZeroIsDone(w, tx, RxWanted(xfer), s0, middle, dev.Totals(), unset, txRet, ret);
      }
    }
  }

  /**
   For a caller: status 0 of a transfer with send buffer `data` and receive plan `rx` means that everything was done, in
   every world, exactly when there is no receive, no send, or a send that covers no byte.
   */
  lemma StatusHonestIff(csActive: bool, csMode: bool, data: Option<seq<byte>>, rx: Option<seq<Event>>)
    ensures var tx := if data.None? then None else Some(TxPlan(csActive, csMode, data.value));
            (forall w: World, s0: Account, s1: Account, s2: Account, unset: int, txRet: int ::
               Exchanged(w, tx, rx, s0, s1, s2, unset, txRet, 0) ==> AllDone(w, s0.epoch, Chunks(tx) + Chunks(rx)))
            <==> data.None? || rx.None? || data.value == []
  {
    hide Exchanged, AllDone, TxPlan;
    var tx := if data.None? then None else Some(TxPlan(csActive, csMode, data.value));
    ZeroMeansDoneIff(tx, rx);
    if data.Some? {
      NoDataIff(csActive, csMode, data.value);
    }
  }

  ghost predicate SameSelect(a: Command, b: Command) {
    a.csActive == b.csActive && a.csMode == b.csMode && a.valid == b.valid
  }

  // ---------------------------------------------------------------- rounds, seen from the plan

  lemma UnderwayStart(w: World, plan: seq<Event>, s: Account)
    ensures Underway(w, plan, s, s, plan)
  {
    hide Settle;
    assert plan[..0] == [] && plan[0..] == plan;
  }

  lemma TxDoneIff(w: World, csActive: bool, csMode: bool, data: seq<byte>, s0: Account, s1: Account, ret: int)
    requires Executed(w, TxPlan(csActive, csMode, data), s0, s1, ret)
    ensures ret == 0 <==> AllDone(w, s0.epoch, (|data| + 511) / 512)
  {
    hide Executed, AllDone;
    TxPlanIsData(csActive, csMode, data);
    SuccessIff(w, TxPlan(csActive, csMode, data), s0, s1, ret);
  }

  lemma RxDoneIff(w: World, csActive: bool, csMode: bool, mosi: Window, len: nat, s0: Account, s1: Account, ret: int)
    requires Executed(w, RxPlan(csActive, csMode, mosi, len), s0, s1, ret)
    ensures ret == 0 <==> AllDone(w, s0.epoch, (len + 511) / 512)
  {
    hide Executed, AllDone;
    RxPlanIsLength(csActive, csMode, mosi, len);
    SuccessIff(w, RxPlan(csActive, csMode, mosi, len), s0, s1, ret);
  }

  lemma NoDataIff(csActive: bool, csMode: bool, data: seq<byte>)
    ensures TxPlan(csActive, csMode, data) == [] <==> data == []
  {
  }

  lemma TxRound(w: World, plan: seq<Event>, s0: Account, s1: Account, s2: Account,
                csActive: bool, csMode: bool, data: seq<byte>, off: nat, n: nat)
    requires off < |data| && n == Min(MAX_XFER_LEN, |data| - off)
    requires Underway(w, plan, s0, s1, TxPlan(csActive, csMode, data[off..]))
    requires Polled(w, s1, s2, Transfer(csActive, csMode, data[off..off + n]))
    ensures var v := Settle(w, s2.epoch, 0);
            && (v == Done ==> Underway(w, plan, s0, s2, TxPlan(csActive, csMode, data[off + n..])))
            && (v != Done ==> Executed(w, plan, s0, s2, Errno(v)))
  {
    hide Settle, Underway, Executed;
    var rest := TxPlan(csActive, csMode, data[off..]);
    assert data[off..][..n] == data[off..off + n] && data[off..][n..] == data[off + n..];
    UnderwayStep(w, plan, s0, s1, s2, rest);
    assert rest[1..] == TxPlan(csActive, csMode, data[off + n..]);
  }
}
