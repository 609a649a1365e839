/** The I2C master driver (kmods/fboss_iob_i2c.c), proved against I2cPlan. */
module I2cMaster {
  import opened Bits
  import opened I2cController
  import opened I2cPlan
  import opened I2cTransfer
  import Mmio

  datatype State = DONE | ERROR | START | STOP

  class I2cMsg {
    const addr: u16
    const read: bool        // I2C_M_RD
    const recvLen: bool     // I2C_M_RECV_LEN
    const pec: bool         // I2C_CLIENT_PEC
    const buf: array?<byte>
    var len: u16

    constructor (addr: u16, read: bool, recvLen: bool, pec: bool, buf: array?<byte>, len: u16)
      ensures this.addr == addr && this.read == read && this.recvLen == recvLen && this.pec == pec
      ensures this.buf == buf && this.len == len
    {
      this.addr, this.read, this.recvLen, this.pec, this.buf, this.len := addr, read, recvLen, pec, buf, len;
    }
  }

  // ---------------------------------------------------------------- BUF_CTRL values

  /** `(size << shift) & mask`, low page; the 8-bit size field starts at bit `shift`. */
  function SizeCtrl(size: nat, shift: nat): (r: u32)
    requires shift + 8 <= 32
  {
    Powers();
    PutBound(0, shift, 8, size, 32);
    PutBound(Put(0, shift, 8, size), 6, 1, 0, 32);
    Put(Put(0, shift, 8, size), 6, 1, 0)
  }

  /** The controller reads back the size the driver meant, and nothing in the other fields. */
  lemma SizeCtrlIs(size: nat)
    requires size <= 255
    ensures Decode(SizeCtrl(size, 8)) == BufCtrl(false, size, 0)
    ensures Decode(SizeCtrl(size, 16)) == BufCtrl(false, 0, size)
    ensures SizeCtrl(size, 8) / 0x100 % 0x100 == size && SizeCtrl(size, 16) / 0x1_0000 % 0x100 == size
    ensures SizeCtrl(size, 8) / 0x40 % 2 == SizeCtrl(size, 16) / 0x40 % 2 == 0
  {
    BufBits(SizeCtrl(size, 8));
    BufBits(SizeCtrl(size, 16));
    SizeCtrlField(size, 8, 16);
    SizeCtrlField(size, 16, 8);
  }

  lemma SizeCtrlField(size: nat, shift: nat, other: nat)
    requires size <= 255 && (shift, other) in {(8, 16), (16, 8)}
    ensures var r := SizeCtrl(size, shift);
            Get(r, shift, 8) == size && Get(r, other, 8) == 0 && !Test(r, 6)
  {
    Powers();
    var r := Put(0, shift, 8, size);
    GetPut(0, shift, 8, size);
    Fits(size, 8);
    GetPutOther(0, shift, 8, size, other, 8);
    ZeroFields(other, 8);
    GetPutOther(r, 6, 1, 0, shift, 8);
    GetPutOther(r, 6, 1, 0, other, 8);
    GetPut(r, 6, 1, 0);
    ZeroFields(0, 1);
  }

  /** `reg | PAGE_SEL` */
  function HighPageOf(reg: u32): u32 {
    Powers();
    PutBound(reg, 6, 1, 1, 32);
    Put(reg, 6, 1, 1)
  }

  lemma HighPageIs(reg: u32)
    ensures HighPageOf(reg) / 0x40 % 2 == 1 && Decode(HighPageOf(reg)) == Decode(reg).(page := true)
  {
    BufBits(HighPageOf(reg));
    Powers();
    GetPut(reg, 6, 1, 1);
    Fits(1, 1);
    GetPutOther(reg, 6, 1, 1, 8, 8);
    GetPutOther(reg, 6, 1, 1, 16, 8);
  }

  method Memcpy(dst: array<byte>, d: nat, src: array<byte>, s: nat, n: nat)
    requires dst != src && d + n <= dst.Length && s + n <= src.Length
    modifies dst
    ensures dst[..] == old(dst[..d]) + src[s..s + n] + old(dst[d + n..])
  {
    forall i | 0 <= i < n {
      dst[d + i] := src[s + i];
    }
  }

  class Bus {
    const dev: Controller
    var state: State

    constructor (dev: Controller)
      ensures this.dev == dev
    {
      this.dev, state := dev, START;
    }

    ghost predicate Valid()
      reads this, dev
    {
      dev.Valid()
    }

    // -------------------------------------------------------------- polling

    method Stop()
      requires Valid()
      modifies dev`log, dev`intr, dev`epoch, dev`since, dev`busyReads
      ensures dev.log == old(dev.log) + [StopOnly]
      ensures dev.epoch == old(dev.epoch) && dev.busyReads == old(dev.busyReads) + 1
    {
      var val := dev.ReadCmdSts();
      dev.WriteCmdSts(val.(stop := true));
    }

    /** The polling of wait_till_xfer_done: the verdict of the world. */
    method Poll(read: bool) returns (ret: int)
      requires Valid() && dev.since == 0 && dev.intr == QUIET
      modifies this`state, dev`log, dev`intr, dev`epoch, dev`since, dev`statusReads, dev`busyReads, dev.rx
      ensures var v := Settle(dev.world, old(dev.epoch), read, 0);
              && (v == Done ==> ret == 0 && state == DONE && dev.log == old(dev.log))
              && (v == Nack ==> ret == EIO && state == ERROR && dev.log == old(dev.log) + [StopOnly])
              && (v == Late ==> ret == ETIMEDOUT && state == STOP && dev.log == old(dev.log))
              && (v == Done && read ==> dev.rx[..] == dev.world.reply(dev.epoch))
              && dev.busyReads == old(dev.busyReads) + if v == Nack then 1 else 0
      ensures dev.epoch == old(dev.epoch) && dev.statusReads <= old(dev.statusReads) + POLLS
    {
      var retry := 350;
      var more := true;
      while more
        invariant -1 <= retry <= 350 && dev.since == 350 - retry && (more ==> retry >= 0) && (!more ==> retry == -1)
        invariant !dev.intr.nack && !(if read then dev.intr.rxDone else dev.intr.txDone)
        invariant Settle(dev.world, dev.epoch, read, 0) == Settle(dev.world, dev.epoch, read, dev.since)
        invariant dev.epoch == old(dev.epoch) && dev.log == old(dev.log)
        invariant dev.statusReads == old(dev.statusReads) + dev.since && dev.busyReads == old(dev.busyReads)
        decreases retry, more
      {
        var val := dev.ReadIntrSts();
        if val.nack {
          state := ERROR;
          Stop();
          return EIO;
        }
        if read {
          if val.rxDone {
            state := DONE;
            return 0;
          }
        } else if val.txDone {
          state := DONE;
          return 0;
        }
        more := retry != 0;
        retry := retry - 1;
      }
      state := STOP;
      return ETIMEDOUT;
    }

    /**
     wait_till_xfer_done for the command just started: at most 351 polls. A write waits for TX_DONE, a read for RX_DONE;
     a NACK beats either of the same read.
     */
    method WaitTillXferDone(read: bool) returns (ret: int)
      requires Valid() && dev.since == 0 && dev.intr == QUIET
      modifies this`state, dev`log, dev`intr, dev`epoch, dev`since, dev`statusReads, dev`busyReads, dev.rx
      ensures var w, c := dev.world, dev.epoch;
              !read ==>
                (ret == 0 <==>
                 exists j :: 0 <= j < 351 && w.lines(c, j).txDone && forall i :: 0 <= i <= j ==> !w.lines(c, i).nack)
      ensures var w, c := dev.world, dev.epoch;
              read ==>
                (ret == 0 <==>
                 exists j :: 0 <= j < 351 && w.lines(c, j).rxDone && forall i :: 0 <= i <= j ==> !w.lines(c, i).nack)
      ensures var w, c := dev.world, dev.epoch;
              !read ==>
                (ret == -5 <==>
                 exists j :: 0 <= j < 351 && w.lines(c, j).nack && forall i :: 0 <= i < j ==> !w.lines(c, i).txDone)
      ensures var w, c := dev.world, dev.epoch;
              read ==>
                (ret == -5 <==>
                 exists j :: 0 <= j < 351 && w.lines(c, j).nack && forall i :: 0 <= i < j ==> !w.lines(c, i).rxDone)
      ensures ret in {0, -5, -110} && ret == Errno(Settle(dev.world, dev.epoch, read, 0))
      ensures state == if ret == 0 then DONE else if ret == -5 then ERROR else STOP
      ensures dev.log == old(dev.log) + if ret == -5 then [StopOnly] else []
      ensures ret == 0 && read ==> dev.rx[..] == dev.world.reply(dev.epoch)
      ensures dev.busyReads == old(dev.busyReads) + if ret == -5 then 1 else 0
      ensures dev.epoch == old(dev.epoch) && dev.statusReads <= old(dev.statusReads) + 351
    {
      hide Settle;
      ret := Poll(read);
      SettleDone(dev.world, dev.epoch, read, 0);
      SettleNack(dev.world, dev.epoch, read, 0);
    }

    // -------------------------------------------------------------- sending

    /** Store a size in BUF_CTRL, with the low page selected. */
    method SelectSize(size: nat, shift: nat) returns (reg: u32)
      requires size <= 255 && (shift == 8 || shift == 16)
      modifies dev`ctl
      ensures dev.ctl == BufCtrl(false, if shift == 8 then size else 0, if shift == 16 then size else 0)
      ensures Decode(reg) == dev.ctl
    {
      SizeCtrlIs(size);
      reg := SizeCtrl(size, shift);
      dev.WriteBufCtrl(reg);
    }

    method SelectHighPage(reg: u32)
      requires Decode(reg) == dev.ctl
      modifies dev`ctl
      ensures dev.ctl == old(dev.ctl).(page := true)
    {
      HighPageIs(reg);
      dev.WriteBufCtrl(HighPageOf(reg));
    }

    /**
     fbiob_i2c_fill_tx_buf: address and payload end up contiguous in the transmit buffer; what fits in the low page
     leaves the high one as it was, padding included.
     */
    method FillTxBuf(addr: byte, buf: array<byte>, off: nat, size: nat) returns (ret: int)
      requires Valid() && buf != dev.tx && off + size <= buf.Length
      modifies dev`ctl, dev.tx
      ensures size > TX_PAYLOAD_MAX ==> ret == EINVAL && dev.ctl == old(dev.ctl) && dev.tx[..] == old(dev.tx[..])
      ensures size <= TX_PAYLOAD_MAX ==>
                && ret == 0
                && dev.ctl == BufCtrl(size > 127, size, 0)
                && dev.tx[..size + 1] == [addr] + buf[off..off + size]
                && (size < IOBUF_SIZE ==> dev.tx[IOBUF_SIZE..] == old(dev.tx[IOBUF_SIZE..]))
    {
      if size > TX_PAYLOAD_MAX {
        return EINVAL;
      }
      hide Decode;
      ghost var data := buf[off..off + size];
      var reg := SelectSize(size, 8);
      var processed := Min(size, IOBUF_SIZE - 1);
      FillLowPage(addr, buf, off, processed);
      var left := size - processed;
      if left > 0 {
        assert buf[off..off + size] == data;
        Halves(buf, off, size);
        SelectHighPage(reg);
        FillHighPage(buf, off + processed, left);
        TwoPages(dev.tx[..], addr, data);
        assert dev.tx[..size + 1] == dev.tx[..][..size + 1];
      }
      return 0;
    }

    static lemma Halves(buf: array<byte>, off: nat, size: nat)
      requires off + size <= buf.Length && size >= 127
      ensures buf[off..off + size][..127] == buf[off..off + 127]
      ensures buf[off..off + size][127..] == buf[off + 127..off + size]
    {
    }

    static lemma TwoPages(tx: seq<byte>, addr: byte, data: seq<byte>)
      requires 127 < |data| < |tx|
      requires tx[..128] == [addr] + data[..127] && tx[128..|data| + 1] == data[127..]
      ensures tx[..|data| + 1] == [addr] + data
    {
      assert tx[..|data| + 1] == tx[..128] + tx[128..|data| + 1];
    }

    method FillLowPage(addr: byte, buf: array<byte>, off: nat, processed: nat)
      requires Valid() && buf != dev.tx && off + processed <= buf.Length && processed < IOBUF_SIZE && !dev.ctl.page
      modifies dev.tx
      ensures dev.tx[..processed + 1] == [addr] + buf[off..off + processed]
      ensures dev.tx[IOBUF_SIZE..] == old(dev.tx[IOBUF_SIZE..])
    {
      var ioBuf := new byte[IOBUF_SIZE];
      ioBuf[0] := addr;
      Memcpy(ioBuf, 1, buf, off, processed);
      assert ioBuf[..processed + 1] == [addr] + buf[off..off + processed];
      SendPage(ioBuf, processed + 1);
    }

    method FillHighPage(buf: array<byte>, off: nat, left: nat)
      requires Valid() && buf != dev.tx && off + left <= buf.Length && left <= IOBUF_SIZE && dev.ctl.page
      modifies dev.tx
      ensures dev.tx[..128] == old(dev.tx[..128]) && dev.tx[128..128 + left] == buf[off..off + left]
    {
      var ioBuf := new byte[IOBUF_SIZE];
      Memcpy(ioBuf, 0, buf, off, left);
      assert ioBuf[..left] == buf[off..off + left];
      SendPage(ioBuf, left);
    }

    /** i2c_iobuf_write: a padded copy that stays inside the selected page. */
    method SendPage(ioBuf: array<byte>, n: nat)
      requires Valid() && ioBuf.Length == IOBUF_SIZE && ioBuf != dev.tx && n <= IOBUF_SIZE
      modifies dev.tx
      ensures var b := dev.WindowBase();
              && dev.tx[b..b + n] == ioBuf[..n]
              && (forall k :: 0 <= k < 256 && (k < b || b + 128 <= k) ==> dev.tx[k] == old(dev.tx[k]))
    {
      Mmio.MovedAll(n);
      var b := dev.WindowBase();
      ghost var before := dev.tx[..];
      Mmio.BulkWrite(dev.tx, b, ioBuf, 0, n);
      assert ioBuf[0..n] == ioBuf[..n];
      PageSent(before, b, ioBuf[..n], dev.tx[..]);
      assert dev.tx[b..b + n] == dev.tx[..][b..b + n];
      assert forall k :: 0 <= k < 256 ==> dev.tx[k] == dev.tx[..][k];
    }

    static lemma PageSent(before: seq<byte>, b: nat, data: seq<byte>, now: seq<byte>)
      requires |before| == 256 && (b == 0 || b == 128) && |data| <= 128
      requires now == Mmio.Overwritten(before, b, data)
      ensures now[b..b + |data|] == data
      ensures forall k :: 0 <= k < 256 && (k < b || b + 128 <= k) ==> now[k] == before[k]
    {
      hide Mmio.Overwritten;
      Mmio.OverwrittenAt(before, b, data, 0);
      forall k | 0 <= k < 256
        ensures k < b || b + 128 <= k ==> now[k] == before[k]
      {
        Mmio.OverwrittenAt(before, b, data, k);
      }
    }

    static lemma SameSlice(buf: array<byte>, data: seq<byte>, off: nat, n: nat)
      requires off + n <= |data| <= buf.Length && buf[..|data|] == data
      ensures buf[off..off + n] == data[off..off + n]
    {
      forall j | off <= j < off + n
        ensures buf[j] == data[j]
      {
        assert buf[..|data|][j] == data[j];
      }
    }

    /** One round of the write loop: load the chunk, start it, poll it. */
    method SendChunk(addr: byte, buf: array<byte>, off: nat, n: nat, isLast: bool) returns (ret: int)
      requires Valid() && buf != dev.tx && buf != dev.rx && off + n <= buf.Length && n <= TX_PAYLOAD_MAX
      modifies this`state, dev, dev.tx, dev.rx
      ensures Valid()
      ensures Polled(dev.world, old(dev.Totals()), dev.Totals(), WriteCommand(addr, buf[off..off + n], isLast), false)
      ensures ret == Errno(Settle(dev.world, old(dev.epoch) + 1, false, 0))
      ensures ret == 0 <==> TxDone(dev.world, old(dev.epoch) + 1)
      ensures dev.tx[0] == addr && dev.ctl.page == (n > 127)
    {
      hide Settle;
      ret := FillTxBuf(addr, buf, off, n);
      assert dev.tx[..n + 1][0] == addr;
      dev.WriteCmdSts(CmdSts(true, true, false, false, isLast, false));
      ret := WaitTillXferDone(false);
    }

    /** fbiob_i2c_write */
    method WriteMsg(msg: I2cMsg, isLast: bool) returns (ret: int)
      requires Valid() && msg.addr <= 0x7F && msg.buf != null && msg.len <= msg.buf.Length
      requires msg.buf != dev.tx && msg.buf != dev.rx
      modifies this`state, dev, dev.tx, dev.rx
      ensures Valid()
      ensures Executed(dev.world, WritePlan(2 * msg.addr, msg.buf[..msg.len], isLast),
                       old(dev.Totals()), dev.Totals(), ret)
      ensures ret == 0 <==> AllTxDone(dev.world, old(dev.epoch), if msg.len == 0 then 1 else (msg.len + 254) / 255)
      ensures ret == 0 ==>
                && dev.tx[0] == 2 * msg.addr
                && dev.ctl.page == (LastChunk(msg.len, TX_PAYLOAD_MAX) > IOBUF_SIZE - 1)
      ensures ret != 0 ==>
                var sent := Min(msg.len, TX_PAYLOAD_MAX * (dev.epoch - old(dev.epoch)));
                && dev.tx[0] == 2 * msg.addr && sent >= 0
                && dev.ctl.page == (LastChunk(sent, TX_PAYLOAD_MAX) > IOBUF_SIZE - 1)
    {
      hide Writing, Executed, Polled, LastChunk, Settle, WritePlan, TxDone, AllTxDone, RunPlan;
      var addr: byte := 2 * msg.addr;
      var buf := msg.buf;
      var left: int := msg.len;
      var off := 0;
      ghost var w, s0, data := dev.world, dev.Totals(), buf[..msg.len];
      WritingStart(w, s0, addr, data, isLast);
      ret := 0;
      var more := true;
      while more
        invariant Valid() && 0 <= off && left == |data| - off >= 0 && ret == 0
        invariant more ==> Writing(w, s0, dev.Totals(), addr, data, isLast, off)
        invariant !more ==>
                    && Executed(w, WritePlan(addr, data, isLast), s0, dev.Totals(), 0)
                    && dev.tx[0] == addr && dev.ctl.page == (LastChunk(|data|, TX_PAYLOAD_MAX) > IOBUF_SIZE - 1)
        decreases left, more
      {
        var n := Min(TX_PAYLOAD_MAX, left);
        ghost var s1 := dev.Totals();
        SameSlice(buf, data, off, n);
        ret := SendChunk(addr, buf, off, n, isLast);
        WritingStep(w, s0, s1, dev.Totals(), addr, data, isLast, off, n, ret);
        if ret != 0 {
          WriteDone(w, addr, data, isLast, s0, dev.Totals(), ret);
          return;
        }
        off := off + n;
        left := left - n;
        more := left > 0;
      }
      WriteDone(w, addr, data, isLast, s0, dev.Totals(), 0);
    }

    // -------------------------------------------------------------- receiving

    /** The address of a read goes to whatever page is selected. */
    method LoadReadAddress(addr: byte)
      requires Valid()
      modifies dev.tx
      ensures dev.tx[0] == if dev.ctl.page then old(dev.tx[0]) else addr
    {
      Mmio.Writel(dev.tx, dev.WindowBase(), addr);
    }

    /** Start a receive command for `n` bytes and poll it. */
    method StartReceive(n: nat, last: bool) returns (ret: int)
      requires Valid() && 0 < n <= RX_PAYLOAD_MAX
      modifies this`state, dev, dev.rx
      ensures Valid()
      ensures Polled(dev.world, old(dev.Totals()), dev.Totals(), ReadCommand(dev.tx[0], n, last), true)
      ensures ret == Errno(Settle(dev.world, old(dev.epoch) + 1, true, 0)) && ret != EINVAL
      ensures ret == 0 ==> dev.rx[..] == dev.world.reply(dev.epoch)
      ensures ret == 0 <==> RxDone(dev.world, old(dev.epoch) + 1)
      ensures !dev.ctl.page
    {
      hide Settle, Decode;
      var _ := SelectSize(n - 1, 16);
      ghost var sent := dev.tx[..1];
      assert sent == [dev.tx[0]];
      dev.WriteCmdSts(CmdSts(true, true, true, last, last, false));
      assert dev.log == old(dev.log) + [ReadCommand(dev.tx[0], n, last)];
      ret := WaitTillXferDone(true);
    }

    /** i2c_iobuf_read into a local buffer, then memcpy to the caller. */
    method TakePage(buf: array<byte>, off: nat, n: nat)
      requires Valid() && buf != dev.rx && off + n <= buf.Length && n <= IOBUF_SIZE
      modifies buf
      ensures var b := dev.WindowBase();
              buf[..] == old(buf[..off]) + dev.rx[b..b + n] + old(buf[off + n..])
    {
      Mmio.MovedAll(n);
      var b := dev.WindowBase();
      var recvBuf := new byte[IOBUF_SIZE];
      Mmio.BulkRead(dev.rx, b, recvBuf, 0, n);
      assert recvBuf[0..n] == dev.rx[b..b + n];
      Memcpy(buf, off, recvBuf, 0, n);
    }

    /** Copy a received chunk out, low page first. */
    method FetchChunk(buf: array<byte>, off: nat, n: nat)
      requires Valid() && buf != dev.rx && buf != dev.tx && !dev.ctl.page
      requires off + n <= buf.Length && n <= RX_PAYLOAD_MAX
      modifies dev`ctl, buf
      ensures buf[..] == old(buf[..off]) + dev.rx[..n] + old(buf[off + n..])
      ensures dev.ctl.page == (n > IOBUF_SIZE)
    {
      if n > IOBUF_SIZE {
        TakePage(buf, off, IOBUF_SIZE);
        var reg := dev.ReadBufCtrl();
        SelectHighPage(reg);
        ghost var half := buf[..];
        TakePage(buf, off + IOBUF_SIZE, n - IOBUF_SIZE);
        assert half[..off + IOBUF_SIZE] == old(buf[..off]) + dev.rx[..128];
        assert half[off + n..] == old(buf[off + n..]);
        assert dev.rx[..n] == dev.rx[..128] + dev.rx[128..n];
      } else {
        TakePage(buf, off, n);
      }
    }

    /** One round of the receive loop: start a command for `n` bytes, poll it, copy them out. */
    method ReceiveChunk(buf: array<byte>, off: nat, n: nat, last: bool) returns (ret: int)
      requires Valid() && buf != dev.rx && buf != dev.tx && off + n <= buf.Length && 0 < n <= RX_PAYLOAD_MAX
      modifies this`state, dev, dev.rx, buf
      ensures Valid() && dev.tx[0] == old(dev.tx[0])
      ensures Polled(dev.world, old(dev.Totals()), dev.Totals(), ReadCommand(dev.tx[0], n, last), true)
      ensures ret == Errno(Settle(dev.world, old(dev.epoch) + 1, true, 0))
      ensures dev.ctl.page == (ret == 0 && n > IOBUF_SIZE)
      ensures buf[..] == if ret == 0 then old(buf[..off]) + dev.world.reply(dev.epoch)[..n] + old(buf[off + n..])
                         else old(buf[..])
    {
      hide Settle, Polled;
      ret := StartReceive(n, last);
      if ret != 0 {
        return;
      }
      assert dev.rx[..n] == dev.rx[..][..n];
      FetchChunk(buf, off, n);
    }

    /** The block-read tail: check the count byte, reset the message length, copy that much. */
    method FetchBlock(msg: I2cMsg, stack: seq<byte>) returns (ret: int)
      requires Valid() && !dev.ctl.page && |stack| == IOBUF_SIZE
      requires msg.buf != null && 34 <= msg.buf.Length && msg.buf != dev.rx && msg.buf != dev.tx
      modifies msg`len, msg.buf
      ensures dev.rx[0] > BLOCK_MAX ==> ret == EINVAL && msg.len == old(msg.len) && msg.buf[..] == old(msg.buf[..])
      ensures dev.rx[0] <= BLOCK_MAX ==>
                && ret == 0
                && msg.len == BlockLen(dev.rx[..], msg.pec)
                && msg.buf[..] == BlockDelivered(dev.rx[..], stack, msg.len) + old(msg.buf[..])[msg.len..]
    {
      var recvBuf := new byte[IOBUF_SIZE](i requires 0 <= i < IOBUF_SIZE => stack[i]);
      assert recvBuf[..] == stack;
      Mmio.MovedAll(BLOCK_MAX);
      Mmio.BulkRead(dev.rx, 0, recvBuf, 0, BLOCK_MAX);
      assert recvBuf[..] == dev.rx[..][..BLOCK_MAX] + stack[BLOCK_MAX..];
      assert recvBuf[0] == dev.rx[0];
      if recvBuf[0] > BLOCK_MAX {
        return EINVAL;
      }
      msg.len := recvBuf[0] + if msg.pec then 2 else 1;
      Memcpy(msg.buf, 0, recvBuf, 0, msg.len);
      assert recvBuf[0..msg.len] == BlockDelivered(dev.rx[..], stack, msg.len);
      return 0;
    }

    /** The receive loop of a plain read. */
    method ReadPlain(buf: array<byte>, len: nat) returns (ret: int)
      requires Valid() && buf != dev.rx && buf != dev.tx && len <= buf.Length
      modifies this`state, dev, dev.rx, buf
      ensures Valid()
      ensures Executed(dev.world, ReadPlan(dev.tx[0], len, false), old(dev.Totals()), dev.Totals(), ret)
      ensures ret == 0 <==> AllRxDone(dev.world, old(dev.epoch), (len + 255) / 256)
      ensures ret == 0 ==>
                && buf[..] == Received(dev.world, old(dev.epoch), len) + old(buf[len..])
                && dev.ctl.page == if len == 0 then old(dev.ctl.page) else LastChunk(len, RX_PAYLOAD_MAX) > IOBUF_SIZE
      ensures buf[len..] == old(buf[len..])
      ensures ret != 0 ==>
                var n := RX_PAYLOAD_MAX * (dev.epoch - old(dev.epoch) - 1);
                0 <= n < len && !dev.ctl.page && buf[..] == Received(dev.world, old(dev.epoch), n) + old(buf[..])[n..]
    {
      hide Reading, Executed, Polled, LastChunk, Settle, ReadPlan, Received, AllRxDone, RunPlan;
      var rxLen, off := len, 0;
      ghost var w, s0, sent, start := dev.world, dev.Totals(), dev.tx[0], buf[..];
      ReadingStart(w, s0, sent, len, start);
      ret := 0;
      while rxLen > 0
        invariant Valid() && ret == 0 && dev.tx[0] == sent && 0 <= rxLen <= len && off == len - rxLen
        invariant Reading(w, s0, dev.Totals(), sent, len, off, start, buf[..])
        invariant rxLen == 0 ==>
                    dev.ctl.page == if len == 0 then old(dev.ctl.page) else LastChunk(len, RX_PAYLOAD_MAX) > IOBUF_SIZE
      {
        var n := Min(RX_PAYLOAD_MAX, rxLen);
        ghost var s1, held := dev.Totals(), buf[..];
        ret := ReceiveChunk(buf, off, n, n == rxLen);
        ReadingStep(w, s0, s1, dev.Totals(), sent, len, off, n, start, held, buf[..], ret);
        if ret != 0 {
          ReadDone(w, sent, len, false, s0, dev.Totals(), ret);
          return;
        }
        rxLen := rxLen - n;
        off := off + n;
      }
      ReadingEnd(w, s0, dev.Totals(), sent, len, start, buf[..]);
      ReadDone(w, sent, len, false, s0, dev.Totals(), 0);
    }

    /** The receive loop of a block read: 32 bytes are one chunk, so it runs once. */
    method ReadBlock(msg: I2cMsg, stack: seq<byte>) returns (ret: int)
      requires Valid() && |stack| == IOBUF_SIZE
      requires msg.buf != null && 34 <= msg.buf.Length && msg.buf != dev.rx && msg.buf != dev.tx
      modifies this`state, dev, dev.rx, msg`len, msg.buf
      ensures Valid()
      ensures Executed(dev.world, ReadPlan(dev.tx[0], BLOCK_MAX, true), old(dev.Totals()), dev.Totals(), ret)
      ensures ret in {0, -22} <==> RxDone(dev.world, old(dev.epoch) + 1)
      ensures ret in {0, -22} ==> (ret == 0 <==> dev.world.reply(old(dev.epoch) + 1)[0] <= 32)
      ensures ret == 0 ==>
                var answer := dev.world.reply(old(dev.epoch) + 1);
                && msg.len == BlockLen(answer, msg.pec) == answer[0] + (if msg.pec then 2 else 1)
                && msg.buf[..] == BlockDelivered(answer, stack, msg.len) + old(msg.buf[..])[msg.len..]
      ensures ret != 0 ==> msg.len == old(msg.len) && msg.buf[..] == old(msg.buf[..])
      ensures !dev.ctl.page
    {
      hide Underway, Executed, Polled, Settle, BlockDelivered, RxDone;
      ghost var w, s0, sent := dev.world, dev.Totals(), dev.tx[0];
      ghost var plan := ReadPlan(sent, BLOCK_MAX, true);
      UnderwayStart(w, plan, s0);
      ret := StartReceive(BLOCK_MAX, true);
      PolledOne(w, s0, dev.Totals(), ReadCommand(sent, BLOCK_MAX, true), true);
      ReadRound(w, plan, s0, s0, dev.Totals(), sent, BLOCK_MAX, BLOCK_MAX, true);
      if ret != 0 {
        return;
      }
      assert dev.rx[..][0] == dev.rx[0];
      ret := FetchBlock(msg, stack);
      if ret == 0 {
        UnderwayEnd(w, plan, s0, dev.Totals());
      }
    }

    ghost predicate Readable(msg: I2cMsg)
      reads msg`len
    {
      && msg.buf != null && msg.buf != dev.rx && msg.buf != dev.tx
      && msg.len <= msg.buf.Length && (msg.recvLen ==> 34 <= msg.buf.Length)
    }

    /** fbiob_i2c_read; `stack` is what the local buffer held before. */
    method ReadMsg(msg: I2cMsg, stack: seq<byte>) returns (ret: int)
      requires Valid() && msg.addr <= 0x7F && Readable(msg) && |stack| == IOBUF_SIZE
      modifies this`state, dev, dev.tx, dev.rx, msg`len, msg.buf
      ensures Valid()
      ensures dev.tx[0] == if old(dev.ctl.page) then old(dev.tx[0]) else 2 * msg.addr + 1
      ensures var len := if msg.recvLen then BLOCK_MAX else old(msg.len);
              && Executed(dev.world, ReadPlan(dev.tx[0], len, msg.recvLen), old(dev.Totals()), dev.Totals(), ret)
              && (ret == 0 ==>
                   dev.ctl.page == if len == 0 then old(dev.ctl.page) else LastChunk(len, RX_PAYLOAD_MAX) > IOBUF_SIZE)
      ensures !msg.recvLen ==>
                && msg.len == old(msg.len) && msg.buf[msg.len..] == old(msg.buf[..])[msg.len..]
                && (ret == 0 ==>
                     msg.buf[..] == Received(dev.world, old(dev.epoch), msg.len) + old(msg.buf[..])[msg.len..])
                && (ret != 0 ==>
                     var n := RX_PAYLOAD_MAX * (dev.epoch - old(dev.epoch) - 1);
                     0 <= n < msg.len && msg.buf[..] == Received(dev.world, old(dev.epoch), n) + old(msg.buf[..])[n..])
      ensures ret != 0 ==> !dev.ctl.page
      ensures msg.recvLen && ret == 0 ==>
                var answer := dev.world.reply(old(dev.epoch) + 1);
                && msg.len == BlockLen(answer, msg.pec) <= 34
                && msg.buf[..] == BlockDelivered(answer, stack, msg.len) + old(msg.buf[..])[msg.len..]
      ensures msg.recvLen && ret != 0 ==> msg.len == old(msg.len) && msg.buf[..] == old(msg.buf[..])
    {
      hide Executed, Received, BlockDelivered, BlockLen, LastChunk;
      LoadReadAddress(2 * msg.addr + 1);
      if msg.recvLen {
        ret := ReadBlock(msg, stack);
        LastChunkIs(BLOCK_MAX, RX_PAYLOAD_MAX, 0) by { NoChunk(RX_PAYLOAD_MAX); }
      } else {
        ret := ReadPlain(msg.buf, msg.len);
      }
    }

    // -------------------------------------------------------------- the transfer

    /** wait_bus_for_free */
    method WaitBusForFree() returns (busy: bool)
      modifies dev`busyReads
      ensures busy == !FreeWithin(dev.world, old(dev.busyReads))
      ensures dev.busyReads <= old(dev.busyReads) + POLLS && (busy ==> dev.busyReads == old(dev.busyReads) + POLLS)
    {
      ghost var b := dev.busyReads;
      var retry := 350;
      var more := true;
      while more
        invariant -1 <= retry <= 350 && dev.busyReads == b + 350 - retry
        invariant if more then retry >= 0 else retry == -1
        invariant forall j :: b <= j < dev.busyReads ==> dev.world.busy(j)
        decreases retry, more
      {
        var val := dev.ReadCmdSts();
        if !val.busy {
          return false;
        }
        more := retry != 0;
        retry := retry - 1;
      }
      return true;
    }

    /** fbiob_i2c_reset: the enable bit goes down and up again. */
    method Reset()
      modifies dev`funcCtrl
      ensures dev.funcCtrl % 2 == 1 && dev.funcCtrl / 2 == old(dev.funcCtrl) / 2
    {
      var val: int := dev.funcCtrl;
      val := val - val % 2;
      dev.funcCtrl := val;
      dev.funcCtrl := val + 1;
    }

    /** One round of the message loop. */
    method TransferMsg(msg: I2cMsg, isLast: bool, stack: seq<byte>) returns (ret: int)
      requires Valid() && msg.addr <= 0x7F && Readable(msg) && |stack| == IOBUF_SIZE
      modifies this`state, dev, dev.tx, dev.rx, msg`len, msg.buf
      ensures Valid()
      ensures Attempted(dev.world, View(msg, old(Hold(msg))), isLast, old(Hold(msg)), Hold(msg),
                        old(Pages(dev.ctl.page, dev.tx[0])), Pages(dev.ctl.page, dev.tx[0]),
                        old(dev.Totals()), dev.Totals(), stack, ret)
      ensures !msg.read ==> Hold(msg) == old(Hold(msg))
    {
      hide Executed, Received, BlockDelivered, BlockLen, LastChunk, Attempted, WritePlan, ReadPlan;
      ghost var m, h, p, s0 := View(msg, Hold(msg)), Hold(msg), Pages(dev.ctl.page, dev.tx[0]), dev.Totals();
      dev.WriteIntrSts(ALL_LINES);
      if msg.read {
        ret := ReadMsg(msg, stack);
        ghost var q := Pages(dev.ctl.page, dev.tx[0]);
        if msg.recvLen {
          ShortChunks();
          BlockAttempted(dev.world, m, isLast, h, Hold(msg), p, q, s0, dev.Totals(), stack, ret);
        } else {
          PlainAttempted(dev.world, m, isLast, h, Hold(msg), p, q, s0, dev.Totals(), stack, ret);
        }
      } else {
        ret := WriteMsg(msg, isLast);
        WriteAttempted(dev.world, m, isLast, h, p, Pages(dev.ctl.page, dev.tx[0]), s0, dev.Totals(), stack, ret);
      }
    }

    /** check_msg_params */
    method CheckMsgParams(msgs: seq<I2cMsg>) returns (ret: int)
      ensures ret == if Acceptable(msgs) then 0 else EINVAL
      ensures ret in {0, -22}
      ensures ret == 0 <==>
              && |msgs| > 0 && msgs[0].addr < 0x80
              && forall i :: 0 <= i < |msgs| ==> msgs[i].buf != null && msgs[i].addr == msgs[0].addr
    {
      if |msgs| == 0 {
        return EINVAL;
      }
      if msgs[0].addr > 0x7F {
        return EINVAL;
      }
      for i := 0 to |msgs|
        invariant forall j :: 0 <= j < i ==> msgs[j].buf != null && msgs[j].addr == msgs[0].addr
      {
        if msgs[i].buf == null {
          return EINVAL;
        }
        if msgs[0].addr != msgs[i].addr {
          return EINVAL;
        }
      }
      return 0;
    }

    /** The start of the transfer: wait for the bus, and reset the controller if that fails. */
    method AcquireBus() returns (ret: int)
      modifies dev`busyReads, dev`funcCtrl
      ensures ret == if Stuck(dev.world, old(dev.busyReads)) then EBUSY else 0
      ensures ret in {0, -16}
      ensures ret != 0 <==> forall j :: old(dev.busyReads) <= j <= old(dev.busyReads) + 351 ==> dev.world.busy(j)
      ensures dev.busyReads <= old(dev.busyReads) + POLLS + 1
    {
      hide FreeWithin;
      StuckIs(dev.world, dev.busyReads);
      ghost var w, b := dev.world, dev.busyReads;
      var busy := WaitBusForFree();
      if busy {
        Reset();
        var val := dev.ReadCmdSts();
        assert val.busy == w.busy(b + POLLS);
        if val.busy {
          return EBUSY;
        }
      }
      return 0;
    }

    /** fbiob_i2c_master_xfer */
    method MasterXfer(msgs: seq<I2cMsg>, stack: seq<byte>) returns (ret: int, ghost begun: Account)
      requires Valid() && |stack| == IOBUF_SIZE && Separate(msgs)
      requires forall i :: 0 <= i < |msgs| && msgs[i].buf != null ==>
                 && msgs[i].buf != dev.rx && msgs[i].buf != dev.tx
                 && msgs[i].len <= msgs[i].buf.Length && (msgs[i].recvLen ==> 34 <= msgs[i].buf.Length)
      modifies this`state, dev, dev.tx, dev.rx, msgs, Buffers(msgs)
      ensures Valid()
      ensures !Acceptable(msgs) ==> ret == EINVAL && dev.Totals() == old(dev.Totals())
      ensures Acceptable(msgs) && Stuck(dev.world, old(dev.busyReads)) ==> ret == EBUSY && dev.log == old(dev.log)
      ensures !Acceptable(msgs) || Stuck(dev.world, old(dev.busyReads)) ==>
                && dev.ctl.page == old(dev.ctl.page) && dev.tx[0] == old(dev.tx[0])
                && AllHeld(msgs) == old(AllHeld(msgs))
      ensures Acceptable(msgs) && !Stuck(dev.world, old(dev.busyReads)) ==>
                && begun == old(dev.Totals()).(busyReads := begun.busyReads)
                && begun.busyReads <= old(dev.busyReads) + POLLS + 1
                && Transferred(dev.world, old(Views(msgs)), old(AllHeld(msgs)), AllHeld(msgs),
                               old(Pages(dev.ctl.page, dev.tx[0])), Pages(dev.ctl.page, dev.tx[0]),
                               begun, dev.Totals(), stack, if ret > 0 then 0 else ret)
                && (ret < 0 || ret == |msgs|)
                && (ret == |msgs| <==> AllFulfilled(dev.world, old(Views(msgs)), old(dev.epoch)))
    {
      hide Transferred, Stuck, Views, AllHeld, AllFulfilled;
      begun := dev.Totals();
      ret := CheckMsgParams(msgs);
      if ret != 0 {
        return;
      }
      ghost var views, held := Views(msgs), AllHeld(msgs);
      ret := AcquireBus();
      assert Views(msgs) == views && AllHeld(msgs) == held;
      if ret != 0 {
        return;
      }
      state := START;
      assert Views(msgs) == views && AllHeld(msgs) == held;
      begun := dev.Totals();
      ret := TransferAll(msgs, stack);
      if ret >= 0 {
        ret := |msgs|;
      }
    }

    /** The message loop: it leaves at the first message that fails. */
    method TransferAll(msgs: seq<I2cMsg>, stack: seq<byte>) returns (ret: int)
      requires Valid() && |stack| == IOBUF_SIZE && Acceptable(msgs) && Separate(msgs)
      requires forall i :: 0 <= i < |msgs| ==>
                 && msgs[i].buf != dev.rx && msgs[i].buf != dev.tx
                 && msgs[i].len <= msgs[i].buf.Length && (msgs[i].recvLen ==> 34 <= msgs[i].buf.Length)
      modifies this`state, dev, dev.tx, dev.rx, msgs, Buffers(msgs)
      ensures Valid() && ret <= 0
      ensures Transferred(dev.world, old(Views(msgs)), old(AllHeld(msgs)), AllHeld(msgs),
                          old(Pages(dev.ctl.page, dev.tx[0])), Pages(dev.ctl.page, dev.tx[0]),
                          old(dev.Totals()), dev.Totals(), stack, ret)
      ensures ret == 0 <==> AllFulfilled(dev.world, old(Views(msgs)), old(dev.epoch))
    {
      hide Attempted, Progress, Transferred, Views, AllHeld, View, Separate, Buffers, AllFulfilled;
      ghost var w, ms, h0, s0 := dev.world, Views(msgs), AllHeld(msgs), dev.Totals();
      ghost var p0 := Pages(dev.ctl.page, dev.tx[0]);
      BuffersHas(msgs);
      ProgressStart(w, ms, h0, p0, s0, stack);
      ghost var h := h0;
      ret := 0;
      for i := 0 to |msgs|
        invariant Valid() && ret == 0 && AllHeld(msgs) == h && |h| == |h0|
        invariant forall j :: i <= j < |msgs| ==> h[j] == h0[j]
        invariant Progress(w, ms, h0, p0, s0, stack, i, h, Pages(dev.ctl.page, dev.tx[0]), dev.Totals())
      {
        ghost var p, s := Pages(dev.ctl.page, dev.tx[0]), dev.Totals();
        assert View(msgs[i], h[i]) == ms[i];
        ret := TransferNth(msgs, i, stack);
        ghost var h', q, s' := AllHeld(msgs), Pages(dev.ctl.page, dev.tx[0]), dev.Totals();
        ProgressStep(w, ms, h0, p0, s0, stack, i, h, p, s, h', q, s', ret);
        if ret < 0 {
          TransferDone(w, ms, h0, h', p0, q, s0, s', stack, ret);
          return;
        }
        h := h';
      }
      ProgressEnd(w, ms, h0, p0, s0, stack, h, Pages(dev.ctl.page, dev.tx[0]), dev.Totals());
      TransferDone(w, ms, h0, h, p0, Pages(dev.ctl.page, dev.tx[0]), s0, dev.Totals(), stack, 0);
    }

    /** One round of the message loop: no other message or buffer is touched. */
    method TransferNth(msgs: seq<I2cMsg>, n: nat, stack: seq<byte>) returns (ret: int)
      requires Valid() && |stack| == IOBUF_SIZE && n < |msgs| && Separate(msgs)
      requires msgs[n].addr <= 0x7F && Readable(msgs[n])
      requires forall i :: 0 <= i < |msgs| ==> msgs[i].buf != null && msgs[i].buf != dev.rx && msgs[i].buf != dev.tx
      modifies this`state, dev, dev.tx, dev.rx, msgs[n], msgs[n].buf
      ensures Valid()
      ensures var h, h' := old(AllHeld(msgs)), AllHeld(msgs);
              && h' == h[n := h'[n]] && |h'[n].bytes| == |h[n].bytes|
              && Attempted(dev.world, View(msgs[n], h[n]), n + 1 == |msgs|, h[n], h'[n],
                           old(Pages(dev.ctl.page, dev.tx[0])), Pages(dev.ctl.page, dev.tx[0]),
                           old(dev.Totals()), dev.Totals(), stack, ret)
    {
      hide View, AllHeld, Executed, MsgPlan, After, Carried, Broken, Delivered;
      ret := TransferMsg(msgs[n], n + 1 == |msgs|, stack);
      forall i | 0 <= i < |msgs| && i != n
        ensures AllHeld(msgs)[i] == old(AllHeld(msgs)[i])
      {
        if msgs[i].buf != msgs[n].buf {
          assert msgs[i].buf[..] == old(msgs[i].buf[..]);
        }
      }
    }
  }

  /** A block read, and a byte, end in the low page. */
  lemma ShortChunks()
    ensures LastChunk(BLOCK_MAX, RX_PAYLOAD_MAX) == BLOCK_MAX && LastChunk(1, RX_PAYLOAD_MAX) == 1
  {
  }

  // ---------------------------------------------------------------- messages as values

  ghost function Hold(msg: I2cMsg): Held
    reads msg`len, msg.buf
  {
    Held(msg.len, if msg.buf == null then [] else msg.buf[..])
  }

  ghost function AllHeld(msgs: seq<I2cMsg>): (h: seq<Held>)
    reads msgs, Buffers(msgs)
    ensures |h| == |msgs|
    ensures forall i :: 0 <= i < |msgs| ==> h[i] == Hold(msgs[i])
  {
    if msgs == [] then [] else [Hold(msgs[0])] + AllHeld(msgs[1..])
  }

  /** A message that holds `h`, as the plan sees it. */
  ghost function View(msg: I2cMsg, h: Held): (m: Msg)
    requires msg.addr <= 0x7F && h.len <= |h.bytes|
    ensures m.Valid()
  {
    var block := msg.read && msg.recvLen;
    Msg(msg.addr, msg.read, block, msg.pec, if block then BLOCK_MAX else h.len,
        if msg.read then [] else h.bytes[..h.len])
  }

  ghost function Views(msgs: seq<I2cMsg>): (v: seq<Msg>)
    requires forall i :: 0 <= i < |msgs| ==>
               && msgs[i].addr <= 0x7F
               && msgs[i].len <= if msgs[i].buf == null then 0 else msgs[i].buf.Length
    reads msgs, Buffers(msgs)
    ensures |v| == |msgs| && AllValid(v)
    ensures forall i :: 0 <= i < |msgs| ==> v[i] == View(msgs[i], Hold(msgs[i]))
    ensures forall i :: 0 <= i < |msgs| && v[i].block ==> v[i].read
  {
    if msgs == [] then [] else [View(msgs[0], Hold(msgs[0]))] + Views(msgs[1..])
  }

  lemma BuffersHas(msgs: seq<I2cMsg>)
    ensures forall i :: 0 <= i < |msgs| && msgs[i].buf != null ==> msgs[i].buf in Buffers(msgs)
  {
  }

  ghost function Buffers(msgs: seq<I2cMsg>): set<object> {
    set m | m in msgs && m.buf != null :: m.buf as object
  }

  /** Messages are distinct, and no buffer is shared with a read. */
  ghost predicate Separate(msgs: seq<I2cMsg>) {
    forall i, j :: 0 <= i < j < |msgs| ==>
      && msgs[i] != msgs[j]
      && (msgs[i].read || msgs[j].read ==> msgs[i].buf != msgs[j].buf || msgs[i].buf == null)
  }

  predicate Acceptable(msgs: seq<I2cMsg>) {
    && |msgs| > 0 && msgs[0].addr <= 0x7F
    && forall i :: 0 <= i < |msgs| ==> msgs[i].buf != null && msgs[i].addr == msgs[0].addr
  }
}
