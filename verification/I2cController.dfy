/**
 The FPGA I2C controller as the driver sees it (register map of kmods/fboss_iob_i2c.c).

 Contract of the device:
 - storing CMD_STS with START begins a command: its done and error bits drop, and the address and
   payload are taken from the transmit buffer according to BUF_CTRL; command bits read back as zero;
 - between two reads of INTR_STS any of the four status bits may rise; they stay up until they
   are written with one or the next START; RX_DONE rises only when the receive buffer holds the answer;
 - reserved bits of BUF_CTRL read as zero, and its bit 6 selects which 128-byte half of each buffer the I/O window
   shows.
 What rises when, what the slave answers and when the bus is busy is decided by a `World`.
 */
module I2cController {
  import opened Bits

  const IOBUF_SIZE := 128

  /** The bits of INTR_STS. */
  datatype Lines = Lines(txDone: bool, nack: bool, rxDone: bool, timeout: bool) {
    function Or(o: Lines): Lines {
      Lines(txDone || o.txDone, nack || o.nack, rxDone || o.rxDone, timeout || o.timeout)
    }

    function Without(o: Lines): Lines {
      Lines(txDone && !o.txDone, nack && !o.nack, rxDone && !o.rxDone, timeout && !o.timeout)
    }
  }

  const QUIET := Lines(false, false, false, false)
  const ALL_LINES := Lines(true, true, true, true)

  /** The bits of CMD_STS. */
  datatype CmdSts = CmdSts(start: bool, transmit: bool, receive: bool, receiveLast: bool, stop: bool, busy: bool)

  /** The fields of BUF_CTRL: page select, transmit size, receive size less one. */
  datatype BufCtrl = BufCtrl(page: bool, txSize: byte, rxSize: byte)

  function Decode(reg: nat): BufCtrl {
    Powers();
    BufCtrl(Test(reg, 6), Get(reg, 8, 8), Get(reg, 16, 8))
  }

  function Encode(c: BufCtrl): (reg: u32) {
    Powers();
    PutBound(0, 6, 1, if c.page then 1 else 0, 32);
    PutBound(Put(0, 6, 1, if c.page then 1 else 0), 8, 8, c.txSize, 32);
    PutBound(Put(Put(0, 6, 1, if c.page then 1 else 0), 8, 8, c.txSize), 16, 8, c.rxSize, 32);
    Put(Put(Put(0, 6, 1, if c.page then 1 else 0), 8, 8, c.txSize), 16, 8, c.rxSize)
  }

  /** The three fields share no bit, so the register holds them all. */
  lemma DecodeEncode(c: BufCtrl)
    ensures Decode(Encode(c)) == c
  {
    Powers();
    var p: nat := if c.page then 1 else 0;
    var r1 := Put(0, 6, 1, p);
    var r2 := Put(r1, 8, 8, c.txSize);
    GetPut(0, 6, 1, p); Fits(p, 1);
    GetPut(r1, 8, 8, c.txSize); Fits(c.txSize, 8);
    GetPut(r2, 16, 8, c.rxSize); Fits(c.rxSize, 8);
    GetPutOther(r1, 8, 8, c.txSize, 6, 1);
    GetPutOther(r2, 16, 8, c.rxSize, 6, 1);
    GetPutOther(r2, 16, 8, c.rxSize, 8, 8);
  }

  /** The page bit is bit 6, and the sizes are bytes 1 and 2. */
  lemma BufBits(reg: nat)
    ensures Decode(reg) == BufCtrl(reg / 0x40 % 2 == 1, reg / 0x100 % 0x100, reg / 0x1_0000 % 0x100)
  {
    hide Get;
    Powers();
    assert Pow2(6) == 0x40;
    GetIs(reg, 6, 1);
    GetIs(reg, 8, 8);
    GetIs(reg, 16, 8);
  }

  type Reply = s: seq<byte> | |s| == 256 witness seq(256, _ => 0)

  datatype World = World(
    lines: (nat, nat) -> Lines,   // what rises before status read k of command c
    reply: nat -> Reply,          // what the slave answers to command c
    busy: nat -> bool)            // the bus at read k of CMD_STS

  /** What the controller was told to do. */
  datatype Event =
    | Command(transmit: bool, receive: bool, receiveLast: bool, stop: bool, sent: seq<byte>, want: nat)
    | StopOnly

  /** What has happened on the controller so far: its log, the commands started, the status reads made. */
  datatype Account = Account(log: seq<Event>, epoch: nat, statusReads: nat, busyReads: nat)

  class Controller {
    const world: World
    const tx: array<byte>
    const rx: array<byte>
    var funcCtrl: u32
    var ctl: BufCtrl
    var intr: Lines
    var log: seq<Event>
    var epoch: nat        // commands started so far
    var since: nat        // status reads since the last START
    var statusReads: nat
    var busyReads: nat

    constructor (world: World)
      ensures Valid() && fresh(tx) && fresh(rx) && this.world == world && log == []
    {
      this.world := world;
      tx, rx := new byte[256], new byte[256];
      funcCtrl, ctl, intr, log, epoch, since, statusReads, busyReads := 0, BufCtrl(false, 0, 0), QUIET, [], 0, 0, 0, 0;
    }

    ghost predicate Valid()
      reads this
    {
      tx.Length == 256 && rx.Length == 256 && tx != rx
    }

    function Totals(): Account
      reads this`log, this`epoch, this`statusReads, this`busyReads
    {
      Account(log, epoch, statusReads, busyReads)
    }

    /** Buffer position the I/O window starts at. */
    function WindowBase(): (b: nat)
      reads this`ctl
    {
      if ctl.page then IOBUF_SIZE else 0
    }

    method WriteBufCtrl(val: u32)
      modifies this`ctl
      ensures ctl == Decode(val)
    {
      ctl := Decode(val);
    }

    method ReadBufCtrl() returns (val: u32)
      ensures Decode(val) == ctl
    {
      DecodeEncode(ctl);
      val := Encode(ctl);
    }

    /** The command that CMD_STS and BUF_CTRL describe. */
    function Described(val: CmdSts): Event
      requires Valid()
      reads this, tx
    {
      Command(val.transmit, val.receive, val.receiveLast, val.stop,
              tx[..ctl.txSize + 1], if val.receive then ctl.rxSize + 1 else 0)
    }

    method WriteCmdSts(val: CmdSts)
      requires Valid()
      modifies this`log, this`intr, this`epoch, this`since
      ensures val.start ==>
                && intr == QUIET && since == 0 && epoch == old(epoch) + 1
                && log == old(log) + [old(Described(val))]
      ensures !val.start ==>
                && intr == old(intr) && since == old(since) && epoch == old(epoch)
                && log == old(log) + if val.stop then [StopOnly] else []
    {
      if val.start {
        log := log + [Described(val)];
        intr, since, epoch := QUIET, 0, epoch + 1;
      } else if val.stop {
        log := log + [StopOnly];
      }
    }

    /** Status bits written with one drop. */
    method WriteIntrSts(val: Lines)
      modifies this`intr
      ensures intr == old(intr).Without(val)
    {
      intr := intr.Without(val);
    }

    method ReadIntrSts() returns (val: Lines)
      requires Valid()
      modifies this`intr, this`since, this`statusReads, rx
      ensures val == intr == old(intr).Or(world.lines(epoch, old(since)))
      ensures since == old(since) + 1 && statusReads == old(statusReads) + 1
      ensures rx[..] == if world.lines(epoch, old(since)).rxDone then world.reply(epoch) else old(rx[..])
    {
      var risen := world.lines(epoch, since);
      intr, since, statusReads := intr.Or(risen), since + 1, statusReads + 1;
      val := intr;
      if risen.rxDone {
        var answer := world.reply(epoch);
        forall i | 0 <= i < 256 {
          rx[i] := answer[i];
        }
        assert rx[..] == answer;
      }
    }

    method ReadCmdSts() returns (val: CmdSts)
      modifies this`busyReads
      ensures busyReads == old(busyReads) + 1
      ensures val == CmdSts(false, false, false, false, false, world.busy(old(busyReads)))
    {
      val := CmdSts(false, false, false, false, false, world.busy(busyReads));
      busyReads := busyReads + 1;
    }
  }
}
