/**
 The FPGA SPI controller as the driver sees it (register map of kmods/fboss_iob_spi.c).

 Contract of the device:
 - storing DESC_CMD with VALID starts a transfer of 1 to 512 bytes out of the MOSI window, VALID itself reading back
   as zero; the 9-bit length field holds 0 for 512;
 - before each read of DESC_STS the done or error bit of the transfer in progress may rise, and stays up until it is
   written with one; done rises only when the MISO window holds the answer.
 */
module SpiController {
  import opened Bits

  const MAX_XFER_LEN := 512

  /** The bits of DESC_STS the driver uses. */
  datatype Status = Status(err: bool, done: bool)

  /** The fields of DESC_CMD. */
  datatype Command = Command(valid: bool, csActive: bool, csMode: bool, len: nat, errInt: bool, doneInt: bool)

  function Decode(reg: nat): Command {
    Command(Test(reg, 31), Test(reg, 30), Test(reg, 29), Get(reg, 8, 9), Test(reg, 1), Test(reg, 0))
  }

  type Window = s: seq<byte> | |s| == 512 witness seq(512, _ => 0)

  datatype World = World(
    status: (nat, nat) -> Status,   // what rises before status read k of transfer c
    miso: nat -> Window)            // what transfer c brings in

  /** A transfer the controller was told to make. */
  datatype Event = Transfer(csActive: bool, csMode: bool, sent: seq<byte>)

  datatype Account = Account(log: seq<Event>, epoch: nat, statusReads: nat)

  class Controller {
    const world: World
    const mosi: array<byte>
    const miso: array<byte>
    var desc: u32
    var status: Status
    var log: seq<Event>
    var epoch: nat
    var since: nat
    var statusReads: nat

    constructor (world: World)
      ensures Valid() && fresh(mosi) && fresh(miso) && this.world == world && log == []
    {
      this.world := world;
      mosi, miso := new byte[512], new byte[512];
      desc, status, log, epoch, since, statusReads := 0, Status(false, false), [], 0, 0, 0;
      new;
      ZeroFields(31, 1);
    }

    ghost predicate Valid()
      reads this
    {
      mosi.Length == 512 && miso.Length == 512 && mosi != miso && !Decode(desc).valid
    }

    function Totals(): Account
      reads this`log, this`epoch, this`statusReads
    {
      Account(log, epoch, statusReads)
    }

    /** A store to DESC_CMD. */
    method WriteDesc(val: u32)
      requires mosi.Length == 512
      modifies this`desc, this`log, this`epoch, this`since
      ensures Decode(desc) == Decode(val).(valid := false)
      ensures Decode(val).valid ==>
                && since == 0 && epoch == old(epoch) + 1
                && log == old(log) + [Described(Decode(val), mosi[..])]
      ensures !Decode(val).valid ==> since == old(since) && epoch == old(epoch) && log == old(log)
    {
      hide Decode, Described;
      if Decode(val).valid {
        log, since, epoch := log + [Described(Decode(val), mosi[..])], 0, epoch + 1;
      }
      ClearValid(val);
      desc := WithoutValid(val);
    }

    method WriteStatus(val: Status)
      modifies this`status
      ensures status == Status(old(status).err && !val.err, old(status).done && !val.done)
    {
      status := Status(status.err && !val.err, status.done && !val.done);
    }

    method ReadStatus() returns (val: Status)
      requires Valid()
      modifies this`status, this`since, this`statusReads, miso
      ensures var risen := world.status(epoch, old(since));
              && val == status == Status(old(status).err || risen.err, old(status).done || risen.done)
              && miso[..] == if risen.done then world.miso(epoch) else old(miso[..])
      ensures since == old(since) + 1 && statusReads == old(statusReads) + 1
    {
      var risen := world.status(epoch, since);
      status := Status(status.err || risen.err, status.done || risen.done);
      since, statusReads, val := since + 1, statusReads + 1, status;
      if risen.done {
        var answer := world.miso(epoch);
        forall i | 0 <= i < 512 {
          miso[i] := answer[i];
        }
        assert miso[..] == answer;
      }
    }
  }

  function Size(c: Command): (n: nat) {
    if c.len == 0 then MAX_XFER_LEN else c.len
  }

  function Described(c: Command, mosi: seq<byte>): Event {
    Transfer(c.csActive, c.csMode, if Size(c) <= |mosi| then mosi[..Size(c)] else mosi)
  }

  function WithoutValid(val: u32): u32 {
    Powers();
    PutBound(val, 31, 1, 0, 32);
    Put(val, 31, 1, 0)
  }

  lemma ClearValid(val: u32)
    ensures Decode(WithoutValid(val)) == Decode(val).(valid := false)
  {
    GetPut(val, 31, 1, 0);
    ZeroFields(0, 1);
    GetPutOther(val, 31, 1, 0, 30, 1);
    GetPutOther(val, 31, 1, 0, 29, 1);
    GetPutOther(val, 31, 1, 0, 8, 9);
    GetPutOther(val, 31, 1, 0, 1, 1);
    GetPutOther(val, 31, 1, 0, 0, 1);
  }
}
