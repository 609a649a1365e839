/**
 The FPGA MDIO controller as the driver sees it (register map of kmods/fboss_iob_mdio_aux.c).

 Contract of the device:
 - storing CMD starts a command on the PHYs; a second one before the first has ended is an overlap;
 - a command ends, at the latest, at the status read numbered by its latency, and may end before without being polled;
   then DONE rises and it has taken effect, or ERR rises and it has not; both stay up until written with one;
 - a reset that reads back as finished has dropped the command in flight and the status bits.
 */
module MdioController {
  import opened Bits
  import opened MdioSpec

  datatype Flight = Idle | Busy(call: Call)

  /** The call a CMD word describes, given WR_DAT. */
  function Decode(cmd: nat, wrDat: nat): Call {
    Powers();
    var key := Key(Get(cmd, 8, 5), Get(cmd, 0, 5), Get(cmd, 16, 16));
    if Test(cmd, 7) then Read(key) else Write(key, Get(wrDat, 0, 16))
  }

  class Controller {
    const world: World
    var cmd: u32
    var wrDat: u32
    var rdDat: u32
    var done: bool
    var err: bool
    var mem: Mem
    var flight: Flight
    var epoch: nat      // commands started
    var since: nat      // status reads since the last start
    var overlap: bool   // a command was started on top of another

    constructor (world: World, mem: Mem)
      ensures this.world == world && this.mem == mem && flight == Idle && !done && !err && !overlap && epoch == 0
    {
      this.world, this.mem := world, mem;
      cmd, wrDat, rdDat, done, err, flight, epoch, since, overlap := 0, 0, 0, false, false, Idle, 0, 0, false;
    }

    /** The command in flight ends now. */
    method End()
      requires flight.Busy?
      modifies this`done, this`err, this`mem, this`flight, this`rdDat
      ensures flight == Idle
      ensures err == (old(err) || world.error(epoch)) && done == (old(done) || !world.error(epoch))
      ensures mem == Landed(world, epoch, old(flight), old(mem))
      ensures old(flight).call.Read? && !world.error(epoch) ==> Get(rdDat, 0, 16) == Peek(mem, old(flight).call.key)
    {
      if world.error(epoch) {
        err := true;
      } else {
        done := true;
        match flight.call {
          case Write(k, v) => mem := mem[k := v];
          case Read(k) =>
            Powers();
            PutBound(rdDat, 0, 16, Peek(mem, k), 32);
            GetPut(rdDat, 0, 16, Peek(mem, k));
            Fits(Peek(mem, k), 16);
            rdDat := Put(rdDat, 0, 16, Peek(mem, k));
        }
      }
      flight := Idle;
    }

    /** Time passes unobserved; a command in flight may end. */
    method Elapse(ends: bool)
      modifies this`done, this`err, this`mem, this`flight, this`rdDat
      ensures if ends && old(flight).Busy? then
                && flight == Idle && err == (old(err) || world.error(epoch))
                && done == (old(done) || !world.error(epoch))
                && mem == Landed(world, epoch, old(flight), old(mem))
              else flight == old(flight) && err == old(err) && done == old(done) && mem == old(mem)
    {
      if ends && flight.Busy? {
        End();
      }
    }

    method WriteWrDat(val: u32)
      modifies this`wrDat
      ensures wrDat == val
    {
      wrDat := val;
    }

    method WriteCmd(val: u32)
      modifies this`cmd, this`flight, this`epoch, this`since, this`overlap
      ensures cmd == val && flight == Busy(Decode(val, wrDat)) && epoch == old(epoch) + 1 && since == 0
      ensures overlap == (old(overlap) || old(flight).Busy?)
    {
      hide Decode;
      overlap := overlap || flight.Busy?;
      cmd, flight, epoch, since := val, Busy(Decode(val, wrDat)), epoch + 1, 0;
    }

    /** DONE and ERR after one more status read. */
    method ReadSts() returns (doneBit: bool, errBit: bool)
      modifies this`done, this`err, this`mem, this`flight, this`rdDat, this`since
      ensures since == old(since) + 1 && doneBit == done && errBit == err
      ensures if old(flight).Busy? && world.latency(epoch) <= old(since) then
                && flight == Idle && err == (old(err) || world.error(epoch))
                && done == (old(done) || !world.error(epoch))
                && mem == Landed(world, epoch, old(flight), old(mem))
                && (old(flight).call.Read? && !world.error(epoch) ==>
                     Get(rdDat, 0, 16) == Peek(mem, old(flight).call.key))
              else && flight == old(flight) && err == old(err) && done == old(done)
                   && mem == old(mem) && rdDat == old(rdDat)
    {
      if flight.Busy? && world.latency(epoch) <= since {
        End();
      }
      since := since + 1;
      doneBit, errBit := done, err;
    }

    /** Status bits written with one drop. */
    method WriteSts(doneBit: bool, errBit: bool)
      modifies this`done, this`err
      ensures done == (old(done) && !doneBit) && err == (old(err) && !errBit)
    {
      done, err := done && !doneBit, err && !errBit;
    }

    /** A reset request; `works` is whether the bit reads back as zero after the wait. */
    method Reset(works: bool) returns (stillSet: bool)
      modifies this`done, this`err, this`flight
      ensures stillSet == !works
      ensures works ==> !done && !err && flight == Idle
      ensures !works ==> done == old(done) && err == old(err) && flight == old(flight)
    {
      if works {
        done, err, flight := false, false, Idle;
      }
      stillSet := !works;
    }
  }

  /** Memory once the command in flight has ended. */
  function Landed(w: World, c: nat, f: Flight, m: Mem): Mem {
    if f.Busy? then Effect(w, c, f.call, m) else m
  }
}
