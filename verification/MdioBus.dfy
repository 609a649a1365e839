/** The MDIO bus driver (kmods/fboss_iob_mdio_aux.c), proved against MdioTiming and, on prompt devices, MdioSpec. */
module MdioBus {
  import opened Bits
  import opened MdioSpec
  import opened MdioController
  import opened MdioTiming

  datatype State = INIT | READY | BUSY

  // ---------------------------------------------------------------- CMD values

  /** The four bit-field assignments to CMD. */
  function CmdWord(old_: u32, addr: nat, devad: nat, regnum: nat, rw: nat): u32 {
    Powers();
    PutBound(old_, 8, 5, addr, 32);
    PutBound(Put(old_, 8, 5, addr), 0, 5, devad, 32);
    PutBound(Put(Put(old_, 8, 5, addr), 0, 5, devad), 16, 16, regnum, 32);
    PutBound(Put(Put(Put(old_, 8, 5, addr), 0, 5, devad), 16, 16, regnum), 7, 1, rw, 32);
    Put(Put(Put(Put(old_, 8, 5, addr), 0, 5, devad), 16, 16, regnum), 7, 1, rw)
  }

  /**
   The fields do not disturb one another: the device address is in bits 0 to 4, the direction in bit 7, the PHY
   address in bits 8 to 12 and the register in bits 16 to 31, and the controller decodes the call that was meant.
   */
  lemma CmdWordIs(old_: u32, addr: nat, devad: nat, regnum: nat, rw: nat, wrDat: nat)
    requires rw <= 1
    ensures var cmd := CmdWord(old_, addr, devad, regnum, rw);
            && cmd % 32 == devad % 32 && cmd / 0x80 % 2 == rw && cmd / 0x100 % 32 == addr % 32
            && cmd / 0x1_0000 == regnum % 0x1_0000
    ensures Decode(CmdWord(old_, addr, devad, regnum, rw), wrDat)
         == var k := Key(addr % 32, devad % 32, regnum % 0x1_0000);
            if rw == 1 then Read(k) else Write(k, wrDat % 0x1_0000)
  {
    hide Put, Get;
    Powers();
    CmdFields(CmdWord(old_, addr, devad, regnum, rw));
    var r1 := Put(old_, 8, 5, addr);
    var r2 := Put(r1, 0, 5, devad);
    var r3 := Put(r2, 16, 16, regnum);
    GetPut(old_, 8, 5, addr); LowBits(addr, 5);
    GetPutOther(r1, 0, 5, devad, 8, 5);
    GetPutOther(r2, 16, 16, regnum, 8, 5);
    GetPutOther(r3, 7, 1, rw, 8, 5);
    GetPut(r1, 0, 5, devad); LowBits(devad, 5);
    GetPutOther(r2, 16, 16, regnum, 0, 5);
    GetPutOther(r3, 7, 1, rw, 0, 5);
    GetPut(r2, 16, 16, regnum); LowBits(regnum, 16);
    GetPutOther(r3, 7, 1, rw, 16, 16);
    GetPut(r3, 7, 1, rw); Fits(rw, 1);
    LowBits(wrDat, 16);
  }

  /** A CMD word with this PHY and device address, register and direction. */
  predicate Carries(cmd: nat, addr: nat, devad: nat, regnum: nat, rw: nat) {
    && cmd % 32 == devad % 32 && cmd / 0x100 % 32 == addr % 32
    && cmd / 0x1_0000 == regnum % 0x1_0000 && cmd / 0x80 % 2 == rw
  }

  lemma CmdFields(cmd: u32)
    ensures Get(cmd, 0, 5) == cmd % 32 && Get(cmd, 7, 1) == cmd / 0x80 % 2 && Get(cmd, 8, 5) == cmd / 0x100 % 32
    ensures Get(cmd, 16, 16) == cmd / 0x1_0000
  {
    hide Get;
    Powers();
    assert Pow2(7) == 4 * Pow2(5) && Pow2(0) == 1;
    GetIs(cmd, 0, 5);
    GetIs(cmd, 7, 1);
    GetIs(cmd, 8, 5);
    GetIs(cmd, 16, 16);
  }

  class Bus {
    const dev: Controller
    var state: State

    constructor (dev: Controller)
      ensures this.dev == dev && state == INIT
    {
      this.dev, state := dev, INIT;
    }

    /**
     Between calls: in BUSY the last command is a write, still in flight and unpolled, or ended with its own status bit,
     and no other, up; in READY a command that is still in flight has been polled and its status cleared.
     */
    ghost predicate Valid()
      reads this, dev
    {
      match state
      case INIT => false
      case READY => dev.flight.Busy? ==> dev.since == POLLS + 1
      case BUSY =>
        if dev.flight.Busy? then dev.flight.call.Write? && dev.since == 0 && !dev.done && !dev.err
        else dev.err == dev.world.error(dev.epoch) && dev.done == !dev.err
    }

    /** What driver and controller together stand for. */
    ghost function Meaning(): System
      reads this, dev
    {
      MeaningAs(state)
    }

    ghost function MeaningAs(state: State): System
      reads dev
    {
      System(dev.mem,
             if state == BUSY then (if dev.flight.Busy? then Posted(dev.flight.call) else Ended)
             else if dev.flight.Busy? then Stuck(dev.flight.call) else Free,
             dev.epoch, dev.overlap)
    }

    /** fbiob_mdio_clean_status */
    method CleanStatus()
      modifies dev`done, dev`err, dev`mem, dev`flight, dev`rdDat, dev`since
      ensures !dev.done && !dev.err && dev.since == old(dev.since) + 1
      ensures if old(dev.flight).Busy? && dev.world.latency(dev.epoch) <= old(dev.since)
              then dev.flight == Idle && dev.mem == Landed(dev.world, dev.epoch, old(dev.flight), old(dev.mem))
              else dev.flight == old(dev.flight) && dev.mem == old(dev.mem) && dev.rdDat == old(dev.rdDat)
    {
      var done, err := dev.ReadSts();
      dev.WriteSts(true, true);
    }

    /** wait_bus_ready */
    method WaitBusReady() returns (ret: int)
      requires state == READY || (state == BUSY && (dev.flight.Busy? ==> dev.since == 0 && !dev.done && !dev.err))
      requires state == BUSY && !dev.flight.Busy? ==> dev.err == dev.world.error(dev.epoch) && dev.done == !dev.err
      modifies dev`done, dev`err, dev`mem, dev`flight, dev`rdDat, dev`since
      ensures state == READY ==>
                && ret == 0 && dev.flight == old(dev.flight) && dev.mem == old(dev.mem) && dev.since == old(dev.since)
                && dev.done == old(dev.done) && dev.err == old(dev.err)
      ensures state == BUSY && (old(dev.flight).Busy? ==> dev.world.latency(dev.epoch) < 51) ==>
                && ret == (if dev.world.error(dev.epoch) then EIO else 0)
                && dev.flight == Idle && dev.mem == Landed(dev.world, dev.epoch, old(dev.flight), old(dev.mem))
                && (old(dev.flight).Busy? && old(dev.flight).call.Read? && ret == 0 ==>
                     Get(dev.rdDat, 0, 16) == Peek(dev.mem, old(dev.flight).call.key))
      ensures state == BUSY && old(dev.flight).Busy? && dev.world.latency(dev.epoch) >= 51 ==>
                && ret == EBUSY && dev.flight == old(dev.flight) && dev.mem == old(dev.mem) && dev.since == 51
      ensures ret in {0, -5, -16}
    {
      var retry := 50;
      var more := true;
      while more
        invariant -1 <= retry <= 50 && (more ==> retry >= 0) && (!more ==> retry == -1)
        invariant dev.flight == old(dev.flight) && dev.mem == old(dev.mem)
        invariant dev.done == old(dev.done) && dev.err == old(dev.err)
        invariant retry < 50 ==> state == BUSY && dev.flight.Busy? && dev.world.latency(dev.epoch) >= dev.since
        invariant dev.since == old(dev.since) + 50 - retry
        decreases retry, more
      {
        if state == READY {
          return 0;
        }
        var done, err := dev.ReadSts();
        if err {
          return EIO;
        }
        if done {
          return 0;
        }
        more := retry != 0;
        retry := retry - 1;
      }
      return EBUSY;
    }

    /** fbiob_mdio_reset */
    method Reset(works: bool) returns (ret: int)
      modifies this`state, dev`done, dev`err, dev`flight
      ensures works ==> ret == 0 && Valid() && Meaning() == System(dev.mem, Free, dev.epoch, dev.overlap)
      ensures !works ==> ret == -110 && Meaning() == old(Meaning()) && state == old(state)
      ensures old(Valid()) ==> Valid()
    {
      var stillSet := dev.Reset(works);
      if stillSet {
        return ETIMEDOUT;
      }
      state := READY;
      return 0;
    }

    /** The common start of both calls: wait for the last command, clear its status, and be READY again on an error. */
    method Begin() returns (ret: int)
      requires Valid()
      modifies this`state, dev`done, dev`err, dev`mem, dev`flight, dev`rdDat, dev`since
      ensures ret == BeginCode(dev.world, old(Meaning())) && !dev.done && !dev.err
      ensures MeaningAs(READY) == MdioTiming.Begin(dev.world, old(Meaning()))
      ensures ret != 0 ==> state == READY && Valid()
    {
      ret := WaitBusReady();
      CleanStatus();
      if ret != 0 {
        state := READY;
      }
    }

    /** fbiob_mdio_write_c45; `junk` is what the unset half of the data word held. */
    method WriteC45(addr: nat, devad: nat, regnum: nat, val: u16, junk: u32) returns (ret: int)
      requires Valid()
      modifies this`state, dev
      ensures var s, call := old(Meaning()), Write(Key(addr % 32, devad % 32, regnum % 0x1_0000), val);
              Valid() && ret == Answer(dev.world, s, call) && Meaning() == Next(dev.world, s, call)
      ensures dev.epoch > old(dev.epoch) ==> Carries(dev.cmd, addr, devad, regnum, 0)
    {
      hide MdioTiming.Begin, BeginCode, Carries;
      ret := Begin();
      if ret != 0 {
        return;
      }
      state := BUSY;
      SendWrite(addr, devad, regnum, val, junk);
    }

    method SendWrite(addr: nat, devad: nat, regnum: nat, val: u16, junk: u32)
      modifies dev`wrDat, dev`cmd, dev`flight, dev`epoch, dev`since, dev`overlap
      ensures dev.flight == Busy(Write(Key(addr % 32, devad % 32, regnum % 0x1_0000), val))
      ensures dev.epoch == old(dev.epoch) + 1 && dev.since == 0
      ensures dev.overlap == (old(dev.overlap) || old(dev.flight).Busy?)
      ensures Carries(dev.cmd, addr, devad, regnum, 0)
    {
      hide Put, Get, Decode, CmdWord;
      Powers();
      PutBound(junk, 0, 16, val, 32);
      GetPut(junk, 0, 16, val);
      Fits(val, 16);
      LowBits(Put(junk, 0, 16, val), 16);
      dev.WriteWrDat(Put(junk, 0, 16, val));
      CmdWordIs(dev.cmd, addr, devad, regnum, 0, dev.wrDat);
      dev.WriteCmd(CmdWord(dev.cmd, addr, devad, regnum, 0));
    }

    /** fbiob_mdio_read_c45 */
    method ReadC45(addr: nat, devad: nat, regnum: nat) returns (ret: int)
      requires Valid()
      modifies this`state, dev
      ensures var s, call := old(Meaning()), Read(Key(addr % 32, devad % 32, regnum % 0x1_0000));
              Valid() && ret == Answer(dev.world, s, call) && Meaning() == Next(dev.world, s, call)
      ensures dev.epoch > old(dev.epoch) ==> Carries(dev.cmd, addr, devad, regnum, 1)
    {
      hide MdioTiming.Begin, BeginCode, Carries;
      ret := Begin();
      if ret != 0 {
        return;
      }
      state := BUSY;
      SendRead(addr, devad, regnum);
      ret := Collect(Key(addr % 32, devad % 32, regnum % 0x1_0000));
    }

    /** The end of a read: poll its command, clear the status, fetch the data. */
    method Collect(ghost k: Key) returns (ret: int)
      requires state == BUSY && dev.flight == Busy(Read(k)) && dev.since == 0 && !dev.done && !dev.err
      modifies this`state, dev`done, dev`err, dev`mem, dev`flight, dev`rdDat, dev`since
      ensures var sent, code := old(Meaning()), PollCode(dev.world, dev.epoch);
              && Valid() && Meaning() == Polled(dev.world, sent, Read(k))
              && ret == if code != 0 then code else Peek(sent.mem, k)
    {
      hide Get;
      ret := WaitBusReady();
      ghost var data := dev.rdDat;
      CleanStatus();
      state := READY;
      if ret != 0 {
        return;
      }
      assert dev.rdDat == data;
      return Get(dev.rdDat, 0, 16);
    }

    method SendRead(addr: nat, devad: nat, regnum: nat)
      modifies dev`cmd, dev`flight, dev`epoch, dev`since, dev`overlap
      ensures dev.flight == Busy(Read(Key(addr % 32, devad % 32, regnum % 0x1_0000)))
      ensures dev.epoch == old(dev.epoch) + 1 && dev.since == 0
      ensures dev.overlap == (old(dev.overlap) || old(dev.flight).Busy?)
      ensures Carries(dev.cmd, addr, devad, regnum, 1)
    {
      hide Put, Get, Decode, CmdWord;
      CmdWordIs(dev.cmd, addr, devad, regnum, 1, dev.wrDat);
      dev.WriteCmd(CmdWord(dev.cmd, addr, devad, regnum, 1));
    }

    // -------------------------------------------------------------- runs

    /** Time between two calls. */
    method Pause(ends: bool)
      requires Valid()
      modifies dev`done, dev`err, dev`mem, dev`flight, dev`rdDat
      ensures Valid() && Meaning() == MdioTiming.Pause(dev.world, old(Meaning()), ends)
    {
      dev.Elapse(ends);
    }

    /**
     Any run of serialised calls and resets, with any pauses between them, in any world: answers and states are those of
     MdioTiming, and a command was started on top of another exactly when some call found a forgotten one still busy. On
     a prompt device the answers to calls alone are those of the synchronous memory.
     */
    method Run(requests: seq<Request>, pauses: seq<bool>, junk: seq<u32>) returns (rets: seq<int>)
      requires Valid() && |pauses| == |junk| == |requests|
      modifies this`state, dev
      ensures var w, s, acts := dev.world, old(Meaning()), Actions(requests);
              && Valid() && rets == Outcomes(w, s, acts, pauses) && Meaning() == After(w, s, acts, pauses, |acts|)
              && (dev.overlap <==>
                   old(dev.overlap) || exists i :: 0 <= i < |acts| && CollidesAt(w, s, acts, pauses, i))
              && (forall calls: seq<Call> :: acts == Calls(calls) && Prompt(w, s) && Well(s) ==>
                   && rets == Replies(w, Seen(w, s), calls)
                   && Seen(w, Meaning()) == StateAt(w, Seen(w, s), calls, |calls|))
      ensures forall i :: 0 <= i < |requests| ==>
                match requests[i]
                case C45Read(a, d, n) => Actions(requests)[i] == Do(Read(Key(a % 32, d % 32, n % 0x1_0000)))
                case C45Write(a, d, n, v) => Actions(requests)[i] == Do(Write(Key(a % 32, d % 32, n % 0x1_0000), v))
                case ResetBus(works) => Actions(requests)[i] == MdioTiming.Action.Reset(works)
    {
      hide Act, Outcome, Prompt, StateAt, Valid, Seen, Well, CollidesAt, MdioTiming.Pause, After, Found;
      ghost var w, s, acts := dev.world, Meaning(), Actions(requests);
      rets := [];
      AfterNone(w, s, acts, pauses);
      for i := 0 to |requests|
        invariant Valid() && |rets| == i && Meaning() == After(w, s, acts, pauses, i)
        invariant forall j :: 0 <= j < i ==> rets[j] == Outcomes(w, s, acts, pauses)[j]
      {
        AfterNext(w, s, acts, pauses, i);
        Pause(pauses[i]);
        var ret := Serve(requests[i], junk[i]);
        rets := rets + [ret];
      }
      RunMeans(w, s, acts, pauses);
    }

    /** One action of a run. */
    method Serve(request: Request, junk: u32) returns (ret: int)
      requires Valid()
      modifies this`state, dev
      ensures Valid() && ret == Outcome(dev.world, old(Meaning()), ActionOf(request))
      ensures Meaning() == Act(dev.world, old(Meaning()), ActionOf(request))
    {
      hide Answer, Next, Carries;
      match request {
        case C45Read(addr, devad, regnum) => ret := ReadC45(addr, devad, regnum);
        case C45Write(addr, devad, regnum, val) => ret := WriteC45(addr, devad, regnum, val, junk);
        case ResetBus(works) => ret := Reset(works);
      }
    }
  }

  /** A call as the MDIO core makes it, or a reset asked for through sysfs. */
  datatype Request =
    | C45Read(addr: nat, devad: nat, regnum: nat)
    | C45Write(addr: nat, devad: nat, regnum: nat, val: u16)
    | ResetBus(works: bool)

  function ActionOf(r: Request): Action {
    match r
    case C45Read(a, d, n) => Do(Read(Key(a % 32, d % 32, n % 0x1_0000)))
    case C45Write(a, d, n, v) => Do(Write(Key(a % 32, d % 32, n % 0x1_0000), v))
    case ResetBus(works) => MdioTiming.Action.Reset(works)
  }

  /** PHY, device and register of a call are cut to 5, 5 and 16 bits. */
  function Actions(rs: seq<Request>): (acts: seq<Action>)
    ensures |acts| == |rs| && forall i :: 0 <= i < |rs| ==> acts[i] == ActionOf(rs[i])
  {
    seq(|rs|, i requires 0 <= i < |rs| => ActionOf(rs[i]))
  }
}
