/**
 What an I2C transfer should look like on the controller, independently of how the driver
 gets there: the commands of each message, and how far the world lets them go.
 */
module I2cPlan {
  import opened Bits
  import opened I2cController

  const EIO := -5
  const EBUSY := -16
  const EINVAL := -22
  const ETIMEDOUT := -110

  const TX_PAYLOAD_MAX := 255
  const RX_PAYLOAD_MAX := 256
  const BLOCK_MAX := 32
  const POLLS := 351   // 35000 us / 100 us retries, and the first read

  function Min(a: int, b: int): int {
    if a < b then a else b
  }

  // ---------------------------------------------------------------- one command

  datatype Verdict = Done | Nack | Late | BadCount

  /** What polling command `c` from status read `k` on comes to. */
  function Settle(w: World, c: nat, read: bool, k: nat): (v: Verdict)
    requires k <= POLLS
    ensures v != BadCount
    decreases POLLS - k
  {
    if k == POLLS then Late
    else if w.lines(c, k).nack then Nack
    else if (if read then w.lines(c, k).rxDone else w.lines(c, k).txDone) then Done
    else Settle(w, c, read, k + 1)
  }

  /** A write is done when TX_DONE, and a read when RX_DONE, rose within 351 reads with no NACK up to then. */
  lemma {:induction false} SettleDone(w: World, c: nat, read: bool, k: nat)
    requires k <= POLLS
    ensures !read ==>
              (Settle(w, c, read, k) == Done <==>
               exists j :: k <= j < 351 && w.lines(c, j).txDone && forall i :: k <= i <= j ==> !w.lines(c, i).nack)
    ensures read ==>
              (Settle(w, c, read, k) == Done <==>
               exists j :: k <= j < 351 && w.lines(c, j).rxDone && forall i :: k <= i <= j ==> !w.lines(c, i).nack)
    decreases POLLS - k
  {
    if k < POLLS {
      SettleDone(w, c, read, k + 1);
      if Settle(w, c, read, k) == Done && !(if read then w.lines(c, k).rxDone else w.lines(c, k).txDone) {
        var j :| && k + 1 <= j < POLLS && (if read then w.lines(c, j).rxDone else w.lines(c, j).txDone)
                 && forall i :: k + 1 <= i <= j ==> !w.lines(c, i).nack;
        assert forall i :: k <= i <= j ==> !w.lines(c, i).nack;
      }
    }
  }

  /** A NACK: it rose within 351 reads, with the bit waited for not up before; it beats one of the same read. */
  lemma {:induction false} SettleNack(w: World, c: nat, read: bool, k: nat)
    requires k <= POLLS
    ensures !read ==>
              (Settle(w, c, read, k) == Nack <==>
               exists j :: k <= j < 351 && w.lines(c, j).nack && forall i :: k <= i < j ==> !w.lines(c, i).txDone)
    ensures read ==>
              (Settle(w, c, read, k) == Nack <==>
               exists j :: k <= j < 351 && w.lines(c, j).nack && forall i :: k <= i < j ==> !w.lines(c, i).rxDone)
    decreases POLLS - k
  {
    if k < POLLS && !w.lines(c, k).nack && !(if read then w.lines(c, k).rxDone else w.lines(c, k).txDone) {
      SettleNack(w, c, read, k + 1);
      if Settle(w, c, read, k) == Nack {
        var j :| && k + 1 <= j < POLLS && w.lines(c, j).nack
                 && forall i :: k + 1 <= i < j ==> !(if read then w.lines(c, i).rxDone else w.lines(c, i).txDone);
        assert forall i :: k <= i < j ==> !(if read then w.lines(c, i).rxDone else w.lines(c, i).txDone);
      }
    }
  }

  /** TX_DONE of command `c` rose within 351 status reads, with no NACK up to then. */
  ghost predicate TxDone(w: World, c: nat) {
    exists j :: 0 <= j < 351 && w.lines(c, j).txDone && forall i :: 0 <= i <= j ==> !w.lines(c, i).nack
  }

  /** The same for RX_DONE. */
  ghost predicate RxDone(w: World, c: nat) {
    exists j :: 0 <= j < 351 && w.lines(c, j).rxDone && forall i :: 0 <= i <= j ==> !w.lines(c, i).nack
  }

  // ---------------------------------------------------------------- a list of commands

  /** A planned command; `block` marks an SMBus block read, whose first byte is a count. */
  datatype Step = Step(cmd: Event, read: bool, block: bool)

  function StepVerdict(w: World, c: nat, s: Step): Verdict {
    var v := Settle(w, c, s.read, 0);
    if v == Done && s.block && w.reply(c)[0] > BLOCK_MAX then BadCount else v
  }

  /** How far a plan gets: the commands started, and the verdict that ended it. */
  datatype Outcome = Outcome(started: nat, fate: Verdict)

  function Errno(v: Verdict): int {
    match v
    case Done => 0
    case Nack => EIO
    case Late => ETIMEDOUT
    case BadCount => EINVAL
  }

  /** Running commands with the given verdicts: each command waits for the one before it. */
  function Run(vs: seq<Verdict>): (o: Outcome)
    ensures o.started <= |vs|
  {
    if vs == [] then Outcome(0, Done)
    else if vs[0] != Done then Outcome(1, vs[0])
    else var o := Run(vs[1..]); Outcome(1 + o.started, o.fate)
  }

  /** Every started command but the last was done; the last one decides the run. */
  lemma {:induction false} RunIs(vs: seq<Verdict>)
    ensures var o := Run(vs);
            && (forall i :: 0 <= i < o.started - 1 ==> vs[i] == Done)
            && (o.fate == Done ==> o.started == |vs|)
            && o.fate == if o.started > 0 then vs[o.started - 1] else Done
  {
    if vs != [] && vs[0] == Done {
      RunIs(vs[1..]);
    }
  }

  /** A plan that runs to its end is followed by the next one; a plan that does not ends the transfer. */
  lemma {:induction false} RunConcat(a: seq<Verdict>, b: seq<Verdict>)
    ensures Run(a + b) == if Run(a).fate != Done then Run(a)
                          else Outcome(|a| + Run(b).started, Run(b).fate)
  {
    if a == [] {
      assert a + b == b;
    } else {
      assert (a + b)[1..] == a[1..] + b;
      RunConcat(a[1..], b);
    }
  }

  /** The verdicts of `plan` when `c` commands came before. */
  function Verdicts(w: World, c: nat, plan: seq<Step>): (vs: seq<Verdict>)
    ensures |vs| == |plan|
  {
    seq(|plan|, i requires 0 <= i < |plan| => StepVerdict(w, c + 1 + i, plan[i]))
  }

  function RunPlan(w: World, c: nat, plan: seq<Step>): (o: Outcome)
    ensures o.started <= |plan|
  {
    Run(Verdicts(w, c, plan))
  }

  function Commands(plan: seq<Step>): (l: seq<Event>)
    ensures |l| == |plan|
  {
    seq(|plan|, i requires 0 <= i < |plan| => plan[i].cmd)
  }

  function Reaction(v: Verdict): seq<Event> {
    if v == Nack then [StopOnly] else []
  }

  /** The controller's log of the run; a NACK is answered with a stop. */
  function Trace(w: World, c: nat, plan: seq<Step>): seq<Event> {
    var o := RunPlan(w, c, plan);
    Commands(plan[..o.started]) + Reaction(o.fate)
  }

  /** Command `c` did what step `s` asks: its done bit rose, and a block read answered with a legal count. */
  ghost predicate StepDone(w: World, c: nat, s: Step) {
    && (if s.read then RxDone(w, c) else TxDone(w, c))
    && (s.block ==> w.reply(c)[0] <= 32)
  }

  lemma StepDoneIs(w: World, c: nat, s: Step)
    ensures StepDone(w, c, s) <==> StepVerdict(w, c, s) == Done
  {
    hide Settle;
    SettleDone(w, c, s.read, 0);
  }

  /** A transfer succeeds exactly when every one of its commands does. */
  lemma SuccessIff(w: World, c: nat, plan: seq<Step>)
    ensures RunPlan(w, c, plan).fate == Done <==>
            forall i :: 0 <= i < |plan| ==> StepDone(w, c + 1 + i, plan[i])
  {
    hide StepVerdict, StepDone, Run;
    var vs := Verdicts(w, c, plan);
    RunIs(vs);
    forall i | 0 <= i < |plan|
      ensures vs[i] == Done <==> StepDone(w, c + 1 + i, plan[i])
    {
      StepDoneIs(w, c + 1 + i, plan[i]);
    }
  }

  /** The run and its log split where the plan splits. */
  lemma TraceConcat(w: World, c: nat, a: seq<Step>, b: seq<Step>)
    ensures RunPlan(w, c, a).fate == Done ==>
              && Trace(w, c, a + b) == Commands(a) + Trace(w, c + |a|, b)
              && RunPlan(w, c, a + b) == Outcome(|a| + RunPlan(w, c + |a|, b).started, RunPlan(w, c + |a|, b).fate)
    ensures RunPlan(w, c, a).fate != Done ==>
              && Trace(w, c, a + b) == Trace(w, c, a)
              && RunPlan(w, c, a + b) == RunPlan(w, c, a)
  {
    hide Verdicts, Run, Reaction;
    var va, vb := Verdicts(w, c, a), Verdicts(w, c + |a|, b);
    VerdictsConcat(w, c, a, b);
    RunConcat(va, vb);
    RunIs(va);
    if Run(va).fate == Done {
      CommandsConcat(a, b, Run(vb).started);
    } else {
      assert (a + b)[..Run(va).started] == a[..Run(va).started];
    }
  }

  lemma CommandsConcat(a: seq<Step>, b: seq<Step>, m: nat)
    requires m <= |b|
    ensures Commands((a + b)[..|a| + m]) == Commands(a) + Commands(b[..m])
  {
    assert (a + b)[..|a| + m] == a + b[..m];
  }

  lemma VerdictsConcat(w: World, c: nat, a: seq<Step>, b: seq<Step>)
    ensures Verdicts(w, c, a + b) == Verdicts(w, c, a) + Verdicts(w, c + |a|, b)
  {
    hide StepVerdict;
    var all, va, vb := Verdicts(w, c, a + b), Verdicts(w, c, a), Verdicts(w, c + |a|, b);
    forall i | 0 <= i < |a| + |b|
      ensures all[i] == (va + vb)[i]
    {
      if i < |a| {
        assert (a + b)[i] == a[i];
      } else {
        assert (a + b)[i] == b[i - |a|];
        assert c + 1 + i == c + |a| + 1 + (i - |a|);
      }
    }
  }

  /** The whole outcome of running `plan`: what was logged, how many commands started, the error code. */
  ghost predicate Completed(w: World, c: nat, plan: seq<Step>, logged: seq<Event>, started: nat, ret: int) {
    && logged == Trace(w, c, plan)
    && started == RunPlan(w, c, plan).started
    && ret == Errno(RunPlan(w, c, plan).fate)
  }

  /** After `k` commands of `plan`, logged as `soFar`, what is left of it is `rest`. */
  ghost predicate Reached(w: World, c: nat, plan: seq<Step>, k: nat, soFar: seq<Event>, rest: seq<Step>) {
    && Trace(w, c, plan) == soFar + Trace(w, c + k, rest)
    && RunPlan(w, c, plan) == Outcome(k + RunPlan(w, c + k, rest).started, RunPlan(w, c + k, rest).fate)
  }

  lemma ReachedAll(w: World, c: nat, plan: seq<Step>, k: nat, soFar: seq<Event>)
    requires Reached(w, c, plan, k, soFar, [])
    ensures Completed(w, c, plan, soFar, k, 0)
  {
    RunIs(Verdicts(w, c + k, []));
    assert Trace(w, c + k, []) == [];
  }

  lemma ReachedStart(w: World, c: nat, plan: seq<Step>)
    ensures Reached(w, c, plan, 0, [], plan)
  {
    assert Trace(w, c, plan) == [] + Trace(w, c + 0, plan);
  }

  /** A message whose commands all succeed moves the transfer on to the next message. */
  lemma ReachedMore(w: World, c: nat, plan: seq<Step>, k: nat, soFar: seq<Event>, now: seq<Step>, rest: seq<Step>)
    requires Reached(w, c, plan, k, soFar, now + rest) && RunPlan(w, c + k, now).fate == Done
    ensures Reached(w, c, plan, k + |now|, soFar + Commands(now), rest)
  {
    hide Trace, RunPlan, Commands;
    TraceConcat(w, c + k, now, rest);
    assert c + k + |now| == c + (k + |now|);
    var tail := Trace(w, c + (k + |now|), rest);
    assert soFar + (Commands(now) + tail) == soFar + Commands(now) + tail;
  }

  /** A message that succeeds logged exactly its commands. */
  lemma SuccessLog(w: World, c: nat, now: seq<Step>)
    requires RunPlan(w, c, now).fate == Done
    ensures Trace(w, c, now) == Commands(now) && RunPlan(w, c, now).started == |now|
  {
    RunIs(Verdicts(w, c, now));
    assert now[..|now|] == now;
  }

  /** A message that fails ends the transfer. */
  lemma ReachedEnd(w: World, c: nat, plan: seq<Step>, k: nat, soFar: seq<Event>, now: seq<Step>, rest: seq<Step>)
    requires Reached(w, c, plan, k, soFar, now + rest) && RunPlan(w, c + k, now).fate != Done
    ensures Trace(w, c, plan) == soFar + Trace(w, c + k, now)
    ensures RunPlan(w, c, plan) == Outcome(k + RunPlan(w, c + k, now).started, RunPlan(w, c + k, now).fate)
  {
    TraceConcat(w, c + k, now, rest);
  }

  /** The next command of the plan has been polled: on to the one after it, or done with the transfer. */
  lemma ReachedStep(w: World, c: nat, plan: seq<Step>, k: nat, soFar: seq<Event>, rest: seq<Step>, v: Verdict)
    requires Reached(w, c, plan, k, soFar, rest) && rest != [] && v == StepVerdict(w, c + k + 1, rest[0])
    ensures v == Done ==> Reached(w, c, plan, k + 1, soFar + [rest[0].cmd], rest[1..])
    ensures v != Done ==> Completed(w, c, plan, soFar + [rest[0].cmd] + Reaction(v), k + 1, Errno(v))
  {
    hide Reached, Trace, RunPlan, Commands, StepVerdict;
    var now := [rest[0]];
    assert rest == now + rest[1..];
    OneCommand(w, c + k, rest[0]);
    if v == Done {
      ReachedMore(w, c, plan, k, soFar, now, rest[1..]);
    } else {
      ReachedEnd(w, c, plan, k, soFar, now, rest[1..]);
      assert soFar + ([rest[0].cmd] + Reaction(v)) == soFar + [rest[0].cmd] + Reaction(v);
    }
  }

  lemma OneCommand(w: World, c: nat, s: Step)
    ensures var v := StepVerdict(w, c + 1, s);
            && RunPlan(w, c, [s]) == Outcome(1, v)
            && Trace(w, c, [s]) == [s.cmd] + Reaction(v) && Commands([s]) == [s.cmd]
  {
    var vs := Verdicts(w, c, [s]);
    assert vs == [StepVerdict(w, c + 1, s)];
    RunIs(vs);
    assert [s][..1] == [s];
    assert Commands([s]) == [s.cmd];
  }

  // ---------------------------------------------------------------- on the controller

  /** Between `s0` and `s1` the controller ran `plan`, and `ret` came of it, within the poll budget. */
  ghost predicate Executed(w: World, plan: seq<Step>, s0: Account, s1: Account, ret: int) {
    && s0.log <= s1.log && s0.epoch <= s1.epoch
    && Completed(w, s0.epoch, plan, s1.log[|s0.log|..], s1.epoch - s0.epoch, ret)
    && s1.statusReads <= s0.statusReads + POLLS * (s1.epoch - s0.epoch)
    && s1.busyReads <= s0.busyReads + (if ret == 0 then 0 else 1)
  }

  /** Between `s0` and `s1` the controller ran `plan` up to `rest`. */
  ghost predicate Underway(w: World, plan: seq<Step>, s0: Account, s1: Account, rest: seq<Step>) {
    && s0.log <= s1.log && s0.epoch <= s1.epoch
    && Reached(w, s0.epoch, plan, s1.epoch - s0.epoch, s1.log[|s0.log|..], rest)
    && s1.statusReads <= s0.statusReads + POLLS * (s1.epoch - s0.epoch)
    && s1.busyReads <= s0.busyReads
  }

  /** Between `s1` and `s2` one command was started and polled. */
  ghost predicate Polled(w: World, s1: Account, s2: Account, cmd: Event, read: bool) {
    var v := Settle(w, s1.epoch + 1, read, 0);
    && s2.log == s1.log + [cmd] + Reaction(v)
    && s2.epoch == s1.epoch + 1
    && s2.statusReads <= s1.statusReads + POLLS
    && s2.busyReads == s1.busyReads + (if v == Nack then 1 else 0)
  }

  lemma UnderwayStart(w: World, plan: seq<Step>, s: Account)
    ensures Underway(w, plan, s, s, plan)
  {
    ReachedStart(w, s.epoch, plan);
    assert s.log[|s.log|..] == [];
  }

  lemma UnderwayStep(w: World, plan: seq<Step>, s0: Account, s1: Account, s2: Account, rest: seq<Step>)
    requires Underway(w, plan, s0, s1, rest) && rest != []
    requires Polled(w, s1, s2, rest[0].cmd, rest[0].read)
    ensures var v := StepVerdict(w, s1.epoch + 1, rest[0]);
            && (v == Done ==> Underway(w, plan, s0, s2, rest[1..]))
            && (v != Done ==> Executed(w, plan, s0, s2, Errno(v)))
  {
    hide Reached, Completed, Settle;
    var c, k, soFar := s0.epoch, s1.epoch - s0.epoch, s1.log[|s0.log|..];
    var v := StepVerdict(w, s1.epoch + 1, rest[0]);
    assert c + k + 1 == s1.epoch + 1;
    ReachedStep(w, c, plan, k, soFar, rest, v);
    assert s2.log[|s0.log|..] == soFar + [rest[0].cmd] + Reaction(v);
    if v == Done {
      assert s2.log[|s0.log|..] == soFar + [rest[0].cmd];
    }
  }

  lemma UnderwayEnd(w: World, plan: seq<Step>, s0: Account, s1: Account)
    requires Underway(w, plan, s0, s1, [])
    ensures Executed(w, plan, s0, s1, 0)
  {
    hide Completed, Reached;
    ReachedAll(w, s0.epoch, plan, s1.epoch - s0.epoch, s1.log[|s0.log|..]);
  }

  /** A message has run: on to the next one, or the transfer is over. */
  lemma UnderwayMessage(w: World, plan: seq<Step>, s0: Account, s1: Account, s2: Account,
                        now: seq<Step>, rest: seq<Step>, ret: int)
    requires Underway(w, plan, s0, s1, now + rest) && Executed(w, now, s1, s2, ret)
    ensures ret == 0 ==> s2.epoch - s1.epoch == |now| && Underway(w, plan, s0, s2, rest)
    ensures ret != 0 ==> ret < 0 && Executed(w, plan, s0, s2, ret)
  {
    hide Trace, RunPlan, Reached;
    var c, k, soFar := s0.epoch, s1.epoch - s0.epoch, s1.log[|s0.log|..];
    assert c + k == s1.epoch;
    assert s2.log[|s0.log|..] == soFar + s2.log[|s1.log|..];
    if RunPlan(w, s1.epoch, now).fate == Done {
      SuccessLog(w, s1.epoch, now);
      ReachedMore(w, c, plan, k, soFar, now, rest);
    } else {
      ReachedEnd(w, c, plan, k, soFar, now, rest);
    }
  }

  // ---------------------------------------------------------------- one message

  /** A write: chunks of at most 255 bytes, each its own command; an empty message is one empty chunk. */
  function WritePlan(addr: byte, data: seq<byte>, stop: bool): (p: seq<Step>)
    ensures |p| > 0
    decreases |data|
  {
    var n := Min(TX_PAYLOAD_MAX, |data|);
    [Step(WriteCommand(addr, data[..n], stop), false, false)]
    + if |data| > n then WritePlan(addr, data[n..], stop) else []
  }

  /** A read: chunks of at most 256 bytes; only the final one is marked last and stops the bus. */
  function ReadPlan(sent: byte, len: nat, block: bool): seq<Step>
    decreases len
  {
    if len == 0 then []
    else
      var n := Min(RX_PAYLOAD_MAX, len);
      [Step(ReadCommand(sent, n, n == len), true, block)] + ReadPlan(sent, len - n, block)
  }

  function WriteCommand(addr: byte, chunk: seq<byte>, stop: bool): Event {
    Command(true, false, false, stop, [addr] + chunk, 0)
  }

  /** One round of the write loop, seen from the plan. */
  lemma WriteRound(w: World, plan: seq<Step>, s0: Account, s1: Account, s2: Account,
                   addr: byte, data: seq<byte>, off: nat, n: nat, stop: bool)
    requires off <= |data| && n == Min(TX_PAYLOAD_MAX, |data| - off)
    requires Underway(w, plan, s0, s1, WritePlan(addr, data[off..], stop))
    requires Polled(w, s1, s2, WriteCommand(addr, data[off..off + n], stop), false)
    ensures var v := Settle(w, s1.epoch + 1, false, 0);
            && (v != Done ==> Executed(w, plan, s0, s2, Errno(v)))
            && (v == Done ==> if off + n < |data| then Underway(w, plan, s0, s2, WritePlan(addr, data[off + n..], stop))
                              else Executed(w, plan, s0, s2, 0))
  {
    hide Underway, Executed, Settle;
    var rest := WritePlan(addr, data[off..], stop);
    assert data[off..][..n] == data[off..off + n] && data[off..][n..] == data[off + n..];
    UnderwayStep(w, plan, s0, s1, s2, rest);
    if off + n < |data| {
      assert rest[1..] == WritePlan(addr, data[off + n..], stop);
    } else {
      assert rest[1..] == [];
      if Settle(w, s1.epoch + 1, false, 0) == Done {
        UnderwayEnd(w, plan, s0, s2);
      }
    }
  }

  function ReadCommand(sent: byte, n: nat, last: bool): Event {
    Command(true, true, last, last, [sent], n)
  }

  /** One round of the read loop with `len` bytes to go, seen from the plan. */
  lemma ReadRound(w: World, plan: seq<Step>, s0: Account, s1: Account, s2: Account, sent: byte, len: nat, n: nat,
                  block: bool)
    requires len > 0 && n == Min(RX_PAYLOAD_MAX, len)
    requires Underway(w, plan, s0, s1, ReadPlan(sent, len, block))
    requires Polled(w, s1, s2, ReadCommand(sent, n, n == len), true)
    ensures var v := StepVerdict(w, s1.epoch + 1, Step(ReadCommand(sent, n, n == len), true, block));
            && (v != Done ==> Executed(w, plan, s0, s2, Errno(v)))
            && (v == Done ==> Underway(w, plan, s0, s2, ReadPlan(sent, len - n, block)))
  {
    hide Underway, Executed, Settle;
    var rest := ReadPlan(sent, len, block);
    assert rest[1..] == ReadPlan(sent, len - n, block);
    UnderwayStep(w, plan, s0, s1, s2, rest);
  }

  /** Size of the last chunk of a message. */
  function LastChunk(len: nat, max: nat): nat
    requires max > 0
  {
    if len == 0 then 0 else (len - 1) % max + 1
  }

  lemma LastChunkIs(len: nat, max: nat, off: nat)
    requires max > 0 && off <= len && WholeChunks(off, max)
    requires len - off <= max && (off > 0 ==> off < len)
    ensures LastChunk(len, max) == len - off
  {
    if len > 0 {
      var q :| off == q * max;
      Bits.DivModOf(q, max, len - 1 - off);
    }
  }

  ghost predicate WholeChunks(off: nat, max: nat) {
    exists q: nat :: off == q * max
  }

  lemma NoChunk(max: nat)
    ensures WholeChunks(0, max)
  {
    assert 0 == 0 * max;
  }

  /** Payload bytes on the wire, in order. */
  function Payload(p: seq<Step>): seq<byte>
    requires forall s :: s in p ==> s.cmd.Command? && |s.cmd.sent| > 0
  {
    if p == [] then [] else p[0].cmd.sent[1..] + Payload(p[1..])
  }

  /** A write puts exactly its bytes on the wire, once and in order. */
  lemma {:induction false} WritePlanIsData(addr: byte, data: seq<byte>, stop: bool)
    ensures var p := WritePlan(addr, data, stop);
            && |p| == (if data == [] then 1 else (|data| + 254) / 255)
            && (forall s :: s in p ==> s.cmd.Command? && |s.cmd.sent| > 0 && s.cmd.sent[0] == addr && !s.read
                                       && !s.block && s.cmd.transmit && !s.cmd.receive && s.cmd.want == 0
                                       && s.cmd.stop == stop)
            && (forall i :: 0 <= i < |p| - 1 ==> |p[i].cmd.sent| == 256)
            && Payload(p) == data
    decreases |data|
  {
    var n := Min(TX_PAYLOAD_MAX, |data|);
    if |data| > n {
      WritePlanIsData(addr, data[n..], stop);
      var p, rest := WritePlan(addr, data, stop), WritePlan(addr, data[n..], stop);
      assert p[1..] == rest;
      assert forall s :: s in p ==> s == p[0] || s in rest;
      assert data == data[..n] + data[n..];
      forall i | 0 <= i < |p| - 1
        ensures |p[i].cmd.sent| == 256
      {
        if i > 0 {
          assert p[i] == rest[i - 1];
        }
      }
    } else {
      assert data[..n] == data;
      assert WritePlan(addr, data, stop)[1..] == [];
    }
  }

  function Wanted(p: seq<Step>): nat
    requires forall s :: s in p ==> s.cmd.Command?
  {
    if p == [] then 0 else p[0].cmd.want + Wanted(p[1..])
  }

  /** A read asks for exactly `len` bytes, and ends the exchange on its final command only. */
  lemma {:induction false} ReadPlanIsLength(sent: byte, len: nat, block: bool)
    ensures var p := ReadPlan(sent, len, block);
            && |p| == (len + 255) / 256
            && (forall i :: 0 <= i < |p| ==>
                 && p[i].cmd.Command? && p[i].cmd.transmit && p[i].cmd.receive && p[i].cmd.sent == [sent]
                 && p[i].cmd.want == (if i < |p| - 1 then 256 else len - 256 * i)
                 && p[i].cmd.receiveLast == p[i].cmd.stop == (i == |p| - 1)
                 && p[i].read && p[i].block == block)
            && Wanted(p) == len
    decreases len
  {
    if len > 0 {
      var n := Min(RX_PAYLOAD_MAX, len);
      ReadPlanIsLength(sent, len - n, block);
      var p, rest := ReadPlan(sent, len, block), ReadPlan(sent, len - n, block);
      assert p[1..] == rest;
      forall i | 0 <= i < |p|
        ensures p[i].cmd.Command? && p[i].cmd.transmit && p[i].cmd.receive && p[i].cmd.sent == [sent]
        ensures p[i].read && p[i].block == block
        ensures p[i].cmd.want == (if i < |p| - 1 then 256 else len - 256 * i)
        ensures p[i].cmd.receiveLast == p[i].cmd.stop == (i == |p| - 1)
      {
        if i > 0 {
          assert p[i] == rest[i - 1];
        }
      }
    }
  }

  /** Commands `c + 1` to `c + n` saw TX_DONE. */
  ghost predicate AllTxDone(w: World, c: nat, n: nat) {
    forall k: nat :: c < k <= c + n ==> TxDone(w, k)
  }

  /** Commands `c + 1` to `c + n` saw RX_DONE. */
  ghost predicate AllRxDone(w: World, c: nat, n: nat) {
    forall k: nat :: c < k <= c + n ==> RxDone(w, k)
  }

  /** A write succeeds exactly when each of its chunks saw TX_DONE. */
  lemma WriteDoneIff(w: World, c: nat, addr: byte, data: seq<byte>, stop: bool)
    ensures RunPlan(w, c, WritePlan(addr, data, stop)).fate == Done <==>
            AllTxDone(w, c, if data == [] then 1 else (|data| + 254) / 255)
  {
    hide RunPlan, TxDone, RxDone, WritePlan;
    var plan := WritePlan(addr, data, stop);
    WritePlanIsData(addr, data, stop);
    SuccessIff(w, c, plan);
    forall k: nat | c < k <= c + |plan|
      ensures TxDone(w, k) <==> StepDone(w, c + 1 + (k - c - 1), plan[k - c - 1])
    {
      assert plan[k - c - 1] in plan;
    }
  }

  /** A read succeeds exactly when each of its chunks saw RX_DONE and, if it is a block read, the count is legal. */
  lemma ReadDoneIff(w: World, c: nat, sent: byte, len: nat, block: bool)
    requires block ==> len == BLOCK_MAX
    ensures RunPlan(w, c, ReadPlan(sent, len, block)).fate == Done <==>
            AllRxDone(w, c, (len + 255) / 256) && (block ==> w.reply(c + 1)[0] <= 32)
  {
    hide RunPlan, TxDone, RxDone, ReadPlan;
    var plan := ReadPlan(sent, len, block);
    ReadPlanIsLength(sent, len, block);
    SuccessIff(w, c, plan);
    forall k: nat | c < k <= c + |plan|
      ensures RxDone(w, k) && (block ==> w.reply(k)[0] <= 32) <==>
              StepDone(w, c + 1 + (k - c - 1), plan[k - c - 1])
    {
    }
  }

  /** The bytes a plain read of `len` delivers when `c` commands came before. */
  function Received(w: World, c: nat, len: nat): (r: seq<byte>)
    ensures |r| == len
    decreases len
  {
    if len == 0 then []
    else
      var n := Min(RX_PAYLOAD_MAX, len);
      w.reply(c + 1)[..n] + Received(w, c + 1, len - n)
  }

  /** Byte `i` of a read is byte `i % 256` of the answer to its command `i / 256`. */
  lemma {:induction false} ReceivedAt(w: World, c: nat, len: nat, i: nat)
    requires i < len
    ensures Received(w, c, len)[i] == w.reply(c + 1 + i / 256)[i % 256]
    decreases len
  {
    if i >= 256 {
      ReceivedAt(w, c + 1, len - 256, i - 256);
    }
  }

  /** The first `n` bytes of a read are a read of `n` bytes. */
  lemma ReceivedPrefix(w: World, c: nat, len: nat, n: nat)
    requires n <= len
    ensures Received(w, c, len)[..n] == Received(w, c, n)
  {
    hide Received;
    forall i | 0 <= i < n
      ensures Received(w, c, len)[i] == Received(w, c, n)[i]
    {
      ReceivedAt(w, c, len, i);
      ReceivedAt(w, c, n, i);
    }
  }

  /** A run that fails has started a command, and no more than planned. */
  lemma FailureStarted(w: World, plan: seq<Step>, s0: Account, s1: Account, ret: int)
    requires Executed(w, plan, s0, s1, ret) && ret != 0
    ensures 1 <= s1.epoch - s0.epoch <= |plan|
  {
    hide Verdicts;
    RunIs(Verdicts(w, s0.epoch, plan));
  }

  lemma ExecutedOk(w: World, plan: seq<Step>, s0: Account, s1: Account, ret: int)
    requires Executed(w, plan, s0, s1, ret)
    ensures ret == 0 <==> RunPlan(w, s0.epoch, plan).fate == Done
  {
    hide RunPlan, Trace;
  }

  lemma WriteDone(w: World, addr: byte, data: seq<byte>, stop: bool, s0: Account, s1: Account, ret: int)
    requires Executed(w, WritePlan(addr, data, stop), s0, s1, ret)
    ensures ret == 0 <==> AllTxDone(w, s0.epoch, if data == [] then 1 else (|data| + 254) / 255)
  {
    hide RunPlan, Executed, AllTxDone;
    ExecutedOk(w, WritePlan(addr, data, stop), s0, s1, ret);
    WriteDoneIff(w, s0.epoch, addr, data, stop);
  }

  lemma ReadDone(w: World, sent: byte, len: nat, block: bool, s0: Account, s1: Account, ret: int)
    requires Executed(w, ReadPlan(sent, len, block), s0, s1, ret) && (block ==> len == BLOCK_MAX)
    ensures ret == 0 <==> AllRxDone(w, s0.epoch, (len + 255) / 256) && (block ==> w.reply(s0.epoch + 1)[0] <= 32)
  {
    hide RunPlan, Executed, AllRxDone;
    ExecutedOk(w, ReadPlan(sent, len, block), s0, s1, ret);
    ReadDoneIff(w, s0.epoch, sent, len, block);
  }

  /** Length of a block message: count byte, data, and the checksum if there is one. */
  function BlockLen(answer: Reply, pec: bool): nat {
    var count: int := answer[0];
    count + if pec then 2 else 1
  }

  /** What a block read hands over: its `n` bytes come from a 32-byte answer in an uncleared local buffer. */
  function BlockDelivered(answer: Reply, stack: seq<byte>, n: nat): (d: seq<byte>)
    requires |stack| == IOBUF_SIZE && n <= IOBUF_SIZE
    ensures |d| == n
  {
    (answer[..BLOCK_MAX] + stack[BLOCK_MAX..])[..n]
  }

  /** Count and checksum included, a block read is all device data exactly when it fits in 32 bytes. */
  lemma BlockReadIsAnswerIff(answer: Reply, n: nat)
    requires n <= IOBUF_SIZE
    ensures (forall stack: seq<byte> | |stack| == IOBUF_SIZE :: BlockDelivered(answer, stack, n) == answer[..n])
            <==> n <= BLOCK_MAX
  {
    if n <= BLOCK_MAX {
      forall stack: seq<byte> | |stack| == IOBUF_SIZE
        ensures BlockDelivered(answer, stack, n) == answer[..n]
      {
      }
    } else {
      var other: byte := if answer[BLOCK_MAX] == 0 then 1 else 0;
      var stack: seq<byte> := seq(IOBUF_SIZE, _ => other);
      assert BlockDelivered(answer, stack, n)[BLOCK_MAX] == other != answer[..n][BLOCK_MAX];
    }
  }

  lemma ReceivedNext(w: World, c: nat, len: nat, n: nat)
    requires len > 0 && n == Min(RX_PAYLOAD_MAX, len)
    ensures Received(w, c, len)[..n] == w.reply(c + 1)[..n] && Received(w, c, len)[n..] == Received(w, c + 1, len - n)
  {
  }

  /** The buffer has got `n` bytes on: what is received so far, and then what it held before. */
  lemma BytesNext(all: seq<byte>, off: nat, n: nat, more: seq<byte>, start: seq<byte>, buf: seq<byte>, buf': seq<byte>)
    requires off + n <= |all| <= |start| && buf == all[..off] + start[off..] && more == all[off..][..n]
    requires buf' == buf[..off] + more + buf[off + n..]
    ensures all[off + n..] == all[off..][n..] && buf' == all[..off + n] + start[off + n..]
  {
    assert all[..off + n] == all[..off] + all[off..][..n];
  }

  // ---------------------------------------------------------------- the two loops, seen from the plan

  /** A write of `data` has got to byte `off`, with another chunk to come. */
  ghost predicate Writing(w: World, s0: Account, s: Account, addr: byte, data: seq<byte>, stop: bool, off: nat) {
    && off <= |data| && (off > 0 ==> off < |data|)
    && off == TX_PAYLOAD_MAX * (s.epoch - s0.epoch)
    && Underway(w, WritePlan(addr, data, stop), s0, s, WritePlan(addr, data[off..], stop))
  }

  lemma WritingStart(w: World, s0: Account, addr: byte, data: seq<byte>, stop: bool)
    ensures Writing(w, s0, s0, addr, data, stop, 0)
  {
    hide Underway, WritePlan;
    UnderwayStart(w, WritePlan(addr, data, stop), s0);
    assert data[0..] == data;
  }

  lemma WritingStep(w: World, s0: Account, s1: Account, s2: Account, addr: byte, data: seq<byte>, stop: bool,
                    off: nat, n: nat, ret: int)
    requires Writing(w, s0, s1, addr, data, stop, off) && n == Min(TX_PAYLOAD_MAX, |data| - off)
    requires Polled(w, s1, s2, WriteCommand(addr, data[off..off + n], stop), false)
    requires ret == Errno(Settle(w, s1.epoch + 1, false, 0))
    ensures ret == 0 && off + n < |data| ==> Writing(w, s0, s2, addr, data, stop, off + n)
    ensures ret == 0 && off + n == |data| ==>
              Executed(w, WritePlan(addr, data, stop), s0, s2, 0) && LastChunk(|data|, TX_PAYLOAD_MAX) == n
    ensures ret != 0 ==>
              var sent := Min(|data|, TX_PAYLOAD_MAX * (s2.epoch - s0.epoch));
              && Executed(w, WritePlan(addr, data, stop), s0, s2, ret)
              && sent >= 0 && LastChunk(sent, TX_PAYLOAD_MAX) == n
  {
    hide Underway, Executed, WritePlan, LastChunk, Settle, Polled, WriteCommand;
    PolledOne(w, s1, s2, WriteCommand(addr, data[off..off + n], stop), false);
    WriteRound(w, WritePlan(addr, data, stop), s0, s1, s2, addr, data, off, n, stop);
    WholeChunksIs(off, s1.epoch - s0.epoch, TX_PAYLOAD_MAX);
    LastChunkIs(off + n, TX_PAYLOAD_MAX, off);
  }

  /** A plain read of `len` bytes into a buffer that held `start` has got to byte `off`; the buffer holds `buf`. */
  ghost predicate Reading(w: World, s0: Account, s: Account, sent: byte, len: nat, off: nat,
                          start: seq<byte>, buf: seq<byte>)
  {
    var all := Received(w, s0.epoch, len);
    && off <= len <= |start|
    && Underway(w, ReadPlan(sent, len, false), s0, s, ReadPlan(sent, len - off, false))
    && (off < len ==> off == RX_PAYLOAD_MAX * (s.epoch - s0.epoch))
    && all[off..] == Received(w, s.epoch, len - off)
    && buf == all[..off] + start[off..]
  }

  lemma ReadingStart(w: World, s0: Account, sent: byte, len: nat, start: seq<byte>)
    requires len <= |start|
    ensures Reading(w, s0, s0, sent, len, 0, start, start)
  {
    hide Underway, ReadPlan, Received;
    UnderwayStart(w, ReadPlan(sent, len, false), s0);
    assert Received(w, s0.epoch, len)[0..] == Received(w, s0.epoch, len - 0);
    assert start == Received(w, s0.epoch, len)[..0] + start[0..];
  }

  lemma ReadingStep(w: World, s0: Account, s1: Account, s2: Account, sent: byte, len: nat, off: nat, n: nat,
                    start: seq<byte>, buf: seq<byte>, buf': seq<byte>, ret: int)
    requires Reading(w, s0, s1, sent, len, off, start, buf) && off < len && n == Min(RX_PAYLOAD_MAX, len - off)
    requires Polled(w, s1, s2, ReadCommand(sent, n, n == len - off), true)
    requires ret == Errno(Settle(w, s1.epoch + 1, true, 0)) && |buf| == |start|
    requires buf' == if ret == 0 then buf[..off] + w.reply(s2.epoch)[..n] + buf[off + n..] else buf
    ensures ret == 0 ==> Reading(w, s0, s2, sent, len, off + n, start, buf')
    ensures off + n == len ==> LastChunk(len, RX_PAYLOAD_MAX) == n
    ensures ret != 0 ==>
              var m := RX_PAYLOAD_MAX * (s2.epoch - s0.epoch - 1);
              && Executed(w, ReadPlan(sent, len, false), s0, s2, ret)
              && 0 <= m < len && buf' == Received(w, s0.epoch, m) + start[m..]
  {
    hide Underway, Executed, ReadPlan, Received, LastChunk, Settle, Polled;
    var all := Received(w, s0.epoch, len);
    assert s2.epoch == s1.epoch + 1 by { PolledOne(w, s1, s2, ReadCommand(sent, n, n == len - off), true); }
    ReadRound(w, ReadPlan(sent, len, false), s0, s1, s2, sent, len - off, n, false);
    WholeChunksIs(off, s1.epoch - s0.epoch, RX_PAYLOAD_MAX);
    if off + n == len {
      LastChunkIs(len, RX_PAYLOAD_MAX, off);
    }
    if ret == 0 {
      assert len - off - n == len - (off + n);
      ReceivedNext(w, s1.epoch, len - off, n);
      BytesNext(all, off, n, w.reply(s2.epoch)[..n], start, buf, buf');
    } else {
      ReceivedPrefix(w, s0.epoch, len, off);
    }
  }

  lemma PolledOne(w: World, s1: Account, s2: Account, cmd: Event, read: bool)
    requires Polled(w, s1, s2, cmd, read)
    ensures s2.epoch == s1.epoch + 1
  {
  }

  lemma WholeChunksIs(off: nat, q: int, max: nat)
    requires off == max * q && max > 0
    ensures WholeChunks(off, max)
  {
    MulSign(q, max);
    assert off == q * max;
  }

  lemma ReadingEnd(w: World, s0: Account, s1: Account, sent: byte, len: nat, start: seq<byte>, buf: seq<byte>)
    requires Reading(w, s0, s1, sent, len, len, start, buf)
    ensures Executed(w, ReadPlan(sent, len, false), s0, s1, 0)
    ensures buf == Received(w, s0.epoch, len) + start[len..]
  {
    hide Underway, Executed;
    assert ReadPlan(sent, len - len, false) == [];
    UnderwayEnd(w, ReadPlan(sent, len, false), s0, s1);
  }
}
