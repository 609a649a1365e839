/** A whole I2C transfer as the caller of fbiob_i2c_master_xfer describes it, and its plan. */
module I2cTransfer {
  import opened Bits
  import opened I2cController
  import opened I2cPlan

  /** One message: a write of `data`, or a read of `len` bytes (32 for a block read). */
  datatype Msg = Msg(addr: nat, read: bool, block: bool, pec: bool, len: nat, data: seq<byte>) {
    predicate Valid() {
      addr <= 0x7F && (read && block ==> len == BLOCK_MAX)
    }

    /** The 8-bit address: seven bits and the direction. */
    function AddrByte(): byte
      requires Valid()
    {
      2 * addr + if read then 1 else 0
    }

    /** Commands the message takes. */
    function Chunks(): nat {
      if read then (len + 255) / 256 else if data == [] then 1 else (|data| + 254) / 255
    }
  }

  /** What the driver carries from one message to the next: the selected page, and the byte sent as address. */
  datatype Pages = Pages(high: bool, first: byte)

  /** The address byte the controller really sends for `m`: a read loads it into whatever page is selected. */
  function Sent(m: Msg, p: Pages): byte
    requires m.Valid()
  {
    if m.read && p.high then p.first else m.AddrByte()
  }

  function MsgPlan(m: Msg, last: bool, p: Pages): seq<Step>
    requires m.Valid()
  {
    if m.read then ReadPlan(Sent(m, p), m.len, m.block) else WritePlan(Sent(m, p), m.data, last)
  }

  function After(m: Msg, p: Pages): Pages
    requires m.Valid()
  {
    Pages(if !m.read then LastChunk(|m.data|, TX_PAYLOAD_MAX) > IOBUF_SIZE - 1
          else if m.len == 0 then p.high
          else LastChunk(m.len, RX_PAYLOAD_MAX) > IOBUF_SIZE,
          Sent(m, p))
  }

  ghost predicate AllValid(msgs: seq<Msg>) {
    forall i :: 0 <= i < |msgs| ==> msgs[i].Valid()
  }

  /** The commands of all messages in order. */
  function TransferPlan(msgs: seq<Msg>, p: Pages): seq<Step>
    requires AllValid(msgs)
  {
    if msgs == [] then []
    else MsgPlan(msgs[0], |msgs| == 1, p) + TransferPlan(msgs[1..], After(msgs[0], p))
  }

  function ChunksBefore(msgs: seq<Msg>, i: nat): nat
    requires i <= |msgs|
  {
    if i == 0 then 0 else ChunksBefore(msgs, i - 1) + msgs[i - 1].Chunks()
  }

  lemma ChunksBeforeNext(msgs: seq<Msg>, i: nat)
    requires i < |msgs|
    ensures ChunksBefore(msgs, 0) == 0 && ChunksBefore(msgs, i + 1) == ChunksBefore(msgs, i) + msgs[i].Chunks()
  {
  }

  lemma MsgPlanSize(m: Msg, last: bool, p: Pages)
    requires m.Valid()
    ensures |MsgPlan(m, last, p)| == m.Chunks()
  {
    if m.read {
      ReadPlanIsLength(Sent(m, p), m.len, m.block);
    } else {
      WritePlanIsData(Sent(m, p), m.data, last);
    }
  }

  lemma {:induction false} ChunksBeforeTail(msgs: seq<Msg>, i: nat)
    requires 0 < i <= |msgs|
    ensures ChunksBefore(msgs, i) == msgs[0].Chunks() + ChunksBefore(msgs[1..], i - 1)
  {
    if i > 1 {
      ChunksBeforeTail(msgs, i - 1);
      assert msgs[1..][i - 2] == msgs[i - 1];
    }
  }

  lemma {:induction false} TransferPlanSize(msgs: seq<Msg>, p: Pages)
    requires AllValid(msgs)
    ensures |TransferPlan(msgs, p)| == ChunksBefore(msgs, |msgs|)
    decreases |msgs|
  {
    if msgs != [] {
      hide MsgPlan, After, Msg.Chunks;
      MsgPlanSize(msgs[0], |msgs| == 1, p);
      TransferPlanSize(msgs[1..], After(msgs[0], p));
      ChunksBeforeTail(msgs, |msgs|);
    }
  }

  lemma TransferPlanStep(msgs: seq<Msg>, i: nat, p: Pages)
    requires AllValid(msgs) && i < |msgs|
    ensures TransferPlan(msgs[i..], p)
         == MsgPlan(msgs[i], i + 1 == |msgs|, p) + TransferPlan(msgs[i + 1..], After(msgs[i], p))
  {
    hide MsgPlan, After;
    assert msgs[i..][1..] == msgs[i + 1..];
  }

  /** Every command of message `m`, which follow command `c`, was done. */
  ghost predicate Fulfilled(w: World, m: Msg, c: nat) {
    if m.read then AllRxDone(w, c, m.Chunks()) && (m.block ==> w.reply(c + 1)[0] <= 32)
    else AllTxDone(w, c, m.Chunks())
  }

  lemma FulfilledIs(w: World, m: Msg, last: bool, p: Pages, c: nat)
    requires m.Valid() && (m.block ==> m.read)
    ensures Fulfilled(w, m, c) <==> RunPlan(w, c, MsgPlan(m, last, p)).fate == Done
  {
    hide RunPlan, AllTxDone, AllRxDone;
    if m.read {
      ReadDoneIff(w, c, Sent(m, p), m.len, m.block);
    } else {
      WriteDoneIff(w, c, Sent(m, p), m.data, last);
    }
  }

  /** The same for all messages of a transfer that follow command `c`. */
  ghost predicate AllFulfilled(w: World, ms: seq<Msg>, c: nat) {
    ms == [] || (Fulfilled(w, ms[0], c) && AllFulfilled(w, ms[1..], c + ms[0].Chunks()))
  }

  /** A transfer succeeds exactly when every command of every message is done. */
  lemma {:induction false} TransferDoneIff(w: World, ms: seq<Msg>, p: Pages, c: nat)
    requires AllValid(ms) && forall i :: 0 <= i < |ms| && ms[i].block ==> ms[i].read
    ensures RunPlan(w, c, TransferPlan(ms, p)).fate == Done <==> AllFulfilled(w, ms, c)
    decreases |ms|
  {
    hide RunPlan, Trace, Fulfilled, MsgPlan, After, Msg.Chunks;
    if ms == [] {
      NothingToRun(w, c);
    } else {
      var now, q := MsgPlan(ms[0], |ms| == 1, p), After(ms[0], p);
      FulfilledIs(w, ms[0], |ms| == 1, p, c);
      MsgPlanSize(ms[0], |ms| == 1, p);
      TraceConcat(w, c, now, TransferPlan(ms[1..], q));
      TransferDoneIff(w, ms[1..], q, c + |now|);
    }
  }

  lemma NothingToRun(w: World, c: nat)
    ensures RunPlan(w, c, []).fate == Done && AllFulfilled(w, [], c)
  {
  }

  /** The commands of message `i` stand together in the plan, after those of the messages before it. */
  lemma {:induction false} PlanOfMessage(msgs: seq<Msg>, p: Pages, i: nat)
    requires AllValid(msgs) && i < |msgs|
    ensures var at := ChunksBefore(msgs, i);
            && at + msgs[i].Chunks() <= |TransferPlan(msgs, p)|
            && TransferPlan(msgs, p)[at..at + msgs[i].Chunks()]
                 == MsgPlan(msgs[i], i + 1 == |msgs|, PagesAt(msgs, p, i))
    decreases i
  {
    hide MsgPlan, Msg.Chunks, After;
    var now, rest := MsgPlan(msgs[0], |msgs| == 1, p), TransferPlan(msgs[1..], After(msgs[0], p));
    MsgPlanSize(msgs[0], |msgs| == 1, p);
    if i == 0 {
      assert (now + rest)[0..|now|] == now;
    } else {
      PlanOfMessage(msgs[1..], After(msgs[0], p), i - 1);
      ChunksBeforeTail(msgs, i);
      PagesAtTail(msgs, p, i);
      SliceAfter(now, rest, ChunksBefore(msgs[1..], i - 1), msgs[i].Chunks());
    }
  }

  lemma SliceAfter(a: seq<Step>, b: seq<Step>, at: nat, n: nat)
    requires at + n <= |b|
    ensures (a + b)[|a| + at..|a| + at + n] == b[at..at + n]
  {
  }

  lemma {:induction false} PagesAtTail(msgs: seq<Msg>, p: Pages, i: nat)
    requires AllValid(msgs) && 0 < i <= |msgs|
    ensures PagesAt(msgs, p, i) == PagesAt(msgs[1..], After(msgs[0], p), i - 1)
  {
    if i > 1 {
      PagesAtTail(msgs, p, i - 1);
      assert msgs[1..][i - 2] == msgs[i - 1];
    }
  }

  // ---------------------------------------------------------------- addresses

  /** Pages in force before message `i`. */
  function PagesAt(msgs: seq<Msg>, p: Pages, i: nat): Pages
    requires AllValid(msgs) && i <= |msgs|
  {
    if i == 0 then p else After(msgs[i - 1], PagesAt(msgs, p, i - 1))
  }

  /**
   A read before which the high page is still selected and another address byte is in the buffer. A message whose last
   chunk spills into the high page leaves it selected; so may the transfer before, in pages `p`.
   */
  predicate Stale(msgs: seq<Msg>, p: Pages, i: nat)
    requires AllValid(msgs) && i < |msgs|
  {
    && msgs[i].read
    && if i == 0 then p.high && p.first != msgs[0].AddrByte()
       else if !msgs[i - 1].read then SpillsSent(msgs[i - 1])
       else Stale(msgs, p, i - 1) && (msgs[i - 1].len == 0 || SpillsReceived(msgs[i - 1]))
  }

  predicate SpillsSent(m: Msg) {
    LastChunk(|m.data|, TX_PAYLOAD_MAX) > IOBUF_SIZE - 1
  }

  predicate SpillsReceived(m: Msg) {
    LastChunk(m.len, RX_PAYLOAD_MAX) > IOBUF_SIZE
  }

  /**
   In a transfer, which has one slave address, a message carries its own address exactly when it is not a stale read,
   whatever pages the transfer finds.
   */
  lemma {:induction false} AddressedIff(msgs: seq<Msg>, p: Pages, i: nat)
    requires AllValid(msgs) && i < |msgs|
    requires forall j :: 0 <= j < |msgs| ==> msgs[j].addr == msgs[0].addr
    ensures Sent(msgs[i], PagesAt(msgs, p, i)) == msgs[i].AddrByte() <==> !Stale(msgs, p, i)
  {
    hide LastChunk;
    if i > 0 {
      AddressedIff(msgs, p, i - 1);
    }
  }

  /** Whether the high page is selected before message `i`. */
  predicate HighBefore(msgs: seq<Msg>, p: Pages, i: nat)
    requires i <= |msgs|
  {
    if i == 0 then p.high
    else if !msgs[i - 1].read then SpillsSent(msgs[i - 1])
    else if msgs[i - 1].len == 0 then HighBefore(msgs, p, i - 1)
    else SpillsReceived(msgs[i - 1])
  }

  /** A read that finds the high page selected, after a message to another slave or in the other direction. */
  predicate Misled(msgs: seq<Msg>, p: Pages, i: nat)
    requires AllValid(msgs) && i < |msgs|
  {
    && msgs[i].read && HighBefore(msgs, p, i)
    && msgs[i].AddrByte() != if i == 0 then p.first else msgs[i - 1].AddrByte()
  }

  predicate Addressed(msgs: seq<Msg>, p: Pages, i: nat)
    requires AllValid(msgs) && i < |msgs|
  {
    Sent(msgs[i], PagesAt(msgs, p, i)) == msgs[i].AddrByte()
  }

  /**
   Over any sequence of messages, of one transfer or of many, to any slaves: all of them carry their own address exactly
   when none is a read that finds the high page selected after a message with another address byte.
   */
  lemma AllAddressedIff(msgs: seq<Msg>, p: Pages)
    requires AllValid(msgs)
    ensures (forall i :: 0 <= i < |msgs| ==> Addressed(msgs, p, i)) <==>
            (forall i :: 0 <= i < |msgs| ==> !Misled(msgs, p, i))
  {
    hide Addressed, Misled;
    if forall i :: 0 <= i < |msgs| ==> Addressed(msgs, p, i) {
      forall i | 0 <= i < |msgs|
        ensures !Misled(msgs, p, i)
      {
        AddressedNext(msgs, p, i);
      }
    } else if forall i :: 0 <= i < |msgs| ==> !Misled(msgs, p, i) {
      AddressedUpTo(msgs, p, |msgs|);
    }
  }

  lemma {:induction false} AddressedUpTo(msgs: seq<Msg>, p: Pages, n: nat)
    requires AllValid(msgs) && n <= |msgs|
    requires forall i :: 0 <= i < n ==> !Misled(msgs, p, i)
    ensures forall i :: 0 <= i < n ==> Addressed(msgs, p, i)
  {
    hide Addressed, Misled;
    if n > 0 {
      AddressedUpTo(msgs, p, n - 1);
      AddressedNext(msgs, p, n - 1);
    }
  }

  lemma AddressedNext(msgs: seq<Msg>, p: Pages, i: nat)
    requires AllValid(msgs) && i < |msgs| && forall j :: 0 <= j < i ==> Addressed(msgs, p, j)
    ensures Addressed(msgs, p, i) <==> !Misled(msgs, p, i)
  {
    hide SpillsSent, SpillsReceived;
    HighIs(msgs, p, i);
    assert i > 0 ==> Addressed(msgs, p, i - 1);
  }

  lemma {:induction false} HighIs(msgs: seq<Msg>, p: Pages, i: nat)
    requires AllValid(msgs) && i <= |msgs|
    ensures PagesAt(msgs, p, i).high == HighBefore(msgs, p, i)
  {
    if i > 0 {
      HighIs(msgs, p, i - 1);
    }
  }

  /** The pages of one sequence of messages and then another are those of both together. */
  lemma {:induction false} PagesAtConcat(a: seq<Msg>, b: seq<Msg>, p: Pages, i: nat)
    requires AllValid(a) && AllValid(b) && i <= |b|
    ensures AllValid(a + b) && PagesAt(a + b, p, |a| + i) == PagesAt(b, PagesAt(a, p, |a|), i)
  {
    hide After;
    if i > 0 {
      PagesAtConcat(a, b, p, i - 1);
      assert (a + b)[|a| + i - 1] == b[i - 1];
    } else {
      PagesAtPrefix(a, b, p, |a|);
    }
  }

  lemma {:induction false} PagesAtPrefix(a: seq<Msg>, b: seq<Msg>, p: Pages, i: nat)
    requires AllValid(a) && AllValid(b) && i <= |a|
    ensures AllValid(a + b) && PagesAt(a + b, p, i) == PagesAt(a, p, i)
  {
    hide After;
    if i > 0 {
      PagesAtPrefix(a, b, p, i - 1);
    }
  }

  // ---------------------------------------------------------------- one transfer after another

  ghost predicate AllTransfersValid(ts: seq<seq<Msg>>) {
    forall t :: 0 <= t < |ts| ==> AllValid(ts[t])
  }

  /** The messages of all transfers in order. */
  function Flat(ts: seq<seq<Msg>>): seq<Msg> {
    if ts == [] then [] else Flat(ts[..|ts| - 1]) + ts[|ts| - 1]
  }

  /** The pages left after transfers that begin with pages `p`, each finding what the one before left. */
  function Threaded(ts: seq<seq<Msg>>, p: Pages): Pages
    requires AllTransfersValid(ts)
  {
    if ts == [] then p
    else var n := |ts| - 1; PagesAt(ts[n], Threaded(ts[..n], p), |ts[n]|)
  }

  /** Every message of every transfer carries its own address. */
  ghost predicate AllSent(ts: seq<seq<Msg>>, p: Pages)
    requires AllTransfersValid(ts)
  {
    ts == [] ||
    var n := |ts| - 1;
    AllSent(ts[..n], p) && forall i :: 0 <= i < |ts[n]| ==> Addressed(ts[n], Threaded(ts[..n], p), i)
  }

  /**
   Over any sequence of transfers, whatever they carried out: all messages carry their own address exactly when none is
   a read that finds the high page selected after a message, of its own or of an earlier transfer, with another one.
   */
  lemma SessionAddressedIff(ts: seq<seq<Msg>>, p: Pages)
    requires AllTransfersValid(ts)
    ensures AllValid(Flat(ts))
    ensures AllSent(ts, p) <==> forall i :: 0 <= i < |Flat(ts)| ==> !Misled(Flat(ts), p, i)
  {
    hide Addressed, Misled, AllSent, Flat;
    FlatSent(ts, p);
    AllAddressedIff(Flat(ts), p);
  }

  lemma {:induction false} FlatSent(ts: seq<seq<Msg>>, p: Pages)
    requires AllTransfersValid(ts)
    ensures AllValid(Flat(ts)) && Threaded(ts, p) == PagesAt(Flat(ts), p, |Flat(ts)|)
    ensures AllSent(ts, p) <==> forall i :: 0 <= i < |Flat(ts)| ==> Addressed(Flat(ts), p, i)
    decreases |ts|
  {
    if ts != [] {
      hide PagesAt, Addressed;
      var n := |ts| - 1;
      var a, b := Flat(ts[..n]), ts[n];
      FlatSent(ts[..n], p);
      PagesAtConcat(a, b, p, |b|);
      SentConcat(a, b, p);
    }
  }

  lemma SentConcat(a: seq<Msg>, b: seq<Msg>, p: Pages)
    requires AllValid(a) && AllValid(b) && AllValid(a + b)
    ensures (forall i :: 0 <= i < |a + b| ==> Addressed(a + b, p, i)) <==>
            && (forall i :: 0 <= i < |a| ==> Addressed(a, p, i))
            && (forall i :: 0 <= i < |b| ==> Addressed(b, PagesAt(a, p, |a|), i))
  {
    hide Addressed, PagesAt;
    if forall i :: 0 <= i < |a + b| ==> Addressed(a + b, p, i) {
      forall i | 0 <= i < |a|
        ensures Addressed(a, p, i)
      {
        SentAt(a, b, p, i);
      }
      forall i | 0 <= i < |b|
        ensures Addressed(b, PagesAt(a, p, |a|), i)
      {
        SentAt(a, b, p, |a| + i);
      }
    } else {
      var i :| 0 <= i < |a + b| && !Addressed(a + b, p, i);
      SentAt(a, b, p, i);
    }
  }

  lemma SentAt(a: seq<Msg>, b: seq<Msg>, p: Pages, i: nat)
    requires AllValid(a) && AllValid(b) && AllValid(a + b) && i < |a| + |b|
    ensures Addressed(a + b, p, i) ==
            if i < |a| then Addressed(a, p, i) else Addressed(b, PagesAt(a, p, |a|), i - |a|)
  {
    hide Sent, PagesAt;
    if i < |a| {
      PagesAtPrefix(a, b, p, i);
    } else {
      PagesAtConcat(a, b, p, i - |a|);
      assert (a + b)[i] == b[i - |a|];
    }
  }

  /** The first command of a write of 128 bytes followed by a read: the read goes out as a write. */
  lemma ReadAfterLongWrite(addr: nat, data: seq<byte>, first: byte)
    requires addr <= 0x7F && |data| == 128
    ensures var write := Msg(addr, false, false, false, 128, data);
            var read := Msg(addr, true, false, false, 1, []);
            var plan := TransferPlan([write, read], Pages(false, first));
            |plan| == 2 && plan[1].cmd == ReadCommand(2 * addr, 1, true)
  {
    var write, read := Msg(addr, false, false, false, 128, data), Msg(addr, true, false, false, 1, []);
    var msgs := [write, read];
    var p := Pages(false, first);
    assert msgs[1..] == [read] && [read][1..] == [];
    MsgPlanSize(write, false, p);
    ShortRead(read, After(write, p));
  }

  lemma ShortRead(read: Msg, p: Pages)
    requires read.Valid() && read.read && !read.block && read.len == 1
    ensures TransferPlan([read], p) == [Step(ReadCommand(Sent(read, p), 1, true), true, false)]
  {
    var sent := Sent(read, p);
    assert [read][1..] == [];
    assert ReadPlan(sent, 1, false) == [Step(ReadCommand(sent, 1, true), true, false)] + ReadPlan(sent, 0, false);
  }

  /**
   Two transfers: after a write of 128 bytes to slave `a`, or a read of 129 bytes from it, the read of slave `b` in the
   next transfer goes out with the address byte of `a`.
   */
  lemma ReadOfWrongSlave(a: nat, b: nat, data: seq<byte>, first: byte, write: bool)
    requires a <= 0x7F && b <= 0x7F && |data| == 128
    ensures var before := if write then Msg(a, false, false, false, 128, data) else Msg(a, true, false, false, 129, []);
            var read := Msg(b, true, false, false, 1, []);
            var left := PagesAt([before], Pages(false, first), 1);
            var plan := TransferPlan([read], left);
            |plan| == 1 && plan[0].cmd == ReadCommand(before.AddrByte(), 1, true)
  {
    var before := if write then Msg(a, false, false, false, 128, data) else Msg(a, true, false, false, 129, []);
    var left := After(before, PagesAt([before], Pages(false, first), 0));
    ShortRead(Msg(b, true, false, false, 1, []), left);
  }

  // ---------------------------------------------------------------- what a transfer leaves

  /** The mutable part of a message: its length and its buffer. */
  datatype Held = Held(len: nat, bytes: seq<byte>)

  /**
   What the caller finds in a message after a successful transfer, where `before` was,
   when `c` commands of the transfer and of earlier ones came first.
   */
  ghost predicate Delivered(m: Msg, before: Held, after: Held, w: World, c: nat, stack: seq<byte>)
    requires |stack| == IOBUF_SIZE
  {
    if !m.read then after == before
    else if !m.block then
      && after.len == before.len == m.len <= |before.bytes|
      && after.bytes == Received(w, c, m.len) + before.bytes[m.len..]
    else
      && after.len == BlockLen(w.reply(c + 1), m.pec) <= 34 <= |before.bytes|
      && after.bytes == BlockDelivered(w.reply(c + 1), stack, after.len) + before.bytes[after.len..]
  }

  /** As much of a message as was carried out when its `k`th command failed. */
  function Carried(m: Msg, k: nat): (c: Msg)
    requires m.Valid()
    ensures c.Valid() && c.read == m.read && c.AddrByte() == m.AddrByte()
  {
    if !m.read then m.(data := m.data[..Min(|m.data|, TX_PAYLOAD_MAX * k)]) else if m.block then m else m.(len := 1)
  }

  /**
   What is found after message `m` failed in its `k`th command: a plain read has filled in its first `k - 1` chunks,
   and nothing else of it has changed.
   */
  ghost predicate Broken(m: Msg, before: Held, after: Held, w: World, c: nat, k: int) {
    && 1 <= k <= m.Chunks()
    && if !m.read || m.block then after == before
       else
         var n := RX_PAYLOAD_MAX * (k - 1);
         after.len == before.len && n < m.len <= |before.bytes| && after.bytes == Received(w, c, n) + before.bytes[n..]
  }

  /**
   Message `m`, the last one or not, was attempted: it held `before` and holds `after`, found pages `p` and left `q`,
   and `ret` came of it.
   */
  ghost predicate Attempted(w: World, m: Msg, last: bool, before: Held, after: Held, p: Pages, q: Pages,
                            s0: Account, s1: Account, stack: seq<byte>, ret: int)
    requires |stack| == IOBUF_SIZE && m.Valid()
  {
    && Executed(w, MsgPlan(m, last, p), s0, s1, ret)
    && |after.bytes| == |before.bytes|
    && if ret == 0 then q == After(m, p) && Delivered(m, before, after, w, s0.epoch, stack)
       else
         var k := s1.epoch - s0.epoch;
         Broken(m, before, after, w, s0.epoch, k) && q == After(Carried(m, k), p)
  }

  lemma WriteAttempted(w: World, m: Msg, last: bool, held: Held, p: Pages, q: Pages,
                       s0: Account, s1: Account, stack: seq<byte>, ret: int)
    requires |stack| == IOBUF_SIZE && m.Valid() && !m.read
    requires Executed(w, WritePlan(m.AddrByte(), m.data, last), s0, s1, ret) && q.first == m.AddrByte()
    requires ret == 0 ==> q.high == (LastChunk(|m.data|, TX_PAYLOAD_MAX) > IOBUF_SIZE - 1)
    requires ret != 0 ==>
               var sent := Min(|m.data|, TX_PAYLOAD_MAX * (s1.epoch - s0.epoch));
               sent >= 0 && q.high == (LastChunk(sent, TX_PAYLOAD_MAX) > IOBUF_SIZE - 1)
    ensures Attempted(w, m, last, held, held, p, q, s0, s1, stack, ret)
  {
    hide Executed, LastChunk, WritePlan, Received, Msg.Chunks;
    if ret != 0 {
      FailureStarted(w, MsgPlan(m, last, p), s0, s1, ret);
      MsgPlanSize(m, last, p);
    }
  }

  lemma PlainAttempted(w: World, m: Msg, last: bool, before: Held, after: Held, p: Pages, q: Pages,
                       s0: Account, s1: Account, stack: seq<byte>, ret: int)
    requires |stack| == IOBUF_SIZE && m.Valid() && m.read && !m.block && m.len <= |before.bytes|
    requires Executed(w, ReadPlan(q.first, m.len, false), s0, s1, ret) && q.first == Sent(m, p)
    requires after.len == before.len == m.len
    requires ret == 0 ==>
               && q.high == (if m.len == 0 then p.high else LastChunk(m.len, RX_PAYLOAD_MAX) > IOBUF_SIZE)
               && after.bytes == Received(w, s0.epoch, m.len) + before.bytes[m.len..]
    requires ret != 0 ==>
               var n := RX_PAYLOAD_MAX * (s1.epoch - s0.epoch - 1);
               !q.high && 0 <= n < m.len && after.bytes == Received(w, s0.epoch, n) + before.bytes[n..]
    ensures Attempted(w, m, last, before, after, p, q, s0, s1, stack, ret)
  {
    hide Executed, ReadPlan, Received, Msg.Chunks;
    if ret != 0 {
      FailureStarted(w, MsgPlan(m, last, p), s0, s1, ret);
      MsgPlanSize(m, last, p);
    }
  }

  lemma BlockAttempted(w: World, m: Msg, last: bool, before: Held, after: Held, p: Pages, q: Pages,
                       s0: Account, s1: Account, stack: seq<byte>, ret: int)
    requires |stack| == IOBUF_SIZE && m.Valid() && m.read && m.block && 34 <= |before.bytes|
    requires Executed(w, ReadPlan(q.first, BLOCK_MAX, true), s0, s1, ret) && q.first == Sent(m, p) && !q.high
    requires ret == 0 ==>
               var answer := w.reply(s0.epoch + 1);
               && after.len == BlockLen(answer, m.pec) <= 34
               && after.bytes == BlockDelivered(answer, stack, after.len) + before.bytes[after.len..]
    requires ret != 0 ==> after == before
    ensures Attempted(w, m, last, before, after, p, q, s0, s1, stack, ret)
  {
    hide Executed, ReadPlan, BlockDelivered, BlockLen, Msg.Chunks;
    if ret != 0 {
      FailureStarted(w, MsgPlan(m, last, p), s0, s1, ret);
      MsgPlanSize(m, last, p);
    }
  }

  /** The transfer failed in message `i`: earlier ones are delivered, later ones untouched. */
  ghost predicate FailedAt(w: World, ms: seq<Msg>, h0: seq<Held>, h1: seq<Held>, p: Pages, q: Pages,
                           s0: Account, s1: Account, stack: seq<byte>, i: int)
    requires |stack| == IOBUF_SIZE && AllValid(ms) && |h0| == |h1| == |ms|
  {
    && 0 <= i < |ms|
    && (forall j :: 0 <= j < i ==> Delivered(ms[j], h0[j], h1[j], w, s0.epoch + ChunksBefore(ms, j), stack))
    && (forall j :: i < j < |ms| ==> h1[j] == h0[j])
    && var c := s0.epoch + ChunksBefore(ms, i);
       Broken(ms[i], h0[i], h1[i], w, c, s1.epoch - c) && q == After(Carried(ms[i], s1.epoch - c), PagesAt(ms, p, i))
  }

  /**
   The outcome `ret` of a transfer of `ms`, whose messages held `h0` before and hold `h1` after, and which found pages
   `p` and left `q`: the controller ran the plan of the whole transfer, up to the first command that failed. On success
   every message is delivered; on failure those before the one that failed are, and those after it are as they were.
   */
  ghost predicate Transferred(w: World, ms: seq<Msg>, h0: seq<Held>, h1: seq<Held>, p: Pages, q: Pages,
                              s0: Account, s1: Account, stack: seq<byte>, ret: int)
    requires |stack| == IOBUF_SIZE && AllValid(ms)
  {
    && |h0| == |h1| == |ms|
    && Executed(w, TransferPlan(ms, p), s0, s1, ret)
    && (ret == 0 ==>
         && q == PagesAt(ms, p, |ms|)
         && forall i :: 0 <= i < |ms| ==> Delivered(ms[i], h0[i], h1[i], w, s0.epoch + ChunksBefore(ms, i), stack))
    && (ret != 0 ==> exists i :: FailedAt(w, ms, h0, h1, p, q, s0, s1, stack, i))
  }

  /** So its code is 0 exactly when every command of every message was done. */
  lemma TransferDone(w: World, ms: seq<Msg>, h0: seq<Held>, h1: seq<Held>, p: Pages, q: Pages,
                     s0: Account, s1: Account, stack: seq<byte>, ret: int)
    requires |stack| == IOBUF_SIZE && AllValid(ms) && forall i :: 0 <= i < |ms| && ms[i].block ==> ms[i].read
    requires Transferred(w, ms, h0, h1, p, q, s0, s1, stack, ret)
    ensures ret == 0 <==> AllFulfilled(w, ms, s0.epoch)
  {
    hide Executed, RunPlan, AllFulfilled, TransferPlan, Delivered, FailedAt;
    ExecutedOk(w, TransferPlan(ms, p), s0, s1, ret);
    TransferDoneIff(w, ms, p, s0.epoch);
  }

  /**
   What a transfer of `ms` carried out when its `n`th command failed: the messages before the one of that command, and
   as much of that one as there was.
   */
  function UpTo(ms: seq<Msg>, n: nat): (done: seq<Msg>)
    requires AllValid(ms)
    ensures AllValid(done) && |done| <= |ms|
  {
    if ms == [] then []
    else if n <= ms[0].Chunks() then [Carried(ms[0], n)]
    else [ms[0]] + UpTo(ms[1..], n - ms[0].Chunks())
  }

  /** What a transfer carried out that returned `ret` after `n` commands. */
  function CarriedOut(ms: seq<Msg>, ret: int, n: nat): seq<Msg>
    requires AllValid(ms)
  {
    if ret == 0 then ms else UpTo(ms, n)
  }

  lemma {:induction false} UpToIs(ms: seq<Msg>, i: nat, k: nat)
    requires AllValid(ms) && i < |ms| && 1 <= k <= ms[i].Chunks()
    ensures UpTo(ms, ChunksBefore(ms, i) + k) == ms[..i] + [Carried(ms[i], k)]
  {
    hide Carried, Msg.Chunks;
    if i > 0 {
      UpToIs(ms[1..], i - 1, k);
      ChunksBeforeTail(ms, i);
      assert ms[..i] == [ms[0]] + ms[1..][..i - 1];
    }
  }

  /** The pages a transfer leaves are those of the messages it carried out. */
  lemma PagesLeft(w: World, ms: seq<Msg>, h0: seq<Held>, h1: seq<Held>, p: Pages, q: Pages,
                  s0: Account, s1: Account, stack: seq<byte>, ret: int)
    requires |stack| == IOBUF_SIZE && AllValid(ms) && Transferred(w, ms, h0, h1, p, q, s0, s1, stack, ret)
    ensures s0.epoch <= s1.epoch && |h0| == |h1| == |ms|
    ensures var done := CarriedOut(ms, ret, s1.epoch - s0.epoch);
            && AllValid(done) && |done| <= |ms| && q == PagesAt(done, p, |done|)
            && (ret != 0 ==> exists i ::
                  && 0 <= i < |ms| && FailedAt(w, ms, h0, h1, p, q, s0, s1, stack, i)
                  && var k := s1.epoch - s0.epoch - ChunksBefore(ms, i);
                     1 <= k <= ms[i].Chunks() && done == ms[..i] + [Carried(ms[i], k)])
  {
    hide Completed, Delivered, After, Carried, ChunksBefore, Msg.Chunks, PagesAt, UpTo, FailedAt;
    if ret != 0 {
      var i :| FailedAt(w, ms, h0, h1, p, q, s0, s1, stack, i);
      FailedAtIs(w, ms, h0, h1, p, q, s0, s1, stack, i);
      var k := s1.epoch - s0.epoch - ChunksBefore(ms, i);
      PagesLeftAt(ms, p, i, k);
      UpToIs(ms, i, k);
      assert ChunksBefore(ms, i) + k == s1.epoch - s0.epoch;
    }
  }

  lemma FailedAtIs(w: World, ms: seq<Msg>, h0: seq<Held>, h1: seq<Held>, p: Pages, q: Pages,
                   s0: Account, s1: Account, stack: seq<byte>, i: int)
    requires |stack| == IOBUF_SIZE && AllValid(ms) && |h0| == |h1| == |ms|
    requires FailedAt(w, ms, h0, h1, p, q, s0, s1, stack, i)
    ensures 0 <= i < |ms|
    ensures var k := s1.epoch - s0.epoch - ChunksBefore(ms, i);
            1 <= k <= ms[i].Chunks() && q == After(Carried(ms[i], k), PagesAt(ms, p, i))
  {
    hide Delivered, After, Carried, ChunksBefore, Msg.Chunks, PagesAt;
  }

  lemma PagesLeftAt(ms: seq<Msg>, p: Pages, i: nat, k: nat)
    requires AllValid(ms) && i < |ms| && 1 <= k <= ms[i].Chunks()
    ensures var done := ms[..i] + [Carried(ms[i], k)];
            AllValid(done) && PagesAt(done, p, |done|) == After(Carried(ms[i], k), PagesAt(ms, p, i))
  {
    hide After, Carried, Msg.Chunks, Msg.Valid;
    var last := Carried(ms[i], k);
    assert ms == ms[..i] + ms[i..];
    PagesAtPrefix(ms[..i], ms[i..], p, i);
    PagesAtConcat(ms[..i], [last], p, 1);
    PagesAtOne(last, PagesAt(ms[..i], p, i));
  }

  lemma PagesAtOne(m: Msg, p: Pages)
    requires m.Valid()
    ensures PagesAt([m], p, 1) == After(m, p)
  {
    assert PagesAt([m], p, 0) == p;
  }

  // ---------------------------------------------------------------- sessions

  /** A transfer as the next one sees it: its messages, what it carried out of them, the pages it found and left. */
  datatype Record = Record(ms: seq<Msg>, done: seq<Msg>, p: Pages, q: Pages) {
    /** Whatever came of it, the pages it left and the addresses it sent are those of what it carried out. */
    ghost predicate Fits() {
      && AllValid(ms) && AllValid(done) && |done| <= |ms| && q == PagesAt(done, p, |done|)
      && forall i :: 0 <= i < |done| ==> Addressed(done, p, i) == Addressed(ms, p, i)
    }
  }

  /** The transfer was made, and returned success or an error. */
  ghost predicate Made(w: World, r: Record) {
    AllValid(r.ms) &&
    exists h0: seq<Held>, h1: seq<Held>, s0: Account, s1: Account, stack: seq<byte>, ret: int ::
      && |stack| == IOBUF_SIZE && Transferred(w, r.ms, h0, h1, r.p, r.q, s0, s1, stack, ret)
      && s0.epoch <= s1.epoch && r.done == CarriedOut(r.ms, ret, s1.epoch - s0.epoch)
  }

  lemma MadeFits(w: World, r: Record)
    requires Made(w, r)
    ensures r.Fits()
  {
    hide Transferred, CarriedOut;
    var h0: seq<Held>, h1: seq<Held>, s0: Account, s1: Account, stack: seq<byte>, ret: int :|
      && |stack| == IOBUF_SIZE && Transferred(w, r.ms, h0, h1, r.p, r.q, s0, s1, stack, ret)
      && s0.epoch <= s1.epoch && r.done == CarriedOut(r.ms, ret, s1.epoch - s0.epoch);
    TransferFits(w, r, h0, h1, s0, s1, stack, ret);
  }

  lemma TransferFits(w: World, r: Record, h0: seq<Held>, h1: seq<Held>, s0: Account, s1: Account,
                     stack: seq<byte>, ret: int)
    requires |stack| == IOBUF_SIZE && AllValid(r.ms) && Transferred(w, r.ms, h0, h1, r.p, r.q, s0, s1, stack, ret)
    requires s0.epoch <= s1.epoch && r.done == CarriedOut(r.ms, ret, s1.epoch - s0.epoch)
    ensures r.Fits()
  {
    hide Transferred, FailedAt, After, ChunksBefore, Msg.Chunks, UpTo, Carried, Addressed, PagesAt;
    PagesLeft(w, r.ms, h0, h1, r.p, r.q, s0, s1, stack, ret);
    if ret != 0 {
      var j :| 0 <= j < |r.ms| && FailedAt(w, r.ms, h0, h1, r.p, r.q, s0, s1, stack, j) &&
        var k := s1.epoch - s0.epoch - ChunksBefore(r.ms, j);
        1 <= k <= r.ms[j].Chunks() && r.done == r.ms[..j] + [Carried(r.ms[j], k)];
      forall i | 0 <= i < |r.done|
        ensures Addressed(r.done, r.p, i) == Addressed(r.ms, r.p, i)
      {
        SentInPart(r.ms, r.p, j, s1.epoch - s0.epoch - ChunksBefore(r.ms, j), i);
      }
    }
  }

  /** A message that was carried out only in part was addressed as the whole one is. */
  lemma SentInPart(ms: seq<Msg>, p: Pages, j: nat, k: nat, i: nat)
    requires AllValid(ms) && i <= j < |ms|
    ensures var done := ms[..j] + [Carried(ms[j], k)];
            AllValid(done) && Addressed(done, p, i) == Addressed(ms, p, i)
  {
    hide PagesAt, Carried;
    var a, last := ms[..j], Carried(ms[j], k);
    assert ms == a + ms[j..];
    PagesAtPrefix(a, ms[j..], p, i);
    PagesAtPrefix(a, [last], p, i);
  }

  ghost predicate AllFit(rs: seq<Record>) {
    forall t :: 0 <= t < |rs| ==> rs[t].Fits()
  }

  /** The first transfer finds pages `p`, and each later one what the one before left. */
  predicate Chained(rs: seq<Record>, p: Pages) {
    forall t :: 0 <= t < |rs| ==> rs[t].p == PagesFound(rs, p, t)
  }

  function PagesFound(rs: seq<Record>, p: Pages, t: int): Pages
    requires 0 <= t < |rs|
  {
    if t == 0 then p else rs[t - 1].q
  }

  function AllDone(rs: seq<Record>): (ts: seq<seq<Msg>>)
    ensures |ts| == |rs| && forall t :: 0 <= t < |rs| ==> ts[t] == rs[t].done
  {
    seq(|rs|, t requires 0 <= t < |rs| => rs[t].done)
  }

  /** Every message of the transfer of which a command was started carries its own address. */
  ghost predicate AllAddressed(r: Record) {
    AllValid(r.ms) && |r.done| <= |r.ms| && forall i :: 0 <= i < |r.done| ==> Addressed(r.ms, r.p, i)
  }

  /**
   In any session, with transfers that fail at any command: every message of which a command was started carries its own
   address exactly when, in the list of all messages carried out, none is a read that finds the high page selected after
   a message with another address byte.
   */
  lemma RecordedAddressedIff(w: World, rs: seq<Record>, p: Pages)
    requires Chained(rs, p) && forall t :: 0 <= t < |rs| ==> Made(w, rs[t])
    ensures AllValid(Flat(AllDone(rs)))
    ensures (forall t :: 0 <= t < |rs| ==> AllAddressed(rs[t])) <==>
            forall i :: 0 <= i < |Flat(AllDone(rs))| ==> !Misled(Flat(AllDone(rs)), p, i)
  {
    hide Made, Misled, AllSent, Flat, Threaded, Record.Fits, Chained, AllAddressed;
    AllMadeFit(w, rs);
    AllDoneValid(rs);
    SessionAddressedIff(AllDone(rs), p);
    RecordedSent(rs, p);
  }

  lemma AllMadeFit(w: World, rs: seq<Record>)
    requires forall t :: 0 <= t < |rs| ==> Made(w, rs[t])
    ensures AllFit(rs)
  {
    hide Made, Record.Fits;
    forall t | 0 <= t < |rs|
      ensures rs[t].Fits()
    {
      MadeFits(w, rs[t]);
    }
  }

  lemma AllDoneValid(rs: seq<Record>)
    requires AllFit(rs)
    ensures AllTransfersValid(AllDone(rs))
  {
    hide PagesAt, Addressed;
    forall t | 0 <= t < |rs|
      ensures AllValid(AllDone(rs)[t])
    {
      assert rs[t].Fits();
    }
  }

  lemma {:induction false} RecordedPages(rs: seq<Record>, p: Pages)
    requires AllFit(rs) && Chained(rs, p)
    ensures AllTransfersValid(AllDone(rs))
    ensures Threaded(AllDone(rs), p) == if rs == [] then p else rs[|rs| - 1].q
    decreases |rs|
  {
    hide Record.Fits, PagesAt, Chained;
    AllDoneValid(rs);
    if rs != [] {
      var n := |rs| - 1;
      ChainedPrefix(rs, p, n);
      RecordedPages(rs[..n], p);
      assert AllDone(rs)[..n] == AllDone(rs[..n]);
      assert rs[n].Fits();
      FitsMeans(rs[n]);
    }
  }

  lemma {:induction false} RecordedSent(rs: seq<Record>, p: Pages)
    requires AllFit(rs) && Chained(rs, p)
    ensures AllTransfersValid(AllDone(rs))
    ensures AllSent(AllDone(rs), p) <==> forall t :: 0 <= t < |rs| ==> AllAddressed(rs[t])
    decreases |rs|
  {
    hide Record.Fits, AllAddressed, Addressed, Chained, Threaded;
    AllDoneValid(rs);
    if rs != [] {
      var n := |rs| - 1;
      var before, r := rs[..n], rs[n];
      ChainedPrefix(rs, p, n);
      RecordedSent(before, p);
      RecordedPages(before, p);
      assert AllDone(rs)[..n] == AllDone(before);
      assert r.Fits() && r.p == Threaded(AllDone(before), p);
      FitsMeans(r);
      assert forall t :: 0 <= t < n ==> before[t] == rs[t];
    }
  }

  lemma ChainedPrefix(rs: seq<Record>, p: Pages, n: nat)
    requires Chained(rs, p) && n < |rs|
    ensures Chained(rs[..n], p) && rs[n].p == if n == 0 then p else rs[..n][n - 1].q
  {
    forall t | 0 <= t < n
      ensures rs[..n][t].p == PagesFound(rs[..n], p, t)
    {
      assert rs[t].p == PagesFound(rs, p, t);
    }
    assert rs[n].p == PagesFound(rs, p, n);
  }

  lemma FitsMeans(r: Record)
    requires r.Fits()
    ensures AllValid(r.done) && r.q == PagesAt(r.done, r.p, |r.done|)
    ensures AllAddressed(r) <==> forall i :: 0 <= i < |r.done| ==> Addressed(r.done, r.p, i)
  {
    hide PagesAt, Addressed;
  }

  /** The transfer has reached message `i`, with pages `p`, messages holding `h` and the controller at `s`. */
  ghost predicate Progress(w: World, ms: seq<Msg>, h0: seq<Held>, p0: Pages, s0: Account, stack: seq<byte>,
                           i: nat, h: seq<Held>, p: Pages, s: Account)
    requires |stack| == IOBUF_SIZE && AllValid(ms) && i <= |ms|
  {
    && |h0| == |h| == |ms| && p == PagesAt(ms, p0, i)
    && Underway(w, TransferPlan(ms, p0), s0, s, TransferPlan(ms[i..], p))
    && s.epoch == s0.epoch + ChunksBefore(ms, i)
    && (forall j :: i <= j < |ms| ==> h[j] == h0[j])
    && (forall j :: 0 <= j < i ==> Delivered(ms[j], h0[j], h[j], w, s0.epoch + ChunksBefore(ms, j), stack))
  }

  lemma ProgressStart(w: World, ms: seq<Msg>, h0: seq<Held>, p0: Pages, s0: Account, stack: seq<byte>)
    requires |stack| == IOBUF_SIZE && AllValid(ms) && |h0| == |ms|
    ensures Progress(w, ms, h0, p0, s0, stack, 0, h0, p0, s0)
  {
    hide Underway;
    UnderwayStart(w, TransferPlan(ms, p0), s0);
    assert ms[0..] == ms;
  }

  lemma ProgressStep(w: World, ms: seq<Msg>, h0: seq<Held>, p0: Pages, s0: Account, stack: seq<byte>,
                     i: nat, h: seq<Held>, p: Pages, s: Account, h': seq<Held>, q: Pages, s': Account, ret: int)
    requires |stack| == IOBUF_SIZE && AllValid(ms) && i < |ms|
    requires Progress(w, ms, h0, p0, s0, stack, i, h, p, s)
    requires |h'| == |h| && h' == h[i := h'[i]]
    requires Attempted(w, ms[i], i + 1 == |ms|, h[i], h'[i], p, q, s, s', stack, ret)
    ensures ret == 0 ==> Progress(w, ms, h0, p0, s0, stack, i + 1, h', q, s')
    ensures ret != 0 ==> ret < 0 && Transferred(w, ms, h0, h', p0, q, s0, s', stack, ret)
  {
    hide Executed, Underway, Delivered, Broken, MsgPlan, After, Carried, TransferPlan, ChunksBefore, Msg.Chunks;
    var now, rest := MsgPlan(ms[i], i + 1 == |ms|, p), TransferPlan(ms[i + 1..], After(ms[i], p));
    TransferPlanStep(ms, i, p);
    UnderwayMessage(w, TransferPlan(ms, p0), s0, s, s', now, rest, ret);
    MsgPlanSize(ms[i], i + 1 == |ms|, p);
    ChunksBeforeNext(ms, i);
    if ret != 0 {
      assert FailedAt(w, ms, h0, h', p0, q, s0, s', stack, i);
    }
  }

  lemma ProgressEnd(w: World, ms: seq<Msg>, h0: seq<Held>, p0: Pages, s0: Account, stack: seq<byte>,
                    h: seq<Held>, p: Pages, s: Account)
    requires |stack| == IOBUF_SIZE && AllValid(ms)
    requires Progress(w, ms, h0, p0, s0, stack, |ms|, h, p, s)
    ensures Transferred(w, ms, h0, h, p0, p, s0, s, stack, 0)
  {
    hide Executed, Underway, Delivered, ChunksBefore;
    assert ms[|ms|..] == [];
    UnderwayEnd(w, TransferPlan(ms, p0), s0, s);
  }

  /** The bus is found free within the 351 reads from read `b` on. */
  ghost predicate FreeWithin(w: World, b: nat) {
    exists j :: b <= j < b + POLLS && !w.busy(j)
  }

  /** The bus is still busy after the wait and the reset. */
  ghost predicate Stuck(w: World, b: nat) {
    !FreeWithin(w, b) && w.busy(b + POLLS)
  }

  /** That is, for 351 reads and one more. */
  lemma StuckIs(w: World, b: nat)
    ensures Stuck(w, b) <==> forall j :: b <= j <= b + 351 ==> w.busy(j)
  {
    if Stuck(w, b) {
      forall j | b <= j <= b + 351
        ensures w.busy(j)
      {
      }
    }
  }
}
