/** What an SPI transfer should look like on the controller. */
module SpiPlan {
  import opened Bits
  import opened Options
  import opened SpiController

  const EIO := -5
  const ETIMEDOUT := -110
  const POLLS := 31

  function Min(a: int, b: int): int {
    if a < b then a else b
  }

  datatype Verdict = Done | Error | Late

  function Errno(v: Verdict): int {
    match v
    case Done => 0
    case Error => EIO
    case Late => ETIMEDOUT
  }

  /** What polling transfer `c` from status read `k` on comes to. */
  function Settle(w: World, c: nat, k: nat): Verdict
    requires k <= POLLS
    decreases POLLS - k
  {
    if k == POLLS then Late
    else if w.status(c, k).err then Error
    else if w.status(c, k).done then Done
    else Settle(w, c, k + 1)
  }

  /** Done means: the done bit rose within 31 reads, with no error bit up to then. */
  lemma {:induction false} SettleDone(w: World, c: nat, k: nat)
    requires k <= POLLS
    ensures Settle(w, c, k) == Done <==>
            exists j :: k <= j < 31 && w.status(c, j).done && forall i :: k <= i <= j ==> !w.status(c, i).err
    decreases POLLS - k
  {
    if k < POLLS && !w.status(c, k).err && !w.status(c, k).done {
      SettleDone(w, c, k + 1);
      if Settle(w, c, k) == Done {
        var j :| k + 1 <= j < 31 && w.status(c, j).done && forall i :: k + 1 <= i <= j ==> !w.status(c, i).err;
        assert forall i :: k <= i <= j ==> !w.status(c, i).err;
      }
    }
  }

  /** An error means: the error bit rose within 31 reads, with no done bit before it; it beats one of the same read. */
  lemma {:induction false} SettleError(w: World, c: nat, k: nat)
    requires k <= POLLS
    ensures Settle(w, c, k) == Error <==>
            exists j :: k <= j < 31 && w.status(c, j).err && forall i :: k <= i < j ==> !w.status(c, i).done
    decreases POLLS - k
  {
    if k < POLLS && !w.status(c, k).err && !w.status(c, k).done {
      SettleError(w, c, k + 1);
      if Settle(w, c, k) == Error {
        var j :| k + 1 <= j < 31 && w.status(c, j).err && forall i :: k + 1 <= i < j ==> !w.status(c, i).done;
        assert forall i :: k <= i < j ==> !w.status(c, i).done;
      }
    }
  }

  /** Between `s0` and `s1` the controller made the transfers of `plan` up to the first that failed; `ret` tells. */
  ghost predicate Executed(w: World, plan: seq<Event>, s0: Account, s1: Account, ret: int) {
    && s0.epoch <= s1.epoch
    && var n := s1.epoch - s0.epoch;
    && n <= |plan| && s1.log == s0.log + plan[..n]
    && s1.statusReads <= s0.statusReads + POLLS * n
    && (forall c: nat :: s0.epoch < c < s1.epoch ==> Settle(w, c, 0) == Done)
    && ret == (if n > 0 then Errno(Settle(w, s1.epoch, 0)) else 0)
    && (ret == 0 ==> n == |plan|)
  }

  /** The done bit of transfer `c` rose within 31 status reads, with no error bit up to then. */
  ghost predicate DoneWithin(w: World, c: nat) {
    exists j :: 0 <= j < 31 && w.status(c, j).done && forall i :: 0 <= i <= j ==> !w.status(c, i).err
  }

  ghost predicate AllDone(w: World, c: nat, n: nat) {
    forall i: nat :: c < i <= c + n ==> DoneWithin(w, i)
  }

  lemma DoneWithinIs(w: World, c: nat)
    ensures DoneWithin(w, c) <==> Settle(w, c, 0) == Done
  {
    hide Settle;
    SettleDone(w, c, 0);
  }

  lemma AllDoneIs(w: World, c: nat, n: nat)
    ensures AllDone(w, c, n) <==> forall i: nat :: c < i <= c + n ==> Settle(w, i, 0) == Done
  {
    hide Settle, DoneWithin;
    if AllDone(w, c, n) {
      forall i: nat | c < i <= c + n
        ensures Settle(w, i, 0) == Done
      {
        DoneWithinIs(w, i);
      }
    } else {
      var i: nat :| c < i <= c + n && !DoneWithin(w, i);
      DoneWithinIs(w, i);
    }
  }

  /** A transfer reports success exactly when every chunk was done. */
  lemma SuccessIff(w: World, plan: seq<Event>, s0: Account, s1: Account, ret: int)
    requires Executed(w, plan, s0, s1, ret)
    ensures ret == 0 <==> AllDone(w, s0.epoch, |plan|)
  {
    hide Settle;
    if ret == 0 {
      AllDoneIs(w, s0.epoch, |plan|);
    } else {
      DoneWithinIs(w, s1.epoch);
      hide DoneWithin;
      assert s0.epoch < s1.epoch <= s0.epoch + |plan| && !DoneWithin(w, s1.epoch);
    }
  }

  /** Between `s0` and `s1` the controller completed the first chunks of `plan`; `rest` remains. */
  ghost predicate Underway(w: World, plan: seq<Event>, s0: Account, s1: Account, rest: seq<Event>) {
    && s0.epoch <= s1.epoch
    && var n := s1.epoch - s0.epoch;
    && n <= |plan| && s1.log == s0.log + plan[..n] && rest == plan[n..]
    && s1.statusReads <= s0.statusReads + POLLS * n
    && forall c: nat :: s0.epoch < c <= s1.epoch ==> Settle(w, c, 0) == Done
  }

  /** Between `s1` and `s2` one transfer was started and polled. */
  ghost predicate Polled(w: World, s1: Account, s2: Account, cmd: Event) {
    && s2.log == s1.log + [cmd] && s2.epoch == s1.epoch + 1
    && s2.statusReads <= s1.statusReads + POLLS
  }

  lemma UnderwayStep(w: World, plan: seq<Event>, s0: Account, s1: Account, s2: Account, rest: seq<Event>)
    requires Underway(w, plan, s0, s1, rest) && rest != [] && Polled(w, s1, s2, rest[0])
    ensures var v := Settle(w, s2.epoch, 0);
            && (v == Done ==> Underway(w, plan, s0, s2, rest[1..]))
            && (v != Done ==> Executed(w, plan, s0, s2, Errno(v)))
  {
    hide Settle;
    var n := s1.epoch - s0.epoch;
    assert plan[..n + 1] == plan[..n] + [rest[0]];
    assert s2.log == s0.log + plan[..n + 1];
  }

  lemma UnderwayEnd(w: World, plan: seq<Event>, s0: Account, s1: Account)
    requires Underway(w, plan, s0, s1, [])
    ensures Executed(w, plan, s0, s1, 0)
  {
    hide Settle;
  }

  // ---------------------------------------------------------------- chunks

  /** Chunks of at most 512 bytes, sent with the chip select as it stands. */
  function TxPlan(csActive: bool, csMode: bool, data: seq<byte>): seq<Event>
    decreases |data|
  {
    if data == [] then []
    else
      var n := Min(MAX_XFER_LEN, |data|);
      [Transfer(csActive, csMode, data[..n])] + TxPlan(csActive, csMode, data[n..])
  }

  function Sent(p: seq<Event>): seq<byte> {
    if p == [] then [] else p[0].sent + Sent(p[1..])
  }

  /** A send moves exactly its bytes, once and in order, in chunks of 512 and a rest, with one chip select. */
  lemma {:induction false} TxPlanIsData(csActive: bool, csMode: bool, data: seq<byte>)
    ensures var p := TxPlan(csActive, csMode, data);
            && |p| == (|data| + 511) / 512
            && Sent(p) == data
            && forall i :: 0 <= i < |p| ==>
                 && p[i].csActive == csActive && p[i].csMode == csMode
                 && |p[i].sent| == if i < |p| - 1 then 512 else |data| - 512 * i
    decreases |data|
  {
    if data != [] {
      var n := Min(MAX_XFER_LEN, |data|);
      var p, rest := TxPlan(csActive, csMode, data), TxPlan(csActive, csMode, data[n..]);
      TxPlanIsData(csActive, csMode, data[n..]);
      assert p[1..] == rest && data == data[..n] + data[n..];
      forall i | 0 <= i < |p|
        ensures p[i].csActive == csActive && p[i].csMode == csMode
        ensures |p[i].sent| == if i < |p| - 1 then 512 else |data| - 512 * i
      {
        if i > 0 {
          assert p[i] == rest[i - 1];
        }
      }
    }
  }

  /** A receive of `len` bytes clocks out whatever the MOSI window holds. */
  function RxPlan(csActive: bool, csMode: bool, mosi: Window, len: nat): seq<Event>
    decreases len
  {
    if len == 0 then []
    else
      var n := Min(MAX_XFER_LEN, len);
      [Transfer(csActive, csMode, mosi[..n])] + RxPlan(csActive, csMode, mosi, len - n)
  }

  /** The bytes a receive of `len` delivers when `c` transfers came before. */
  function Received(w: World, c: nat, len: nat): (r: seq<byte>)
    ensures |r| == len
    decreases len
  {
    if len == 0 then []
    else var n := Min(MAX_XFER_LEN, len); w.miso(c + 1)[..n] + Received(w, c + 1, len - n)
  }

  /** A receive asks for exactly `len` bytes, in chunks of 512 and a rest, with one chip select. */
  lemma {:induction false} RxPlanIsLength(csActive: bool, csMode: bool, mosi: Window, len: nat)
    ensures var p := RxPlan(csActive, csMode, mosi, len);
            && |p| == (len + 511) / 512
            && |Sent(p)| == len
            && forall i :: 0 <= i < |p| ==>
                 && p[i].csActive == csActive && p[i].csMode == csMode
                 && |p[i].sent| == if i < |p| - 1 then 512 else len - 512 * i
    decreases len
  {
    if len > 0 {
      var n := Min(MAX_XFER_LEN, len);
      var p, rest := RxPlan(csActive, csMode, mosi, len), RxPlan(csActive, csMode, mosi, len - n);
      RxPlanIsLength(csActive, csMode, mosi, len - n);
      assert p[1..] == rest;
      forall i | 0 <= i < |p|
        ensures p[i].csActive == csActive && p[i].csMode == csMode
        ensures |p[i].sent| == if i < |p| - 1 then 512 else len - 512 * i
      {
        if i > 0 {
          assert p[i] == rest[i - 1];
        }
      }
    }
  }

  /** Byte `i` of a receive is byte `i % 512` of what its transfer `i / 512` brought in. */
  lemma {:induction false} ReceivedAt(w: World, c: nat, len: nat, i: nat)
    requires i < len
    ensures Received(w, c, len)[i] == w.miso(c + 1 + i / 512)[i % 512]
    decreases len
  {
    if i >= 512 {
      ReceivedAt(w, c + 1, len - 512, i - 512);
    }
  }

  // ---------------------------------------------------------------- the receive loop, seen from the plan

  /** A receive of `len` bytes into a buffer that held `start` has got to byte `off`; the buffer holds `buf`. */
  ghost predicate Reading(w: World, s0: Account, s: Account, csActive: bool, csMode: bool, mosi: Window,
                          len: nat, off: nat, start: seq<byte>, buf: seq<byte>)
  {
    var all := Received(w, s0.epoch, len);
    && off <= len <= |start|
    && Underway(w, RxPlan(csActive, csMode, mosi, len), s0, s, RxPlan(csActive, csMode, mosi, len - off))
    && all[off..] == Received(w, s.epoch, len - off)
    && buf == all[..off] + start[off..]
  }

  lemma ReadingStart(w: World, s0: Account, csActive: bool, csMode: bool, mosi: Window, len: nat, start: seq<byte>)
    requires len <= |start|
    ensures Reading(w, s0, s0, csActive, csMode, mosi, len, 0, start, start)
  {
    hide Settle, RxPlan, Received;
    var plan, all := RxPlan(csActive, csMode, mosi, len), Received(w, s0.epoch, len);
    assert plan[..0] == [] && plan[0..] == plan && s0.log + [] == s0.log;
    assert all[0..] == all && start == all[..0] + start[0..];
  }

  lemma ReadingStep(w: World, s0: Account, s1: Account, s2: Account, csActive: bool, csMode: bool, mosi: Window,
                    len: nat, off: nat, n: nat, start: seq<byte>, buf: seq<byte>, buf': seq<byte>, ret: int)
    requires Reading(w, s0, s1, csActive, csMode, mosi, len, off, start, buf)
    requires off < len && n == Min(MAX_XFER_LEN, len - off) && |buf| == |start|
    requires Polled(w, s1, s2, Transfer(csActive, csMode, mosi[..n]))
    requires var v := Settle(w, s2.epoch, 0); ret == if v == Done then n else Errno(v)
    requires buf' == if ret >= 0 then buf[..off] + w.miso(s2.epoch)[..n] + buf[off + n..] else buf
    ensures ret >= 0 ==> ret == n && Reading(w, s0, s2, csActive, csMode, mosi, len, off + n, start, buf')
    ensures ret < 0 ==> Executed(w, RxPlan(csActive, csMode, mosi, len), s0, s2, ret) && buf'[off..] == start[off..]
  {
    hide Settle, Underway, Executed, Received, RxPlan;
    RxUnderway(w, RxPlan(csActive, csMode, mosi, len), s0, s1, s2, csActive, csMode, mosi, len - off, n);
    if ret >= 0 {
      assert len - off - n == len - (off + n);
      ReceivedNext(w, s1.epoch, len - off, n);
      BytesNext(Received(w, s0.epoch, len), off, n, w.miso(s2.epoch)[..n], start, buf, buf');
    }
  }

  /** The buffer has got `n` bytes on: what is received so far, and then what it held before. */
  lemma BytesNext(all: seq<byte>, off: nat, n: nat, more: seq<byte>, start: seq<byte>, buf: seq<byte>, buf': seq<byte>)
    requires off + n <= |all| <= |start| && buf == all[..off] + start[off..] && more == all[off..][..n]
    requires buf' == buf[..off] + more + buf[off + n..]
    ensures all[off + n..] == all[off..][n..] && buf' == all[..off + n] + start[off + n..]
  {
    assert all[..off + n] == all[..off] + all[off..][..n];
  }

  lemma ReceivedNext(w: World, c: nat, len: nat, n: nat)
    requires len > 0 && n == Min(MAX_XFER_LEN, len)
    ensures Received(w, c, len)[..n] == w.miso(c + 1)[..n] && Received(w, c, len)[n..] == Received(w, c + 1, len - n)
  {
  }

  lemma RxUnderway(w: World, plan: seq<Event>, s0: Account, s1: Account, s2: Account,
                   csActive: bool, csMode: bool, mosi: Window, left: nat, n: nat)
    requires left > 0 && n == Min(MAX_XFER_LEN, left)
    requires Underway(w, plan, s0, s1, RxPlan(csActive, csMode, mosi, left))
    requires Polled(w, s1, s2, Transfer(csActive, csMode, mosi[..n]))
    ensures var v := Settle(w, s2.epoch, 0);
            && (v == Done ==> Underway(w, plan, s0, s2, RxPlan(csActive, csMode, mosi, left - n)))
            && (v != Done ==> Executed(w, plan, s0, s2, Errno(v)))
  {
    hide Settle, Underway, Executed;
    var rest := RxPlan(csActive, csMode, mosi, left);
    UnderwayStep(w, plan, s0, s1, s2, rest);
    assert rest[1..] == RxPlan(csActive, csMode, mosi, left - n);
  }

  lemma ReadingEnd(w: World, s0: Account, s1: Account, csActive: bool, csMode: bool, mosi: Window,
                   len: nat, start: seq<byte>, buf: seq<byte>)
    requires Reading(w, s0, s1, csActive, csMode, mosi, len, len, start, buf)
    ensures Executed(w, RxPlan(csActive, csMode, mosi, len), s0, s1, 0)
    ensures buf == Received(w, s0.epoch, len) + start[len..]
  {
    hide Underway, Executed, Received;
    assert RxPlan(csActive, csMode, mosi, len - len) == [];
    UnderwayEnd(w, RxPlan(csActive, csMode, mosi, len), s0, s1);
    assert Received(w, s0.epoch, len)[..len] == Received(w, s0.epoch, len);
  }

  // ---------------------------------------------------------------- a transfer with both buffers

  /**
   One transfer of the SPI core: the send runs first if there is one, then the receive if there is one, and the status
   is that of the last of them; `unset` if there is neither.
   */
  ghost predicate Exchanged(w: World, tx: Option<seq<Event>>, rx: Option<seq<Event>>,
                            s0: Account, s1: Account, s2: Account, unset: int, txRet: int, ret: int)
  {
    && (if tx.None? then s1 == s0 && txRet == unset else Executed(w, tx.value, s0, s1, txRet))
    && (if rx.None? then s2 == s1 && ret == txRet else Executed(w, rx.value, s1, s2, ret))
  }

  function Chunks(plan: Option<seq<Event>>): nat {
    if plan.None? then 0 else |plan.value|
  }

  /** There is no send whose error the receive could hide. */
  predicate Plain(tx: Option<seq<Event>>, rx: Option<seq<Event>>) {
    tx.None? || rx.None? || tx.value == []
  }

  lemma ZeroIsDone(w: World, tx: Option<seq<Event>>, rx: Option<seq<Event>>,
                   s0: Account, s1: Account, s2: Account, unset: int, txRet: int, ret: int)
    requires Exchanged(w, tx, rx, s0, s1, s2, unset, txRet, ret) && Plain(tx, rx)
    ensures ret == 0 ==> AllDone(w, s0.epoch, Chunks(tx) + Chunks(rx))
  {
    hide Settle, AllDone;
    AllDoneIs(w, s0.epoch, Chunks(tx));
    AllDoneIs(w, s1.epoch, Chunks(rx));
    AllDoneIs(w, s0.epoch, Chunks(tx) + Chunks(rx));
    if tx.Some? {
      SuccessIff(w, tx.value, s0, s1, txRet);
    }
    if rx.Some? {
      SuccessIff(w, rx.value, s1, s2, ret);
    }
  }

  /**
   Status 0 means that every chunk of both directions was done, whatever the world does, exactly when one of the buffers
   is missing or nothing is sent.
   */
  lemma ZeroMeansDoneIff(tx: Option<seq<Event>>, rx: Option<seq<Event>>)
    ensures (forall w: World, s0: Account, s1: Account, s2: Account, unset: int, txRet: int ::
               Exchanged(w, tx, rx, s0, s1, s2, unset, txRet, 0) ==> AllDone(w, s0.epoch, Chunks(tx) + Chunks(rx)))
            <==> Plain(tx, rx)
  {
    if Plain(tx, rx) {
      forall w: World, s0: Account, s1: Account, s2: Account, unset: int, txRet: int
        | Exchanged(w, tx, rx, s0, s1, s2, unset, txRet, 0)
        ensures AllDone(w, s0.epoch, Chunks(tx) + Chunks(rx))
      {
        ZeroIsDone(w, tx, rx, s0, s1, s2, unset, txRet, 0);
      }
    } else {
      var w, s0, s1, s2 := HiddenError(tx.value, rx.value);
      assert Exchanged(w, tx, rx, s0, s1, s2, 0, EIO, 0);
      AllDoneIs(w, s0.epoch, Chunks(tx) + Chunks(rx));
      assert Settle(w, s0.epoch + 1, 0) != Done;
    }
  }

  /** A failed send can be reported as success, in some world, exactly when there is something to send. */
  lemma SendErrorHiddenIff(txPlan: seq<Event>, rxPlan: seq<Event>)
    ensures (exists w: World, s0: Account, s1: Account, s2: Account, txRet: int ::
               Executed(w, txPlan, s0, s1, txRet) && txRet != 0 && Executed(w, rxPlan, s1, s2, 0))
            <==> txPlan != []
  {
    if txPlan != [] {
      var w, s0, s1, s2 := HiddenError(txPlan, rxPlan);
      assert Executed(w, txPlan, s0, s1, EIO) && Executed(w, rxPlan, s1, s2, 0);
    }
  }

  /** The world in which it happens: the first chunk sent fails, and all chunks received are done. */
  lemma HiddenError(txPlan: seq<Event>, rxPlan: seq<Event>)
      returns (w: World, s0: Account, s1: Account, s2: Account)
    requires txPlan != []
    ensures Settle(w, s0.epoch + 1, 0) == Error
    ensures Executed(w, txPlan, s0, s1, EIO) && Executed(w, rxPlan, s1, s2, 0)
  {
    w := World((c, k) => Status(c == 1, true), _ => seq(512, _ => 0));
    s0, s1 := Account([], 0, 0), Account([txPlan[0]], 1, 1);
    s2 := Account([txPlan[0]] + rxPlan, 1 + |rxPlan|, 1 + |rxPlan|);
    assert txPlan[..1] == [txPlan[0]] && rxPlan[..|rxPlan|] == rxPlan;
    assert forall c: nat :: Settle(w, c, 0) == if c == 1 then Error else Done;
  }
}
