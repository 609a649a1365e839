/**
 What the MDIO controller amounts to for its callers: a memory keyed by (phy, device, register)
 that is read and written synchronously, except that the error of a write is owed to the next call.
 Clause 45 of IEEE Std 802.3 gives the key its three parts.
 */
module MdioSpec {
  import opened Bits

  const EIO := -5
  const EBUSY := -16

  datatype Key = Key(phy: nat, dev: nat, reg: nat)

  type Mem = map<Key, u16>

  function Peek(m: Mem, k: Key): u16 {
    if k in m then m[k] else 0
  }

  /** `error(c)` tells whether command `c` fails, `latency(c)` how many status reads pass before it ends. */
  datatype World = World(error: nat -> bool, latency: nat -> nat)

  datatype Call = Read(key: Key) | Write(key: Key, val: u16)

  /** Memory once command `c`, which is `call`, has ended. */
  function Effect(w: World, c: nat, call: Call, m: Mem): Mem {
    if call.Write? && !w.error(c) then m[call.key := call.val] else m
  }

  /** Memory, whether a write error is still to be reported, and the commands issued so far. */
  datatype Sync = Sync(mem: Mem, owed: bool, issued: nat)

  function Step(w: World, s: Sync, call: Call): Sync {
    if s.owed then s.(owed := false)
    else
      var c := s.issued + 1;
      match call
      case Read(_) => s.(issued := c)
      case Write(k, v) => Sync(if w.error(c) then s.mem else s.mem[k := v], w.error(c), c)
  }

  function Reply(w: World, s: Sync, call: Call): int {
    if s.owed then EIO
    else match call
         case Read(k) => if w.error(s.issued + 1) then EIO else Peek(s.mem, k)
         case Write(_, _) => 0
  }

  /** The state before call `i` of a run from `s`. */
  function StateAt(w: World, s: Sync, calls: seq<Call>, i: nat): Sync
    requires i <= |calls|
  {
    if i == 0 then s else Step(w, StateAt(w, s, calls, i - 1), calls[i - 1])
  }

  function Replies(w: World, s: Sync, calls: seq<Call>): (r: seq<int>)
    ensures |r| == |calls|
    ensures forall i :: 0 <= i < |calls| ==> r[i] == Reply(w, StateAt(w, s, calls, i), calls[i])
  {
    seq(|calls|, i requires 0 <= i < |calls| => Reply(w, StateAt(w, s, calls, i), calls[i]))
  }

  // ---------------------------------------------------------------- what a run means

  /** Call `i` is a write that is issued and succeeds, or is issued and fails. */
  predicate WriteEnds(w: World, s: Sync, calls: seq<Call>, i: nat, failed: bool)
    requires i < |calls|
  {
    var t := StateAt(w, s, calls, i);
    calls[i].Write? && !t.owed && w.error(t.issued + 1) == failed
  }

  /** The value of the last successful write to `k` before call `i`, or what was there at the start. */
  function LastWritten(w: World, s: Sync, calls: seq<Call>, i: nat, k: Key): u16
    requires i <= |calls|
  {
    if i == 0 then Peek(s.mem, k)
    else if WriteEnds(w, s, calls, i - 1, false) && calls[i - 1].key == k then calls[i - 1].val
    else LastWritten(w, s, calls, i - 1, k)
  }

  /** A read that returns a value returns the last successfully written one. */
  lemma {:induction false} ReadSeesWrites(w: World, s: Sync, calls: seq<Call>, i: nat, k: Key)
    requires i <= |calls|
    ensures Peek(StateAt(w, s, calls, i).mem, k) == LastWritten(w, s, calls, i, k)
    ensures i < |calls| && calls[i] == Read(k) && Replies(w, s, calls)[i] >= 0 ==>
              Replies(w, s, calls)[i] == LastWritten(w, s, calls, i, k)
  {
    if i > 0 {
      ReadSeesWrites(w, s, calls, i - 1, k);
    }
  }

  /** An error is owed exactly after a write that was issued and failed: by the very next call. */
  lemma OwedIff(w: World, s: Sync, calls: seq<Call>, i: nat)
    requires 0 < i <= |calls|
    ensures StateAt(w, s, calls, i).owed <==> WriteEnds(w, s, calls, i - 1, true)
  {
  }

  /** A call reports an error exactly when the write before it failed, or it is a read that fails itself. */
  lemma ErrorIff(w: World, s: Sync, calls: seq<Call>, i: nat)
    requires i < |calls| && !s.owed
    ensures Replies(w, s, calls)[i] == EIO <==>
            || (i > 0 && WriteEnds(w, s, calls, i - 1, true))
            || (calls[i].Read? && !StateAt(w, s, calls, i).owed && w.error(StateAt(w, s, calls, i).issued + 1))
  {
    if i > 0 {
      OwedIff(w, s, calls, i);
    }
  }

  /** Writes that failed, and calls that were answered with an earlier write's error, among the first `n`. */
  function FailedWrites(w: World, s: Sync, calls: seq<Call>, n: nat): nat
    requires n <= |calls|
  {
    if n == 0 then 0 else FailedWrites(w, s, calls, n - 1) + if WriteEnds(w, s, calls, n - 1, true) then 1 else 0
  }

  function Collected(w: World, s: Sync, calls: seq<Call>, n: nat): nat
    requires n <= |calls|
  {
    if n == 0 then 0 else Collected(w, s, calls, n - 1) + if StateAt(w, s, calls, n - 1).owed then 1 else 0
  }

  /** Every write error is reported once: failures are the reports made and the one still owed. */
  lemma {:induction false} ErrorsConserved(w: World, s: Sync, calls: seq<Call>, n: nat)
    requires n <= |calls| && !s.owed
    ensures FailedWrites(w, s, calls, n) == Collected(w, s, calls, n) + if StateAt(w, s, calls, n).owed then 1 else 0
  {
    if n > 0 {
      ErrorsConserved(w, s, calls, n - 1);
    }
  }

  /** Commands really issued: one for each call that owed nothing. */
  lemma {:induction false} IssuedCount(w: World, s: Sync, calls: seq<Call>, n: nat)
    requires n <= |calls|
    ensures StateAt(w, s, calls, n).issued == s.issued + n - Collected(w, s, calls, n)
  {
    if n > 0 {
      IssuedCount(w, s, calls, n - 1);
    }
  }
}
