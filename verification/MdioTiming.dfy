/**
 What driver and controller do together in any world, however long its commands take (kmods/fboss_iob_mdio_aux.c). In
 worlds whose commands end within the poll window this is MdioSpec.
 */
module MdioTiming {
  import opened MdioSpec

  const ETIMEDOUT := -110
  const POLLS := 51   // 1000 us / 20 us retries, and the first read

  /**
   Between calls: nothing outstanding; a posted write, in flight or ended with its status bit up; or a command that
   outlasted the poll window, which the driver has forgotten.
   */
  datatype Mode = Free | Posted(write: Call) | Ended | Stuck(call: Call)

  datatype System = System(mem: Mem, mode: Mode, issued: nat, overlap: bool) {
    function End(w: World, call: Call, next: Mode): System {
      System(Effect(w, issued, call, mem), next, issued, overlap)
    }
  }

  /** Time passes, in which a command in flight may end. */
  function Pause(w: World, s: System, ends: bool): System {
    if !ends then s
    else match s.mode
         case Posted(write) => s.End(w, write, Ended)
         case Stuck(call) => s.End(w, call, Free)
         case _ => s
  }

  /**
   What became of command `c` when it was polled and the status cleared: ended in the window, just after it, or not.
   */
  function Polled(w: World, s: System, call: Call): System {
    if w.latency(s.issued) <= POLLS then s.End(w, call, Free) else s.(mode := Stuck(call))
  }

  function PollCode(w: World, c: nat): int {
    if w.latency(c) >= POLLS then EBUSY else if w.error(c) then EIO else 0
  }

  /** The first half of a call: wait for the bus, clear the status. */
  function Begin(w: World, s: System): System {
    match s.mode
    case Free => s
    case Ended => s.(mode := Free)
    case Posted(write) => Polled(w, s, write)
    case Stuck(call) => if w.latency(s.issued) <= POLLS + 1 then s.End(w, call, Free) else s
  }

  function BeginCode(w: World, s: System): int {
    match s.mode
    case Free => 0
    case Ended => if w.error(s.issued) then EIO else 0
    case Posted(_) => PollCode(w, s.issued)
    case Stuck(_) => 0
  }

  /** A command is started; on top of another if that is still in flight. */
  function Issue(s: System, call: Call): System {
    System(s.mem, Posted(call), s.issued + 1, s.overlap || s.mode.Stuck?)
  }

  function Next(w: World, s: System, call: Call): System {
    var t := Begin(w, s);
    if BeginCode(w, s) != 0 then t
    else
      var u := Issue(t, call);
      if call.Read? then Polled(w, u, call) else u
  }

  function Answer(w: World, s: System, call: Call): int {
    if BeginCode(w, s) != 0 then BeginCode(w, s)
    else
      match call
      case Write(_, _) => 0
      case Read(k) =>
        var t := Begin(w, s);
        if PollCode(w, t.issued + 1) != 0 then PollCode(w, t.issued + 1) else Peek(t.mem, k)
  }

  /** What can happen between pauses: a call, or a reset of the bus, which may work or not. */
  datatype Action = Do(call: Call) | Reset(works: bool)

  function Act(w: World, s: System, a: Action): System {
    match a
    case Do(call) => Next(w, s, call)
    case Reset(works) => if works then s.(mode := Free) else s
  }

  function Outcome(w: World, s: System, a: Action): int {
    match a
    case Do(call) => Answer(w, s, call)
    case Reset(works) => if works then 0 else ETIMEDOUT
  }

  // ---------------------------------------------------------------- runs

  /** The state after `i` actions, each after its pause. */
  function After(w: World, s: System, acts: seq<Action>, pauses: seq<bool>, i: nat): System
    requires i <= |acts| == |pauses|
    decreases i, 0
  {
    if i == 0 then s else Act(w, Found(w, s, acts, pauses, i - 1), acts[i - 1])
  }

  /** What action `i` finds. */
  function Found(w: World, s: System, acts: seq<Action>, pauses: seq<bool>, i: nat): System
    requires i < |acts| == |pauses|
    decreases i, 1
  {
    Pause(w, After(w, s, acts, pauses, i), pauses[i])
  }

  function Outcomes(w: World, s: System, acts: seq<Action>, pauses: seq<bool>): (r: seq<int>)
    requires |acts| == |pauses|
    ensures |r| == |acts|
    ensures forall i :: 0 <= i < |acts| ==> r[i] == Outcome(w, Found(w, s, acts, pauses, i), acts[i])
  {
    seq(|acts|, i requires 0 <= i < |acts| => Outcome(w, Found(w, s, acts, pauses, i), acts[i]))
  }

  /** A call finds a forgotten command that outlasts the 52 status reads made of it and the one to come. */
  predicate Collides(w: World, s: System, a: Action) {
    a.Do? && s.mode.Stuck? && w.latency(s.issued) > POLLS + 1
  }

  predicate CollidesAt(w: World, s: System, acts: seq<Action>, pauses: seq<bool>, i: int)
    requires 0 <= i < |acts| == |pauses|
  {
    Collides(w, Found(w, s, acts, pauses, i), acts[i])
  }

  lemma AfterNext(w: World, s: System, acts: seq<Action>, pauses: seq<bool>, n: nat)
    requires n < |acts| == |pauses|
    ensures After(w, s, acts, pauses, n + 1) == Act(w, Found(w, s, acts, pauses, n), acts[n])
    ensures Found(w, s, acts, pauses, n) == Pause(w, After(w, s, acts, pauses, n), pauses[n])
  {
  }

  lemma AfterNone(w: World, s: System, acts: seq<Action>, pauses: seq<bool>)
    requires |acts| == |pauses|
    ensures After(w, s, acts, pauses, 0) == s
  {
  }

  lemma ActOverlaps(w: World, s: System, a: Action)
    ensures Act(w, s, a).overlap <==> s.overlap || Collides(w, s, a)
  {
  }

  lemma PauseKeeps(w: World, s: System, ends: bool)
    ensures Pause(w, s, ends).overlap == s.overlap && Pause(w, s, ends).issued == s.issued
  {
  }

  /**
   In any run, in any world: a command is started on top of another exactly when a call finds one that is still busy.
   */
  lemma {:induction false} OverlapIff(w: World, s: System, acts: seq<Action>, pauses: seq<bool>, n: nat)
    requires n <= |acts| == |pauses|
    ensures After(w, s, acts, pauses, n).overlap <==>
            s.overlap || exists i :: 0 <= i < n && CollidesAt(w, s, acts, pauses, i)
  {
    if n > 0 {
      hide Act, Pause, Collides, After, Found;
      OverlapIff(w, s, acts, pauses, n - 1);
      AfterNext(w, s, acts, pauses, n - 1);
      PauseKeeps(w, After(w, s, acts, pauses, n - 1), pauses[n - 1]);
      ActOverlaps(w, Found(w, s, acts, pauses, n - 1), acts[n - 1]);
      assert After(w, s, acts, pauses, n).overlap <==>
             After(w, s, acts, pauses, n - 1).overlap || CollidesAt(w, s, acts, pauses, n - 1);
    } else {
      AfterNone(w, s, acts, pauses);
    }
  }

  /** No run overlaps. */
  ghost predicate Safe(w: World, s: System) {
    forall acts: seq<Action>, pauses: seq<bool> ::
      |acts| == |pauses| ==> !After(w, s, acts, pauses, |acts|).overlap
  }

  /**
   From an idle driver, no run ever starts a command on top of another exactly when no command the device is given takes
   more than 52 status reads.
   */
  lemma SafeIff(w: World, s: System)
    requires s.mode == Free && !s.overlap
    ensures Safe(w, s) <==> forall c: nat :: c > s.issued ==> w.latency(c) <= 52
  {
    if forall c: nat :: c > s.issued ==> w.latency(c) <= POLLS + 1 {
      forall acts: seq<Action>, pauses: seq<bool> | |acts| == |pauses|
        ensures !After(w, s, acts, pauses, |acts|).overlap
      {
        NeverCollides(w, s, acts, pauses, |acts|);
      }
    } else {
      var c: nat :| c > s.issued && w.latency(c) > POLLS + 1;
      Collision(w, s, c);
    }
  }

  /** What is outstanding was issued in the run. */
  lemma {:induction false} IssuesOn(w: World, s: System, acts: seq<Action>, pauses: seq<bool>, n: nat)
    requires n <= |acts| == |pauses| && s.mode == Free
    ensures var t := After(w, s, acts, pauses, n);
            t.issued >= s.issued && (t.mode != Free ==> t.issued > s.issued)
  {
    if n > 0 {
      IssuesOn(w, s, acts, pauses, n - 1);
    }
  }

  lemma {:induction false} NeverCollides(w: World, s: System, acts: seq<Action>, pauses: seq<bool>, n: nat)
    requires n <= |acts| == |pauses| && s.mode == Free && !s.overlap
    requires forall c: nat :: c > s.issued ==> w.latency(c) <= POLLS + 1
    ensures !After(w, s, acts, pauses, n).overlap
  {
    if n > 0 {
      NeverCollides(w, s, acts, pauses, n - 1);
      IssuesOn(w, s, acts, pauses, n - 1);
    }
  }

  /** `n` reads without a pause. */
  function Reads(n: nat): (acts: seq<Action>)
    ensures |acts| == n && forall i :: 0 <= i < n ==> acts[i] == Do(Read(Key(0, 0, 0)))
  {
    seq(n, _ => Do(Read(Key(0, 0, 0))))
  }

  function Promptly(n: nat): (pauses: seq<bool>)
    ensures |pauses| == n && forall i :: 0 <= i < n ==> !pauses[i]
  {
    seq(n, _ => false)
  }

  /** Reads issue one command each: read on to the slow one, and once more. */
  lemma Collision(w: World, s: System, c: nat)
    requires s.mode == Free && c > s.issued && w.latency(c) > POLLS + 1
    ensures !Safe(w, s)
  {
    var n := c - s.issued;
    var acts, pauses := Reads(n + 1), Promptly(n + 1);
    ReadsIssue(w, s, acts, pauses, n);
    assert Collides(w, Found(w, s, acts, pauses, n), acts[n]);
    ActOverlaps(w, Found(w, s, acts, pauses, n), acts[n]);
    assert After(w, s, acts, pauses, |acts|).overlap;
  }

  lemma {:induction false} ReadsIssue(w: World, s: System, acts: seq<Action>, pauses: seq<bool>, n: nat)
    requires s.mode == Free && n <= |acts| == |pauses|
    requires forall i :: 0 <= i < n ==> acts[i] == Do(Read(Key(0, 0, 0))) && !pauses[i]
    ensures var t := After(w, s, acts, pauses, n);
            && t.issued == s.issued + n && !t.mode.Posted? && !t.mode.Ended?
            && (n > 0 && w.latency(t.issued) > POLLS ==> t.mode.Stuck?)
  {
    if n > 0 {
      ReadsIssue(w, s, acts, pauses, n - 1);
    }
  }

  // ---------------------------------------------------------------- prompt worlds

  /** Every command that a run from `s` may still wait for ends within the poll window. */
  ghost predicate Prompt(w: World, s: System) {
    && (s.mode.Posted? ==> w.latency(s.issued) < POLLS)
    && forall c: nat :: c > s.issued ==> w.latency(c) < POLLS
  }

  /** What the callers can tell of a state when nothing is stuck. */
  function Seen(w: World, s: System): Sync {
    Sync(if s.mode.Posted? then Effect(w, s.issued, s.mode.write, s.mem) else s.mem,
         (s.mode.Posted? || s.mode.Ended?) && w.error(s.issued), s.issued)
  }

  predicate Well(s: System) {
    !s.mode.Stuck? && (s.mode.Posted? ==> s.mode.write.Write?)
  }

  /** One call, when the commands it waits for end within the window: the synchronous memory. */
  lemma CallIsSync(w: World, s: System, call: Call)
    requires Well(s) && (s.mode.Posted? ==> w.latency(s.issued) < POLLS)
    requires call.Read? && BeginCode(w, s) == 0 ==> w.latency(s.issued + 1) < POLLS
    ensures Answer(w, s, call) == Reply(w, Seen(w, s), call)
    ensures Seen(w, Next(w, s, call)) == Step(w, Seen(w, s), call)
    ensures Well(Next(w, s, call)) && Next(w, s, call).overlap == s.overlap
  {
  }

  lemma PauseUnseen(w: World, s: System, ends: bool)
    requires Well(s)
    ensures var t := Pause(w, s, ends);
            && Seen(w, t) == Seen(w, s) && Well(t) && t.overlap == s.overlap && t.issued == s.issued
            && (t.mode.Posted? ==> s.mode.Posted?)
  {
  }

  lemma PromptNext(w: World, s: System, call: Call)
    requires Prompt(w, s)
    ensures Prompt(w, Next(w, s, call))
  {
  }

  /** A run of calls alone. */
  function Calls(calls: seq<Call>): (acts: seq<Action>)
    ensures |acts| == |calls| && forall i :: 0 <= i < |calls| ==> acts[i] == Do(calls[i])
  {
    seq(|calls|, i requires 0 <= i < |calls| => Do(calls[i]))
  }

  /** A run of calls on a prompt device goes through the states of the synchronous memory, whatever its pauses. */
  lemma {:induction false} StatesAreSync(w: World, s: System, calls: seq<Call>, pauses: seq<bool>, n: nat)
    requires Prompt(w, s) && Well(s) && n <= |calls| == |pauses|
    ensures var t := After(w, s, Calls(calls), pauses, n);
            && Seen(w, t) == StateAt(w, Seen(w, s), calls, n) && t.overlap == s.overlap
            && Well(t) && Prompt(w, t)
  {
    if n > 0 {
      hide Answer, Reply, Next, Step, Pause, Seen, Well, BeginCode, After, Found, Prompt;
      StatesAreSync(w, s, calls, pauses, n - 1);
      AfterNext(w, s, Calls(calls), pauses, n - 1);
      FoundIsSync(w, After(w, s, Calls(calls), pauses, n - 1), pauses[n - 1], calls[n - 1]);
    }
  }

  lemma FoundIsSync(w: World, before: System, ends: bool, call: Call)
    requires Prompt(w, before) && Well(before)
    ensures var s := Pause(w, before, ends);
            && Answer(w, s, call) == Reply(w, Seen(w, before), call)
            && Seen(w, Next(w, s, call)) == Step(w, Seen(w, before), call)
            && Well(Next(w, s, call)) && Next(w, s, call).overlap == before.overlap
            && Prompt(w, Next(w, s, call))
  {
    hide Answer, Reply, Next, Step, Pause, Seen, Well, BeginCode;
    PauseUnseen(w, before, ends);
    CallIsSync(w, Pause(w, before, ends), call);
    PromptNext(w, Pause(w, before, ends), call);
  }

  /** So its answers and its final state are those of the synchronous memory, and nothing overlaps. */
  lemma RunIsSync(w: World, s: System, calls: seq<Call>, pauses: seq<bool>)
    requires Prompt(w, s) && Well(s) && |calls| == |pauses|
    ensures Outcomes(w, s, Calls(calls), pauses) == Replies(w, Seen(w, s), calls)
    ensures var t := After(w, s, Calls(calls), pauses, |calls|);
            Seen(w, t) == StateAt(w, Seen(w, s), calls, |calls|) && t.overlap == s.overlap
  {
    hide Answer, Reply, Next, Step, Pause, Seen, Well, BeginCode, After, Found, StateAt, Prompt;
    StatesAreSync(w, s, calls, pauses, |calls|);
    forall i | 0 <= i < |calls|
      ensures Outcomes(w, s, Calls(calls), pauses)[i] == Replies(w, Seen(w, s), calls)[i]
    {
      StatesAreSync(w, s, calls, pauses, i);
      AfterNext(w, s, Calls(calls), pauses, i);
      FoundIsSync(w, After(w, s, Calls(calls), pauses, i), pauses[i], calls[i]);
    }
  }

  /** Every run of calls gets the replies of the synchronous memory. */
  ghost predicate Synchronous(w: World, s: System) {
    forall calls: seq<Call>, pauses: seq<bool> ::
      |calls| == |pauses| ==> Outcomes(w, s, Calls(calls), pauses) == Replies(w, Seen(w, s), calls)
  }

  /** That is so exactly when the device is prompt. */
  lemma SynchronousIff(w: World, s: System)
    requires Well(s)
    ensures Synchronous(w, s) <==> Prompt(w, s)
  {
    hide Outcomes, Replies, Seen, Calls, Well;
    if Prompt(w, s) {
      forall calls: seq<Call>, pauses: seq<bool> | |calls| == |pauses|
        ensures Outcomes(w, s, Calls(calls), pauses) == Replies(w, Seen(w, s), calls)
      {
        RunIsSync(w, s, calls, pauses);
      }
    } else if s.mode.Posted? && w.latency(s.issued) >= POLLS {
      SlowCommand(w, s, s.issued);
    } else {
      var c: nat :| c > s.issued && w.latency(c) >= POLLS;
      SlowCommand(w, s, c);
    }
  }

  /** Read on to the slow command: one of the reads is told that the bus is busy; the synchronous memory never is. */
  lemma SlowCommand(w: World, s: System, c: nat)
    requires Well(s) && w.latency(c) >= POLLS && (c > s.issued || (s.mode.Posted? && c == s.issued))
    ensures !Synchronous(w, s)
  {
    var n := c - s.issued + 1;
    var calls, pauses := seq(n, _ => Read(Key(0, 0, 0))), Promptly(n);
    assert Calls(calls) == Reads(n);
    BusyBy(w, s, c, n, n);
    var i :| 0 <= i < n && BusyAt(w, s, n, i);
    NeverBusy(w, StateAt(w, Seen(w, s), calls, i), calls[i]);
    assert Outcomes(w, s, Calls(calls), pauses)[i] == EBUSY != Replies(w, Seen(w, s), calls)[i];
  }

  lemma NeverBusy(w: World, s: Sync, call: Call)
    ensures Reply(w, s, call) != EBUSY
  {
  }

  /** Read `i` of `m` is told that the bus is busy. */
  predicate BusyAt(w: World, s: System, m: nat, i: int)
    requires 0 <= i < m
  {
    Outcome(w, Found(w, s, Reads(m), Promptly(m), i), Reads(m)[i]) == EBUSY
  }

  /** As long as no read was told so, all but perhaps the first have issued a command, and none of them the slow one. */
  lemma {:induction false} BusyBy(w: World, s: System, c: nat, m: nat, n: nat)
    requires Well(s) && n <= m && w.latency(c) >= POLLS && (c > s.issued || (s.mode.Posted? && c == s.issued))
    ensures var t := After(w, s, Reads(m), Promptly(m), n);
            || (exists i :: 0 <= i < n && BusyAt(w, s, m, i))
            || (n == 0 && t == s)
            || (n > 0 && t.mode == Free && s.issued + n - 1 <= t.issued < c)
  {
    if n > 0 {
      hide Act, Outcome, After, Found;
      BusyBy(w, s, c, m, n - 1);
      AfterNext(w, s, Reads(m), Promptly(m), n - 1);
      var before := After(w, s, Reads(m), Promptly(m), n - 1);
      if (before == s && n == 1) || (before.mode == Free && before.issued < c) {
        ReadStep(w, before, c);
        assert Outcome(w, before, Reads(m)[n - 1]) == EBUSY ==> BusyAt(w, s, m, n - 1);
      }
    } else {
      AfterNone(w, s, Reads(m), Promptly(m));
    }
  }

  lemma ReadStep(w: World, s: System, c: nat)
    requires Well(s) && w.latency(c) >= POLLS && (s.issued < c || (s.mode.Posted? && s.issued == c))
    ensures Pause(w, s, false) == s
    ensures var a := Do(Read(Key(0, 0, 0))); var t := Act(w, s, a);
            || Outcome(w, s, a) == EBUSY
            || (t.mode == Free && t.issued < c && t.issued >= s.issued && (s.mode == Free ==> t.issued == s.issued + 1))
  {
  }

  /** What a whole run comes to. */
  lemma RunMeans(w: World, s: System, acts: seq<Action>, pauses: seq<bool>)
    requires |acts| == |pauses|
    ensures After(w, s, acts, pauses, |acts|).overlap <==>
            s.overlap || exists i :: 0 <= i < |acts| && CollidesAt(w, s, acts, pauses, i)
    ensures forall calls: seq<Call> :: acts == Calls(calls) && Prompt(w, s) && Well(s) ==>
              && Outcomes(w, s, acts, pauses) == Replies(w, Seen(w, s), calls)
              && Seen(w, After(w, s, acts, pauses, |acts|)) == StateAt(w, Seen(w, s), calls, |calls|)
  {
    hide Prompt, Well, Seen, CollidesAt, After, Found, StateAt;
    OverlapIff(w, s, acts, pauses, |acts|);
    forall calls: seq<Call> | acts == Calls(calls) && Prompt(w, s) && Well(s)
      ensures Outcomes(w, s, acts, pauses) == Replies(w, Seen(w, s), calls)
      ensures Seen(w, After(w, s, acts, pauses, |acts|)) == StateAt(w, Seen(w, s), calls, |calls|)
    {
      RunIsSync(w, s, calls, pauses);
    }
  }
}
