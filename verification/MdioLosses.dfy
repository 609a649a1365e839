/**
 What becomes of the writes that the MDIO driver has accepted (kmods/fboss_iob_mdio_aux.c): a posted write is answered 0
 before the device has carried it out, so its value or its error can still be lost.
 */
module MdioLosses {
  import opened Bits
  import opened MdioSpec
  import opened MdioTiming

  /** An accepted write, under the number of its command. */
  datatype Posting = Posting(number: nat, key: Key, val: u16)

  /** The writes accepted in a run, and the numbers of those that were lost and of those whose error was told. */
  datatype Books = Books(writes: seq<Posting>, lost: set<nat>, told: set<nat>)

  const EMPTY := Books([], {}, {})

  predicate Accepts(w: World, s: System, a: Action) {
    a.Do? && a.call.Write? && Outcome(w, s, a) == 0
  }

  /** The caller is answered with the error of the write before. */
  predicate Tells(w: World, s: System, a: Action) {
    a.Do? && BeginCode(w, s) == EIO
  }

  /**
   The action makes sure that what became of the last write is never known: a reset takes it, or its error, from the
   controller; a call polls it for too short a time to see it fail; or a call overruns it.
   */
  predicate Loses(w: World, s: System, a: Action) {
    var c := s.issued;
    match s.mode
    case Free => false
    case Posted(_) => a == Reset(true) || (a.Do? && w.error(c) && w.latency(c) >= POLLS)
    case Ended => a == Reset(true) && w.error(c)
    case Stuck(call) => call.Write? && !w.error(c) && (a == Reset(true) || (a.Do? && w.latency(c) > POLLS + 1))
  }

  function Note(w: World, s: System, a: Action, b: Books): Books {
    Books(if Accepts(w, s, a) then b.writes + [Posting(s.issued + 1, a.call.key, a.call.val)] else b.writes,
          if Loses(w, s, a) then b.lost + {s.issued} else b.lost,
          if Tells(w, s, a) then b.told + {s.issued} else b.told)
  }

  /** The books after `n` actions. */
  function BooksAt(w: World, s: System, acts: seq<Action>, pauses: seq<bool>, n: nat): Books
    requires n <= |acts| == |pauses|
  {
    if n == 0 then EMPTY
    else Note(w, Found(w, s, acts, pauses, n - 1), acts[n - 1], BooksAt(w, s, acts, pauses, n - 1))
  }

  // ---------------------------------------------------------------- replaying the accepted writes

  /** Memory after the accepted writes, but for those that failed and those in `gone`. */
  function Replay(w: World, m: Mem, writes: seq<Posting>, gone: set<nat>): Mem {
    if writes == [] then m
    else
      var p, before := writes[|writes| - 1], Replay(w, m, writes[..|writes| - 1], gone);
      if p.number in gone || w.error(p.number) then before else before[p.key := p.val]
  }

  predicate Rising(writes: seq<Posting>) {
    forall i, j :: 0 <= i < j < |writes| ==> writes[i].number < writes[j].number
  }

  predicate Below(writes: seq<Posting>, c: nat) {
    forall i :: 0 <= i < |writes| ==> writes[i].number < c
  }

  /** Numbers that failed or are not in the list make no difference. */
  lemma {:induction false} ReplayWithout(w: World, m: Mem, writes: seq<Posting>, gone: set<nat>, c: nat)
    requires w.error(c) || Below(writes, c)
    ensures Replay(w, m, writes, gone + {c}) == Replay(w, m, writes, gone)
  {
    if writes != [] {
      ReplayWithout(w, m, writes[..|writes| - 1], gone, c);
    }
  }

  lemma ReplayMore(w: World, m: Mem, writes: seq<Posting>, p: Posting, gone: set<nat>)
    ensures Replay(w, m, writes + [p], gone)
         == var before := Replay(w, m, writes, gone);
            if p.number in gone || w.error(p.number) then before else before[p.key := p.val]
  {
    assert (writes + [p])[..|writes|] == writes;
  }

  /** The last write of the list lands. */
  lemma ReplayLands(w: World, m: Mem, writes: seq<Posting>, gone: set<nat>)
    requires writes != [] && Rising(writes)
    ensures var p := writes[|writes| - 1];
            Replay(w, m, writes, gone - {p.number})
            == Effect(w, p.number, Write(p.key, p.val), Replay(w, m, writes, gone + {p.number}))
  {
    var p, prefix := writes[|writes| - 1], writes[..|writes| - 1];
    ReplayWithout(w, m, prefix, gone - {p.number}, p.number);
    assert gone - {p.number} + {p.number} == gone + {p.number};
  }

  // ---------------------------------------------------------------- what memory holds

  /** The write that may still land. */
  function InFlight(t: System): set<nat> {
    if t.mode.Posted? || (t.mode.Stuck? && t.mode.call.Write?) then {t.issued} else {}
  }

  predicate LastIs(writes: seq<Posting>, c: nat, call: Call) {
    writes != [] && var p := writes[|writes| - 1]; p.number == c && call == Write(p.key, p.val)
  }

  predicate Numbered(writes: seq<Posting>, t: System) {
    Rising(writes) && Below(writes, t.issued + 1)
  }

  /** Memory and the write that is outstanding agree with the books. */
  predicate Right(w: World, m: Mem, t: System, b: Books) {
    && Numbered(b.writes, t) && t.mem == Replay(w, m, b.writes, b.lost + InFlight(t))
    && match t.mode
       case Free => true
       case Posted(write) => LastIs(b.writes, t.issued, write) && t.issued !in b.lost
       case Ended => b.writes != [] && b.writes[|b.writes| - 1].number == t.issued && t.issued !in b.lost
       case Stuck(call) =>
         call.Write? ==> LastIs(b.writes, t.issued, call) && (t.issued in b.lost <==> w.error(t.issued))
  }

  /** The same when nothing is outstanding that is not lost. */
  predicate Cleared(w: World, m: Mem, t: System, b: Books) {
    Numbered(b.writes, t) && t.mem == Replay(w, m, b.writes, b.lost)
  }

  /** A write in flight that is not lost lands. */
  lemma LandsRight(w: World, m: Mem, t: System, writes: seq<Posting>, lost: set<nat>, call: Call)
    requires Numbered(writes, t) && LastIs(writes, t.issued, call)
    requires t.issued !in lost || w.error(t.issued)
    ensures Replay(w, m, writes, lost) == Effect(w, t.issued, call, Replay(w, m, writes, lost + {t.issued}))
  {
    var c := t.issued;
    ReplayLands(w, m, writes, lost);
    if c in lost {
      ReplayWithout(w, m, writes, lost - {c}, c);
      assert lost - {c} + {c} == lost;
    } else {
      assert lost - {c} == lost;
    }
  }

  lemma PauseRight(w: World, m: Mem, s: System, b: Books, ends: bool)
    requires Right(w, m, s, b)
    ensures Right(w, m, Pause(w, s, ends), b)
  {
    hide Replay;
    assert b.lost + {} == b.lost;
    if s.mode.Posted? {
      LandsRight(w, m, s, b.writes, b.lost, s.mode.write);
    } else if s.mode.Stuck? && s.mode.call.Write? {
      LandsRight(w, m, s, b.writes, b.lost, s.mode.call);
    }
  }

  /** A call that is refused. */
  lemma RefusedRight(w: World, m: Mem, s: System, b: Books, call: Call)
    requires Right(w, m, s, b) && BeginCode(w, s) != 0
    ensures Right(w, m, Next(w, s, call), Note(w, s, Do(call), b))
  {
    hide Replay;
    var lost := Note(w, s, Do(call), b).lost;
    assert b.lost + {} == b.lost && lost + {} == lost;
    if s.mode.Posted? {
      LandsRight(w, m, s, b.writes, b.lost, s.mode.write);
      assert b.lost + {s.issued} + {s.issued} == b.lost + {s.issued};
    }
  }

  /** What a call that is not refused has made of the last write. */
  lemma BeginClears(w: World, m: Mem, s: System, b: Books, call: Call)
    requires Right(w, m, s, b) && BeginCode(w, s) == 0
    ensures Cleared(w, m, Begin(w, s), b.(lost := Note(w, s, Do(call), b).lost))
  {
    hide Replay;
    assert b.lost + {} == b.lost;
    if s.mode.Posted? {
      LandsRight(w, m, s, b.writes, b.lost, s.mode.write);
    } else if s.mode.Stuck? && s.mode.call.Write? {
      LandsRight(w, m, s, b.writes, b.lost, s.mode.call);
      if s.issued in b.lost {
        assert b.lost + {s.issued} == b.lost;
      }
    }
  }

  /** The command is started and, if it is a read, polled. */
  lemma IssueRight(w: World, m: Mem, t: System, b: Books, call: Call)
    requires Cleared(w, m, t, b) && t.issued + 1 !in b.lost
    ensures call.Read? ==> Right(w, m, Polled(w, Issue(t, call), call), b)
    ensures call.Write? ==>
              Right(w, m, Issue(t, call), b.(writes := b.writes + [Posting(t.issued + 1, call.key, call.val)]))
  {
    hide Replay;
    var c := t.issued + 1;
    assert b.lost + {} == b.lost;
    if call.Write? {
      var p := Posting(c, call.key, call.val);
      ReplayWithout(w, m, b.writes, b.lost, c);
      ReplayMore(w, m, b.writes, p, b.lost + {c});
    }
  }

  lemma CallRight(w: World, m: Mem, s: System, b: Books, call: Call)
    requires Right(w, m, s, b) && forall c :: c in b.lost ==> c <= s.issued
    ensures Right(w, m, Next(w, s, call), Note(w, s, Do(call), b))
  {
    hide Replay, Right, Cleared, Loses;
    if BeginCode(w, s) != 0 {
      RefusedRight(w, m, s, b, call);
    } else {
      var cleared := b.(lost := Note(w, s, Do(call), b).lost);
      BeginClears(w, m, s, b, call);
      assert Begin(w, s).issued == s.issued;
      IssueRight(w, m, Begin(w, s), cleared, call);
    }
  }

  lemma ResetRight(w: World, m: Mem, s: System, b: Books, works: bool)
    requires Right(w, m, s, b)
    ensures Right(w, m, Act(w, s, Reset(works)), Note(w, s, Reset(works), b))
  {
    hide Replay;
    var c, lost := s.issued, Note(w, s, Reset(works), b).lost;
    assert b.lost + {} == b.lost && lost + {} == lost;
    if works && w.error(c) {
      ReplayWithout(w, m, b.writes, b.lost, c);
    }
  }

  // ---------------------------------------------------------------- what the callers are told

  function Numbers(writes: seq<Posting>): set<nat> {
    set i | 0 <= i < |writes| :: writes[i].number
  }

  /** The error of command `c` is still to be reported. */
  predicate Owed(w: World, t: System, c: nat) {
    c == t.issued && (t.mode.Posted? || t.mode.Ended?) && w.error(c)
  }

  /** One of the three, and no two. */
  predicate ExactlyOne(x: bool, y: bool, z: bool) {
    (x || y || z) && !(x && y) && !(x && z) && !(y && z)
  }

  /** What became of command `c`, if it is an accepted write: a failed one is lost, told or owed. */
  predicate Fate(w: World, t: System, b: Books, c: nat) {
    if c in Numbers(b.writes) then
      && (if w.error(c) then ExactlyOne(c in b.lost, c in b.told, Owed(w, t, c)) else c !in b.told)
      && (InFlight(t) == {c} && c in b.lost ==> t.mode.Stuck? && w.error(c))
    else
      c !in b.lost && c !in b.told
  }

  lemma PauseFate(w: World, t: System, b: Books, ends: bool, c: nat)
    requires Fate(w, t, b, c)
    ensures Fate(w, Pause(w, t, ends), b, c)
  {
    hide Numbers;
  }

  lemma NumbersMore(writes: seq<Posting>, p: Posting)
    ensures Numbers(writes + [p]) == Numbers(writes) + {p.number}
  {
    var more := writes + [p];
    forall c | c in Numbers(writes)
      ensures c in Numbers(more)
    {
      var i :| 0 <= i < |writes| && writes[i].number == c;
      assert more[i].number == c;
    }
    assert more[|writes|] == p;
  }

  /** A write that is outstanding is among the accepted ones, and no later command is. */
  predicate Outstanding(t: System, writes: seq<Posting>) {
    && (InFlight(t) != {} || t.mode.Ended? ==> t.issued in Numbers(writes))
    && forall c :: c in Numbers(writes) ==> c <= t.issued
  }

  lemma RightOutstanding(w: World, m: Mem, t: System, b: Books)
    requires Right(w, m, t, b)
    ensures Outstanding(t, b.writes)
  {
    hide Replay;
    if b.writes != [] {
      assert b.writes[|b.writes| - 1].number in Numbers(b.writes);
    }
  }

  lemma ActFate(w: World, t: System, b: Books, a: Action, c: nat)
    requires Outstanding(t, b.writes) && Fate(w, t, b, c)
    ensures Fate(w, Act(w, t, a), Note(w, t, a, b), c)
  {
    hide Numbers;
    if Accepts(w, t, a) {
      NumbersMore(b.writes, Posting(t.issued + 1, a.call.key, a.call.val));
    }
  }

  // ---------------------------------------------------------------- runs

  /** Books and system agree. */
  ghost predicate Sound(w: World, m: Mem, t: System, b: Books) {
    Right(w, m, t, b) && forall c: nat :: Fate(w, t, b, c)
  }

  lemma StartSound(w: World, s: System)
    requires s.mode == Free
    ensures Sound(w, s.mem, s, EMPTY)
  {
  }

  lemma PauseSound(w: World, m: Mem, t: System, b: Books, ends: bool)
    requires Sound(w, m, t, b)
    ensures Sound(w, m, Pause(w, t, ends), b)
  {
    hide Right, Fate, Pause;
    PauseRight(w, m, t, b, ends);
    forall c: nat
      ensures Fate(w, Pause(w, t, ends), b, c)
    {
      PauseFate(w, t, b, ends, c);
    }
  }

  lemma LostBefore(w: World, t: System, b: Books, c: nat)
    requires Outstanding(t, b.writes) && Fate(w, t, b, c) && c in b.lost
    ensures c <= t.issued
  {
    hide Numbers;
  }

  lemma ActSound(w: World, m: Mem, t: System, b: Books, a: Action)
    requires Sound(w, m, t, b)
    ensures Sound(w, m, Act(w, t, a), Note(w, t, a, b))
  {
    hide Right, Fate, Note, Outstanding, Next;
    RightOutstanding(w, m, t, b);
    forall c: nat
      ensures Fate(w, Act(w, t, a), Note(w, t, a, b), c)
    {
      ActFate(w, t, b, a, c);
    }
    match a {
      case Do(call) =>
        forall c | c in b.lost
          ensures c <= t.issued
        {
          LostBefore(w, t, b, c);
        }
        CallRight(w, m, t, b, call);
      case Reset(works) => ResetRight(w, m, t, b, works);
    }
  }

  lemma {:induction false} BooksSound(w: World, s: System, acts: seq<Action>, pauses: seq<bool>, n: nat)
    requires n <= |acts| == |pauses| && s.mode == Free
    ensures Sound(w, s.mem, After(w, s, acts, pauses, n), BooksAt(w, s, acts, pauses, n))
  {
    if n > 0 {
      hide Sound, Pause, Act, Note;
      var b := BooksAt(w, s, acts, pauses, n - 1);
      BooksSound(w, s, acts, pauses, n - 1);
      PauseSound(w, s.mem, After(w, s, acts, pauses, n - 1), b, pauses[n - 1]);
      ActSound(w, s.mem, Found(w, s, acts, pauses, n - 1), b, acts[n - 1]);
    } else {
      StartSound(w, s);
    }
  }

  /**
   After any run from an idle driver, in any world, with resets: once what is in flight has ended, memory is the result
   of the accepted writes that neither failed nor were lost, in their order; and every accepted write that failed is
   lost, or was reported, or is still owed, and only one of these.
   */
  lemma Accounts(w: World, s: System, acts: seq<Action>, pauses: seq<bool>, n: nat)
    requires n <= |acts| == |pauses| && s.mode == Free
    ensures var t, b := After(w, s, acts, pauses, n), BooksAt(w, s, acts, pauses, n);
            && Pause(w, t, true).mem == Replay(w, s.mem, b.writes, b.lost)
            && b.lost <= Numbers(b.writes) && b.told <= Numbers(b.writes)
            && forall c :: c in Numbers(b.writes) ==>
                 if w.error(c) then ExactlyOne(c in b.lost, c in b.told, Owed(w, t, c)) else c !in b.told
  {
    hide Right, Pause, Replay, Numbers, BooksAt, After, Found;
    var t, b := After(w, s, acts, pauses, n), BooksAt(w, s, acts, pauses, n);
    BooksSound(w, s, acts, pauses, n);
    PauseRight(w, s.mem, t, b, true);
    NothingInFlight(w, s.mem, t, b);
    forall c: nat | c in b.lost || c in b.told || c in Numbers(b.writes)
      ensures Fate(w, t, b, c)
    {
    }
  }

  lemma NothingInFlight(w: World, m: Mem, t: System, b: Books)
    requires Right(w, m, Pause(w, t, true), b)
    ensures Pause(w, t, true).mem == Replay(w, m, b.writes, b.lost)
  {
    hide Replay;
    assert b.lost + {} == b.lost;
  }

  /** What is lost in a run is what some action of it loses. */
  lemma {:induction false} LostIff(w: World, s: System, acts: seq<Action>, pauses: seq<bool>, n: nat, c: nat)
    requires n <= |acts| == |pauses|
    ensures c in BooksAt(w, s, acts, pauses, n).lost <==>
            exists i :: 0 <= i < n && LosesAt(w, s, acts, pauses, i) && Found(w, s, acts, pauses, i).issued == c
  {
    if n > 0 {
      hide Loses, Found, After, Accepts, Tells;
      LostIff(w, s, acts, pauses, n - 1, c);
      assert c in BooksAt(w, s, acts, pauses, n).lost <==>
             || c in BooksAt(w, s, acts, pauses, n - 1).lost
             || (LosesAt(w, s, acts, pauses, n - 1) && Found(w, s, acts, pauses, n - 1).issued == c);
    }
  }

  predicate LosesAt(w: World, s: System, acts: seq<Action>, pauses: seq<bool>, i: int)
    requires 0 <= i < |acts| == |pauses|
  {
    Loses(w, Found(w, s, acts, pauses, i), acts[i])
  }

  // ---------------------------------------------------------------- prompt devices

  /** A reset that works, and finds a write in flight or its error unreported. */
  predicate Drops(w: World, s: System, a: Action) {
    a == Reset(true) && (s.mode.Posted? || (s.mode.Ended? && w.error(s.issued)))
  }

  predicate DropsAt(w: World, s: System, acts: seq<Action>, pauses: seq<bool>, i: int)
    requires 0 <= i < |acts| == |pauses|
  {
    Drops(w, Found(w, s, acts, pauses, i), acts[i])
  }

  lemma {:induction false} StaysPrompt(w: World, s: System, acts: seq<Action>, pauses: seq<bool>, n: nat)
    requires n <= |acts| == |pauses| && Prompt(w, s) && !s.mode.Stuck?
    ensures var t := After(w, s, acts, pauses, n); Prompt(w, t) && !t.mode.Stuck?
  {
    if n > 0 {
      hide Prompt, Act, Pause;
      StaysPrompt(w, s, acts, pauses, n - 1);
      ActStaysPrompt(w, After(w, s, acts, pauses, n - 1), pauses[n - 1], acts[n - 1]);
    }
  }

  lemma ActStaysPrompt(w: World, t: System, ends: bool, a: Action)
    requires Prompt(w, t) && !t.mode.Stuck?
    ensures var u := Pause(w, t, ends); Prompt(w, Act(w, u, a)) && !Act(w, u, a).mode.Stuck?
  {
  }

  /** A prompt device loses exactly the accepted writes that a reset finds in flight, or failed and unreported. */
  lemma PromptLostIff(w: World, s: System, acts: seq<Action>, pauses: seq<bool>, n: nat, c: nat)
    requires n <= |acts| == |pauses| && Prompt(w, s) && s.mode == Free
    ensures c in BooksAt(w, s, acts, pauses, n).lost <==>
            exists i :: 0 <= i < n && DropsAt(w, s, acts, pauses, i) && Found(w, s, acts, pauses, i).issued == c
  {
    hide BooksAt, After, Found;
    LostIff(w, s, acts, pauses, n, c);
    forall i | 0 <= i < n
      ensures LosesAt(w, s, acts, pauses, i) <==> DropsAt(w, s, acts, pauses, i)
    {
      StaysPrompt(w, s, acts, pauses, i);
      AfterNext(w, s, acts, pauses, i);
    }
  }

  // ---------------------------------------------------------------- without resets

  /** No run of calls loses a write. */
  ghost predicate Careful(w: World, s: System) {
    forall calls: seq<Call>, pauses: seq<bool> ::
      |calls| == |pauses| ==> BooksAt(w, s, Calls(calls), pauses, |calls|).lost == {}
  }

  /** If command `c` is a write, calls alone can make the driver lose it. */
  predicate Losable(w: World, c: nat) {
    w.latency(c) > POLLS + 1 || (w.error(c) && w.latency(c) >= POLLS)
  }

  /** From an idle driver, calls alone lose nothing exactly when no command is slow to end or, if it fails, to fail. */
  lemma CarefulIff(w: World, s: System)
    requires s.mode == Free
    ensures Careful(w, s) <==> forall c: nat :: c > s.issued ==> !Losable(w, c)
  {
    if forall c: nat :: c > s.issued ==> !Losable(w, c) {
      forall calls: seq<Call>, pauses: seq<bool> | |calls| == |pauses|
        ensures BooksAt(w, s, Calls(calls), pauses, |calls|).lost == {}
      {
        LosesNothing(w, s, calls, pauses, |calls|);
      }
    } else {
      var c: nat :| c > s.issued && Losable(w, c);
      LosesSome(w, s, c);
    }
  }

  lemma {:induction false} LosesNothing(w: World, s: System, calls: seq<Call>, pauses: seq<bool>, n: nat)
    requires n <= |calls| == |pauses| && s.mode == Free
    requires forall c: nat :: c > s.issued ==> !Losable(w, c)
    ensures BooksAt(w, s, Calls(calls), pauses, n).lost == {}
  {
    if n > 0 {
      hide Act, Pause, Found, After;
      LosesNothing(w, s, calls, pauses, n - 1);
      IssuesOn(w, s, Calls(calls), pauses, n - 1);
      AfterNext(w, s, Calls(calls), pauses, n - 1);
      KeepsLast(w, s, After(w, s, Calls(calls), pauses, n - 1), pauses[n - 1], calls[n - 1]);
    }
  }

  lemma KeepsLast(w: World, s: System, t: System, ends: bool, call: Call)
    requires forall c: nat :: c > s.issued ==> !Losable(w, c)
    requires t.mode != Free ==> t.issued > s.issued
    ensures !Loses(w, Pause(w, t, ends), Do(call))
  {
    assert t.issued > s.issued ==> !Losable(w, t.issued);
  }

  /** Read on to the command before, then write, and read twice. */
  function WriteThenRead(n: nat): (calls: seq<Call>)
    ensures |calls| == n + 3 && (forall i :: 0 <= i < n ==> calls[i] == Read(Key(0, 0, 0)))
    ensures calls[n].Write? && calls[n + 1].Read?
  {
    var read := Read(Key(0, 0, 0));
    seq(n, _ => read) + [Write(Key(0, 0, 0), 1), read, read]
  }

  lemma LosesSome(w: World, s: System, c: nat)
    requires s.mode == Free && c > s.issued && Losable(w, c)
    ensures !Careful(w, s)
  {
    hide Found, After, BooksAt, LosesAt, Act;
    var n := c - s.issued - 1;
    var calls, pauses := WriteThenRead(n), Promptly(n + 3);
    var acts := Calls(calls);
    ReadsIssue(w, s, acts, pauses, n);
    LosesByEnd(w, s, acts, pauses, n);
    var i :| n < i < n + 3 && LosesAt(w, s, acts, pauses, i);
    LostIff(w, s, acts, pauses, n + 3, Found(w, s, acts, pauses, i).issued);
  }

  lemma LosesByEnd(w: World, s: System, acts: seq<Action>, pauses: seq<bool>, n: nat)
    requires |acts| == |pauses| == n + 3 && forall i :: n <= i < n + 3 ==> acts[i].Do? && !pauses[i]
    requires acts[n].call.Write? && acts[n + 1].call.Read?
    requires var t := After(w, s, acts, pauses, n); (t.mode == Free || t.mode.Stuck?) && Losable(w, t.issued + 1)
    ensures exists i :: n < i < n + 3 && LosesAt(w, s, acts, pauses, i)
  {
    hide Found, After, Loses, Next, Losable;
    AfterNext(w, s, acts, pauses, n);
    AfterNext(w, s, acts, pauses, n + 1);
    AfterNext(w, s, acts, pauses, n + 2);
    LosesBySecond(w, After(w, s, acts, pauses, n), acts[n].call, acts[n + 1].call, acts[n + 2].call);
    assert LosesAt(w, s, acts, pauses, n + 1) || LosesAt(w, s, acts, pauses, n + 2);
  }

  lemma LosesBySecond(w: World, t: System, write: Call, read: Call, call: Call)
    requires (t.mode == Free || t.mode.Stuck?) && write.Write? && read.Read? && Losable(w, t.issued + 1)
    ensures var u := Next(w, t, write); Loses(w, u, Do(read)) || Loses(w, Next(w, u, read), Do(call))
  {
    var u := Next(w, t, write);
    assert u.mode == Posted(write) && u.issued == t.issued + 1;
    if w.latency(u.issued) > POLLS + 1 {
      assert Next(w, u, read).mode == Stuck(write) && Next(w, u, read).issued == u.issued;
    }
  }
}
