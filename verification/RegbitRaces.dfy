/**
 Concurrent stores to register-bit files (kmods/lib/regbit-sysfs.c). A store reads the register in one step and writes
 it in another, holding only the lock of its own file; each file has one field.
 */
module RegbitRaces {
  import opened Bits
  import opened RegisterFields

  /** One pending store: to file `entry`, and how its two bus accesses end. */
  datatype Task = Task(entry: nat, store: Store, readOk: bool, writeOk: bool)

  datatype Phase = Waiting | Loaded(val: nat) | Finished

  /** Registers, the phase of every task, and the tasks that have written, in order. */
  datatype System = System(regs: map<nat, nat>, phases: seq<Phase>, commits: seq<nat>)

  predicate LockHeld(tasks: seq<Task>, phases: seq<Phase>, entry: nat)
    requires |phases| == |tasks|
  {
    exists u :: 0 <= u < |tasks| && phases[u].Loaded? && tasks[u].entry == entry
  }

  /** Task `t` takes its next step: lock and read, or write and unlock; a task that waits for the lock stays. */
  function Advance(tasks: seq<Task>, s: System, t: nat): (s': System)
    requires |s.phases| == |tasks| && t < |tasks|
    ensures |s'.phases| == |tasks|
  {
    var field := tasks[t].store.field;
    match s.phases[t]
    case Finished => s
    case Waiting =>
      if LockHeld(tasks, s.phases, tasks[t].entry) then s
      else s.(phases := s.phases[t := if tasks[t].readOk then Loaded(Peek(s.regs, field.reg)) else Finished])
    case Loaded(val) =>
      var done := s.(phases := s.phases[t := Finished]);
      if !tasks[t].writeOk then done
      else done.(regs := s.regs[field.reg := Put(val, field.offset, field.bits, tasks[t].store.input)],
                 commits := s.commits + [t])
  }

  /** Any interleaving: `schedule` names the task that moves at each step. */
  function Interleave(tasks: seq<Task>, s: System, schedule: seq<nat>): (s': System)
    requires |s.phases| == |tasks| && forall i :: 0 <= i < |schedule| ==> schedule[i] < |tasks|
    ensures |s'.phases| == |tasks|
  {
    if schedule == [] then s
    else Advance(tasks, Interleave(tasks, s, schedule[..|schedule| - 1]), schedule[|schedule| - 1])
  }

  function Start(regs: map<nat, nat>, n: nat): System {
    System(regs, seq(n, _ => Waiting), [])
  }

  function Stores(tasks: seq<Task>, order: seq<nat>): (r: seq<Store>)
    requires forall i :: 0 <= i < |order| ==> order[i] < |tasks|
    ensures |r| == |order| && forall i :: 0 <= i < |order| ==> r[i] == tasks[order[i]].store
  {
    seq(|order|, i requires 0 <= i < |order| => tasks[order[i]].store)
  }

  /** The lock of a file admits one store at a time, in every interleaving. */
  lemma {:induction false} OneAtATime(tasks: seq<Task>, regs: map<nat, nat>, schedule: seq<nat>, t: nat, u: nat)
    requires Schedule(tasks, schedule) && t < |tasks| && u < |tasks| && t != u && tasks[t].entry == tasks[u].entry
    ensures var s := Interleave(tasks, Start(regs, |tasks|), schedule);
            !(s.phases[t].Loaded? && s.phases[u].Loaded?)
    decreases |schedule|
  {
    hide Put;
    if schedule != [] {
      OneAtATime(tasks, regs, schedule[..|schedule| - 1], t, u);
    }
  }

  // ---------------------------------------------------------------- serial orders

  /** The tasks are stores to the files of a table, whose fields are `files`. */
  ghost predicate StoresTo(files: seq<Field>, tasks: seq<Task>) {
    forall t :: 0 <= t < |tasks| ==> tasks[t].entry < |files| && tasks[t].store.field == files[tasks[t].entry]
  }

  ghost predicate Schedule(tasks: seq<Task>, schedule: seq<nat>) {
    forall i :: 0 <= i < |schedule| ==> schedule[i] < |tasks|
  }

  /** `order` runs exactly the tasks that have written, each as often. */
  ghost predicate OrderOf(s: System, order: seq<nat>) {
    multiset(order) == multiset(s.commits)
  }

  /** The registers are those of some serial order of the tasks that have written. */
  ghost predicate Serializable(tasks: seq<Task>, regs: map<nat, nat>, s: System) {
    exists order: seq<nat> ::
      OrderOf(s, order) && Schedule(tasks, order) && s.regs == ApplyAll(regs, Stores(tasks, order))
  }

  /** The two fields are the same bits. */
  predicate SameBits(f: Field, g: Field) {
    f.bits == g.bits && (f.offset == g.offset || f.bits == 0)
  }

  /** Files of one register are files of the same bits of it. */
  ghost predicate Compatible(files: seq<Field>) {
    forall i, j :: 0 <= i < |files| && 0 <= j < |files| && files[i].reg == files[j].reg ==> SameBits(files[i], files[j])
  }

  // ---------------------------------------------------------------- compatible files

  /** A serial run of the tasks that wrote; a task that has loaded would write what a fresh read would make it write. */
  ghost predicate Serial(tasks: seq<Task>, regs: map<nat, nat>, s: System) {
    && |s.phases| == |tasks|
    && Schedule(tasks, s.commits)
    && s.regs == ApplyAll(regs, Stores(tasks, s.commits))
    && (forall t :: 0 <= t < |tasks| && s.phases[t].Loaded? ==> UpToDate(tasks[t].store, s.phases[t].val, s.regs))
  }

  ghost predicate UpToDate(store: Store, val: nat, regs: map<nat, nat>) {
    var f := store.field;
    Put(val, f.offset, f.bits, store.input) == Put(Peek(regs, f.reg), f.offset, f.bits, store.input)
  }

  /** Exactly the finished tasks whose accesses both worked have written, each once. */
  ghost predicate Counted(tasks: seq<Task>, s: System) {
    && |s.phases| == |tasks|
    && (forall i, j :: 0 <= i < j < |s.commits| ==> s.commits[i] != s.commits[j])
    && (forall t :: t in s.commits <==>
                    0 <= t < |tasks| && s.phases[t].Finished? && tasks[t].readOk && tasks[t].writeOk)
    && (forall t :: 0 <= t < |tasks| && s.phases[t].Loaded? ==> tasks[t].readOk)
  }

  /** With compatible files, every interleaving is as good as the serial order in which the tasks wrote. */
  lemma {:induction false} InterleavingIsSerial(files: seq<Field>, tasks: seq<Task>, regs: map<nat, nat>,
                                                schedule: seq<nat>)
    requires Compatible(files) && StoresTo(files, tasks) && Schedule(tasks, schedule)
    ensures Serial(tasks, regs, Interleave(tasks, Start(regs, |tasks|), schedule))
    ensures Counted(tasks, Interleave(tasks, Start(regs, |tasks|), schedule))
    decreases |schedule|
  {
    hide Compatible, UpToDate;
    if schedule != [] {
      var n := |schedule| - 1;
      InterleavingIsSerial(files, tasks, regs, schedule[..n]);
      var s := Interleave(tasks, Start(regs, |tasks|), schedule[..n]);
      AdvanceSerial(files, tasks, regs, s, schedule[n]);
      AdvanceCounted(tasks, s, schedule[n]);
    }
  }

  lemma AdvanceSerial(files: seq<Field>, tasks: seq<Task>, regs: map<nat, nat>, s: System, t: nat)
    requires Compatible(files) && StoresTo(files, tasks) && Serial(tasks, regs, s) && t < |tasks|
    ensures Serial(tasks, regs, Advance(tasks, s, t))
  {
    hide Compatible, Put, LockHeld;
    if s.phases[t].Loaded? && tasks[t].writeOk {
      CommitSerial(files, tasks, regs, s, t);
    }
  }

  lemma CommitSerial(files: seq<Field>, tasks: seq<Task>, regs: map<nat, nat>, s: System, t: nat)
    requires Compatible(files) && StoresTo(files, tasks) && Serial(tasks, regs, s)
    requires t < |tasks| && s.phases[t].Loaded? && tasks[t].writeOk
    ensures Serial(tasks, regs, Advance(tasks, s, t))
  {
    hide Put;
    var s' := Advance(tasks, s, t);
    var order := s'.commits;
    assert order[..|order| - 1] == s.commits;
    assert Stores(tasks, order)[..|order| - 1] == Stores(tasks, s.commits);
    assert UpToDate(tasks[t].store, s.phases[t].val, s.regs);
    assert s'.regs == Apply(s.regs, tasks[t].store);
    forall u | 0 <= u < |tasks| && s'.phases[u].Loaded?
      ensures UpToDate(tasks[u].store, s'.phases[u].val, s'.regs)
    {
      assert s'.phases[u] == s.phases[u];
      assert UpToDate(tasks[u].store, s.phases[u].val, s.regs);
      StaysUpToDate(tasks[u].store, s.phases[u].val, s.regs, tasks[t].store);
    }
  }

  /** Another store to the same bits, or to another register, changes nothing about what a loaded task will write. */
  lemma StaysUpToDate(store: Store, val: nat, regs: map<nat, nat>, other: Store)
    requires UpToDate(store, val, regs)
    requires store.field.reg == other.field.reg ==> SameBits(store.field, other.field)
    ensures UpToDate(store, val, Apply(regs, other))
  {
    var f, g := store.field, other.field;
    var r := Peek(regs, g.reg);
    if f.reg == g.reg {
      PutTwice(r, g.offset, g.bits, other.input, store.input);
      if f.bits == 0 {
        PutChangesIff(r, f.offset, 0, store.input);
        PutChangesIff(r, g.offset, 0, other.input);
        NoBits(store.input, r, f.offset);
        NoBits(other.input, r, g.offset);
      }
    }
  }

  lemma {:induction false} NoBits(v: nat, r: nat, lo: nat)
    ensures Get(v, 0, 0) == Get(r, lo, 0) == 0
    decreases lo
  {
    if lo > 0 {
      NoBits(v, r / 2, lo - 1);
    }
  }

  lemma AdvanceCounted(tasks: seq<Task>, s: System, t: nat)
    requires Counted(tasks, s) && t < |tasks|
    ensures Counted(tasks, Advance(tasks, s, t))
  {
    hide Put, LockHeld;
    var s' := Advance(tasks, s, t);
    if s.phases[t].Loaded? && tasks[t].writeOk {
      assert t !in s.commits;
      assert forall u :: u in s'.commits <==> u in s.commits || u == t;
    }
  }

  // ---------------------------------------------------------------- incompatible files

  /** Bit `b` of the register belongs to field `f`. */
  predicate Covers(f: Field, b: nat) {
    f.offset <= b < f.offset + f.bits
  }

  function BitAt(regs: map<nat, nat>, reg: nat, b: nat): nat {
    Get(Peek(regs, reg), b, 1)
  }

  /**
   Files `i` and `j` of one register, where `i` has a bit `b` that `j` has not: let both read before either writes, and
   `j` write last. A store to `i` that changes bit `b` is lost, and no serial order of the two gives that result.
   */
  lemma LostUpdate(files: seq<Field>, i: nat, j: nat, b: nat, x: nat, y: nat, regs: map<nat, nat>)
    requires i < |files| && j < |files| && i != j && files[i].reg == files[j].reg
    requires Covers(files[i], b) && !Covers(files[j], b)
    requires Get(x, b - files[i].offset, 1) != BitAt(regs, files[i].reg, b)
    ensures var tasks := [Task(i, Store(files[i], x), true, true), Task(j, Store(files[j], y), true, true)];
            var end := Interleave(tasks, Start(regs, 2), [0, 1, 0, 1]);
            && end.commits == [0, 1]
            && BitAt(end.regs, files[i].reg, b) == BitAt(regs, files[i].reg, b)
            && !Serializable(tasks, regs, end)
  {
    hide Get, Put, Covers;
    var f, g := files[i], files[j];
    var a, c := Store(f, x), Store(g, y);
    var tasks := [Task(i, a, true, true), Task(j, c, true, true)];
    var end := LostRun(tasks, regs);
    BitOfStore(regs, c, b);
    forall order: seq<nat> | OrderOf(end, order) && Schedule(tasks, order)
      ensures end.regs != ApplyAll(regs, Stores(tasks, order))
    {
      TwoOrders(end, order);
      BitOfStore(Apply(regs, a), c, b);
      BitOfStore(regs, a, b);
      BitOfStore(Apply(regs, c), a, b);
      if order == [0, 1] {
        assert Stores(tasks, order) == [a, c];
      } else {
        assert Stores(tasks, order) == [c, a];
      }
      ApplyTwo(regs, a, c);
      ApplyTwo(regs, c, a);
    }
  }

  lemma BitOfStore(regs: map<nat, nat>, s: Store, b: nat)
    ensures BitAt(Apply(regs, s), s.field.reg, b)
         == if Covers(s.field, b) then Get(s.input, b - s.field.offset, 1) else BitAt(regs, s.field.reg, b)
  {
    var r := Peek(regs, s.field.reg);
    if Covers(s.field, b) {
      PutBit(r, s.field.offset, s.field.bits, s.input, b);
    } else {
      GetPutOther(r, s.field.offset, s.field.bits, s.input, b, 1);
    }
  }

  lemma ApplyTwo(regs: map<nat, nat>, a: Store, c: Store)
    ensures ApplyAll(regs, [a, c]) == Apply(Apply(regs, a), c)
  {
    assert [a, c][..1] == [a] && [a][..0] == [];
    assert ApplyAll(regs, [a]) == Apply(regs, a);
  }

  lemma TwoOrders(s: System, order: seq<nat>)
    requires s.commits == [0, 1] && OrderOf(s, order)
    ensures order == [0, 1] || order == [1, 0]
  {
    assert |order| == |multiset(order)| == 2;
    assert order == [order[0], order[1]];
    assert multiset(order) == multiset{order[0], order[1]};
    assert order[0] in multiset(order) && order[1] in multiset(order);
    assert multiset(order)[0] == 1 && multiset(order)[1] == 1;
  }

  lemma LostRun(tasks: seq<Task>, regs: map<nat, nat>) returns (end: System)
    requires |tasks| == 2 && tasks[0].entry != tasks[1].entry
    requires tasks[0].readOk && tasks[0].writeOk && tasks[1].readOk && tasks[1].writeOk
    requires tasks[0].store.field.reg == tasks[1].store.field.reg
    ensures end == Interleave(tasks, Start(regs, 2), [0, 1, 0, 1])
    ensures end.commits == [0, 1]
    ensures var g := tasks[1].store;
            && g.field.reg in end.regs
            && end.regs[g.field.reg] == Put(Peek(regs, g.field.reg), g.field.offset, g.field.bits, g.input)
  {
    hide Put;
    var s := Start(regs, 2);
    var s1 := Advance(tasks, s, 0);
    var s2 := Advance(tasks, s1, 1);
    var s3 := Advance(tasks, s2, 0);
    end := Advance(tasks, s3, 1);
    assert s1.phases == [Loaded(Peek(regs, tasks[0].store.field.reg)), Waiting];
    assert !LockHeld(tasks, s1.phases, tasks[1].entry);
    assert s2.phases == [Loaded(Peek(regs, tasks[0].store.field.reg)), Loaded(Peek(regs, tasks[1].store.field.reg))];
    Prefixes(tasks, s);
  }

  lemma Prefixes(tasks: seq<Task>, s: System)
    requires |tasks| == 2 == |s.phases|
    ensures Interleave(tasks, s, [0, 1, 0, 1])
         == Advance(tasks, Advance(tasks, Advance(tasks, Advance(tasks, s, 0), 1), 0), 1)
  {
    hide Advance;
    assert [0, 1, 0, 1][..3] == [0, 1, 0] && [0, 1, 0][..2] == [0, 1] && [0, 1][..1] == [0] && [0][..0] == [];
    assert Interleave(tasks, s, [0]) == Advance(tasks, s, 0);
    assert Interleave(tasks, s, [0, 1]) == Advance(tasks, Interleave(tasks, s, [0]), 1);
    assert Interleave(tasks, s, [0, 1, 0]) == Advance(tasks, Interleave(tasks, s, [0, 1]), 0);
  }

  // ---------------------------------------------------------------- exactly when

  /** Every interleaving of any stores to the files, from any registers, ends as some serial order. */
  ghost predicate Safe(files: seq<Field>) {
    forall tasks: seq<Task>, regs: map<nat, nat>, schedule: seq<nat> ::
      StoresTo(files, tasks) && Schedule(tasks, schedule) ==>
        Serializable(tasks, regs, Interleave(tasks, Start(regs, |tasks|), schedule))
  }

  /** A table of files is safe exactly when those that share a register are the same bits of it. */
  lemma SafeIff(files: seq<Field>)
    ensures Safe(files) <==> Compatible(files)
  {
    if Compatible(files) {
      forall tasks: seq<Task>, regs: map<nat, nat>, schedule: seq<nat>
        | StoresTo(files, tasks) && Schedule(tasks, schedule)
        ensures Serializable(tasks, regs, Interleave(tasks, Start(regs, |tasks|), schedule))
      {
        hide Compatible;
        InterleavingIsSerial(files, tasks, regs, schedule);
        var s := Interleave(tasks, Start(regs, |tasks|), schedule);
        assert OrderOf(s, s.commits);
      }
    } else {
      var i, j :| 0 <= i < |files| && 0 <= j < |files| && files[i].reg == files[j].reg && !SameBits(files[i], files[j]);
      var b := OwnBit(files[i], files[j]);
      if Covers(files[i], b) {
        Unsafe(files, i, j, b);
      } else {
        Unsafe(files, j, i, b);
      }
    }
  }

  lemma Unsafe(files: seq<Field>, i: nat, j: nat, b: nat)
    requires i < |files| && j < |files| && files[i].reg == files[j].reg
    requires Covers(files[i], b) && !Covers(files[j], b)
    ensures !Safe(files)
  {
    hide Interleave, Serializable, Get;
    var x := Pow2(files[i].bits) - 1;
    ZeroFields(b, 1);
    AllOnes(files[i].bits, b - files[i].offset);
    LostUpdate(files, i, j, b, x, 0, map[]);
    var tasks := [Task(i, Store(files[i], x), true, true), Task(j, Store(files[j], 0), true, true)];
    var schedule: seq<nat> := [0, 1, 0, 1];
    assert StoresTo(files, tasks) && Schedule(tasks, schedule);
    assert !Serializable(tasks, map[], Interleave(tasks, Start(map[], |tasks|), schedule));
  }

  lemma AllOnes(n: nat, k: nat)
    requires k < n
    ensures Get(Pow2(n) - 1, k, 1) == 1
  {
    GetComplement(0, k, 1, n);
    ZeroFields(k, 1);
    Powers();
  }

  /** Fields that are not the same bits differ in one. */
  lemma OwnBit(f: Field, g: Field) returns (b: nat)
    requires !SameBits(f, g)
    ensures Covers(f, b) != Covers(g, b)
  {
    if f.bits > 0 && !Covers(g, f.offset) {
      b := f.offset;
    } else if g.bits > 0 && !Covers(f, g.offset) {
      b := g.offset;
    } else if f.bits > 0 && !Covers(g, f.offset + f.bits - 1) {
      b := f.offset + f.bits - 1;
    } else {
      b := g.offset + g.bits - 1;
    }
  }

  /** With fields that share no bit: exactly when no two files share a register. */
  lemma SafeWhenApartIff(files: seq<Field>)
    requires forall i :: 0 <= i < |files| ==> files[i].bits > 0
    requires forall i, j :: 0 <= i < j < |files| ==> Apart(files[i], files[j])
    ensures Safe(files) <==> forall i, j :: 0 <= i < j < |files| ==> files[i].reg != files[j].reg
  {
    hide Safe;
    SafeIff(files);
    if Compatible(files) {
      forall i, j | 0 <= i < j < |files|
        ensures files[i].reg != files[j].reg
      {
        assert Apart(files[i], files[j]);
      }
    }
  }
}
