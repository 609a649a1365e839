/** Who owns what while a set of register-bit files comes and goes (kmods/lib/regbit-sysfs.c). */
module RegbitInit {
  import opened Bits
  import opened Options
  import opened Ownership
  import opened RegbitSysfs

  const ENOMEM := -12

  /** One file: its lock is valid once it has a name. */
  datatype Entry = Entry(named: bool, lock: nat, config: Option<Config>, show: bool, store: bool) {
    /** Set up from `c`, and readable and writable as its mode says. */
    predicate ReadyFor(c: Config) {
      named && config == Some(c) && show == Test(c.mode, 8) && store == Test(c.mode, 7)
    }
  }

  const ZEROED := Entry(false, 0, None, false, false)

  /** The locks of the named entries, in order. */
  function Locks(entries: seq<Entry>): seq<nat> {
    if entries == [] then []
    else (if entries[0].named then [entries[0].lock] else []) + Locks(entries[1..])
  }

  lemma {:induction false} LocksOfNext(entries: seq<Entry>, i: nat, e: Entry)
    requires i < |entries| && e.named && forall j :: i <= j < |entries| ==> !entries[j].named
    ensures Locks(entries[i := e]) == Locks(entries) + [e.lock]
  {
    if i == 0 {
      NoLocks(entries);
      NoLocks(entries[1..]);
      assert entries[0 := e][1..] == entries[1..];
    } else {
      LocksOfNext(entries[1..], i - 1, e);
      assert entries[i := e][1..] == entries[1..][i - 1 := e];
    }
  }

  lemma {:induction false} NoLocks(entries: seq<Entry>)
    requires forall j :: 0 <= j < |entries| ==> !entries[j].named
    ensures Locks(entries) == []
  {
    if entries != [] {
      NoLocks(entries[1..]);
    }
  }

  class Handle {
    const block: nat
    const attrsBlock: nat
    const entriesBlock: nat
    var entries: seq<Entry>
    var attrs: seq<Option<nat>>   // which entry each attribute pointer points into; None ends the list

    constructor (n: nat, block: nat, attrsBlock: nat, entriesBlock: nat)
      ensures entries == seq(n, _ => ZEROED) && attrs == seq(n + 1, _ => None)
      ensures this.block == block && this.attrsBlock == attrsBlock && this.entriesBlock == entriesBlock
    {
      this.block, this.attrsBlock, this.entriesBlock := block, attrsBlock, entriesBlock;
      entries, attrs := seq(n, _ => ZEROED), seq(n + 1, _ => None);
    }

    function Blocks(): seq<nat> {
      [block, attrsBlock, entriesBlock]
    }

    /** Every file is set up from its own configuration, and the attribute list names them all in order. */
    ghost predicate Ready(configs: seq<Config>)
      reads this
    {
      && |entries| == |configs| && |attrs| == |configs| + 1
      && (forall i :: 0 <= i < |configs| ==> entries[i].ReadyFor(configs[i]) && attrs[i] == Some(i))
      && attrs[|configs|] == None
    }
  }

  ghost function BlocksOf(handles: seq<Handle>): seq<nat> {
    if handles == [] then [] else BlocksOf(handles[..|handles| - 1]) + handles[|handles| - 1].Blocks()
  }

  ghost function LocksOf(handles: seq<Handle>): seq<nat>
    reads handles
  {
    if handles == [] then [] else LocksOf(handles[..|handles| - 1]) + Locks(handles[|handles| - 1].entries)
  }

  /** The code of the first configuration refused, 0 if none is. */
  function FirstRefusal(configs: seq<Config>, rc: RegmapConfig): int {
    if configs == [] then 0
    else
      var n := |configs| - 1;
      var before := FirstRefusal(configs[..n], rc);
      if before != 0 then before else Check(configs[n], rc)
  }

  /** The device, and the kernel's side of it. Blocks and locks are numbered as they are made. */
  class Device {
    var blocks: nat
    var freed: seq<nat>
    var locks: nat
    var destroyed: seq<nat>
    var groups: seq<Handle>       // whose files exist
    var actions: seq<Handle>      // what runs when the device goes, last first

    constructor ()
      ensures Settled() && actions == []
    {
      blocks, freed, locks, destroyed, groups, actions := 0, [], 0, [], [], [];
    }

    /** Beside what the actions own, exactly these blocks and locks are in hand. */
    ghost predicate Holding(mine: seq<nat>, myLocks: seq<nat>)
      reads this, actions
    {
      && Once(BlocksOf(actions) + mine, freed, blocks)
      && Once(LocksOf(actions) + myLocks, destroyed, locks)
    }

    /** Every block and lock ever made belongs to an action or was given back once, and live files have an action. */
    ghost predicate Settled()
      reads this, actions
    {
      Holding([], []) && groups == actions
    }

    method Kzalloc(ok: bool, ghost mine: seq<nat>, ghost myLocks: seq<nat>) returns (block: Option<nat>)
      requires Holding(mine, myLocks)
      modifies this`blocks
      ensures block.Some? == ok
      ensures if ok then && block.value == old(blocks) && blocks == old(blocks) + 1
                         && Holding(mine + [block.value], myLocks)
              else blocks == old(blocks)
    {
      hide Once;
      if !ok {
        return None;
      }
      Acquired(BlocksOf(actions) + mine, freed, blocks);
      assert BlocksOf(actions) + mine + [blocks] == BlocksOf(actions) + (mine + [blocks]);
      block := Some(blocks);
      blocks := blocks + 1;
    }

    /** Frees a block that is in hand; it is live. */
    method Kfree(block: nat, ghost mine: seq<nat>, ghost myLocks: seq<nat>)
      requires Holding(mine + [block], myLocks)
      modifies this`freed
      ensures block !in old(freed) && freed == old(freed) + [block] && Holding(mine, myLocks)
    {
      hide Once;
      ghost var all := BlocksOf(actions) + (mine + [block]);
      GivenBack(all, freed, blocks, |all| - 1);
      assert all[..|all| - 1] + all[|all|..] == BlocksOf(actions) + mine;
      freed := freed + [block];
    }

    method MutexInit(ghost mine: seq<nat>, ghost myLocks: seq<nat>) returns (lock: nat)
      requires Holding(mine, myLocks)
      modifies this`locks
      ensures lock == old(locks) && locks == old(locks) + 1 && Holding(mine, myLocks + [lock])
    {
      hide Once;
      Acquired(LocksOf(actions) + myLocks, destroyed, locks);
      assert LocksOf(actions) + myLocks + [locks] == LocksOf(actions) + (myLocks + [locks]);
      lock := locks;
      locks := locks + 1;
    }

    /** Destroys a lock that is in hand; it has been initialised, and not destroyed before. */
    method MutexDestroy(lock: nat, ghost mine: seq<nat>, ghost myLocks: seq<nat>)
      requires Holding(mine, [lock] + myLocks)
      modifies this`destroyed
      ensures lock !in old(destroyed) && lock < locks && destroyed == old(destroyed) + [lock] && Holding(mine, myLocks)
    {
      hide Once;
      ghost var owned := LocksOf(actions);
      ghost var all := owned + ([lock] + myLocks);
      GivenBack(all, destroyed, locks, |owned|);
      assert all[..|owned|] + all[|owned| + 1..] == owned + myLocks;
      destroyed := destroyed + [lock];
    }

    /** regbit_handle_free; the pointers it clears go with the handle. */
    method HandleFree(h: Handle)
      requires Holding(h.Blocks(), [])
      modifies this`freed
      ensures Holding([], [])
    {
      hide Once;
      assert h.Blocks() == [h.block, h.attrsBlock] + [h.entriesBlock];
      Kfree(h.entriesBlock, [h.block, h.attrsBlock], []);
      assert [h.block, h.attrsBlock] == [h.block] + [h.attrsBlock];
      Kfree(h.attrsBlock, [h.block], []);
      assert [h.block] == [] + [h.block];
      Kfree(h.block, [], []);
    }

    /** regbit_handle_alloc; `ok` says which of its three allocations work. */
    method HandleAlloc(n: nat, ok: (bool, bool, bool)) returns (h: Option<Handle>)
      requires Holding([], [])
      modifies this`blocks, this`freed
      ensures h.Some? == (ok.0 && ok.1 && ok.2)
      ensures h.None? ==> Holding([], [])
      ensures h.Some? ==>
                && fresh(h.value) && Holding(h.value.Blocks(), []) && freed == old(freed)
                && h.value.entries == seq(n, _ => ZEROED) && h.value.attrs == seq(n + 1, _ => None)
    {
      hide Once;
      h := None;
      var block := Kzalloc(ok.0, [], []);
      if block == None {
        return;
      }
      var attrs := Kzalloc(ok.1, [] + [block.value], []);
      if attrs == None {
        Kfree(block.value, [], []);
        return;
      }
      var entries := Kzalloc(ok.2, [] + [block.value] + [attrs.value], []);
      if entries == None {
        Kfree(attrs.value, [] + [block.value], []);
        Kfree(block.value, [], []);
        return;
      }
      var handle := new Handle(n, block.value, attrs.value, entries.value);
      assert handle.Blocks() == [] + [block.value] + [attrs.value] + [entries.value];
      return Some(handle);
    }

    /** regbit_attr_uninit: destroys the locks of the named entries. */
    method AttrUninit(h: Handle)
      requires Holding(h.Blocks(), Locks(h.entries))
      modifies this`destroyed
      ensures Holding(h.Blocks(), []) && destroyed == old(destroyed) + Locks(h.entries)
    {
      hide Once, BlocksOf, LocksOf;
      assert h.entries[0..] == h.entries;
      for i := 0 to |h.entries|
        invariant Holding(h.Blocks(), Locks(h.entries[i..]))
        invariant destroyed + Locks(h.entries[i..]) == old(destroyed) + Locks(h.entries)
      {
        ghost var rest := h.entries[i..];
        assert rest[0] == h.entries[i] && rest[1..] == h.entries[i + 1..];
        if h.entries[i].named {
          MutexDestroy(h.entries[i].lock, h.Blocks(), Locks(h.entries[i + 1..]));
        } else {
          assert Locks(rest) == Locks(h.entries[i + 1..]);
        }
      }
    }

    /** regbit_attr_init: all the files get ready, or the locks of those that did are destroyed. */
    method AttrInit(h: Handle, configs: seq<Config>, rc: RegmapConfig) returns (ret: int)
      requires h !in actions && Holding(h.Blocks(), [])
      requires h.entries == seq(|configs|, _ => ZEROED) && h.attrs == seq(|configs| + 1, _ => None)
      modifies h, this`locks, this`destroyed
      ensures ret == FirstRefusal(configs, rc)
      ensures ret == 0 ==> h.Ready(configs) && Holding(h.Blocks(), Locks(h.entries))
      ensures ret == 0 ==> forall i :: 0 <= i < |configs| ==>
                && h.attrs[i] == Some(i) && h.entries[i].config == Some(configs[i])
                && (h.entries[i].show <==> Test(configs[i].mode, 8))
                && (h.entries[i].store <==> Test(configs[i].mode, 7))
      ensures ret == 0 ==> locks == old(locks) + |configs| && destroyed == old(destroyed)
      ensures ret != 0 ==> Holding(h.Blocks(), [])
    {
      hide Once, BlocksOf, Check, Test;
      NoLocks(h.entries);
      ret := 0;
      for i := 0 to |configs|
        invariant ret == 0 == FirstRefusal(configs[..i], rc)
        invariant |h.entries| == |configs| && |h.attrs| == |configs| + 1
        invariant forall j :: 0 <= j < i ==> h.entries[j].ReadyFor(configs[j]) && h.attrs[j] == Some(j)
        invariant forall j :: i <= j < |configs| ==> h.entries[j] == ZEROED
        invariant h.attrs[|configs|] == None
        invariant h !in actions && Holding(h.Blocks(), Locks(h.entries))
        invariant locks == old(locks) + i && destroyed == old(destroyed)
      {
        assert configs[..i + 1][..i] == configs[..i];
        ret := Check(configs[i], rc);
        if ret != 0 {
          RefusedFirst(configs, rc, i);
          AttrUninit(h);
          return;
        }
        SetUp(h, configs[i], i);
      }
      assert configs[..|configs|] == configs;
    }

    method SetUp(h: Handle, c: Config, i: nat)
      requires h !in actions && Holding(h.Blocks(), Locks(h.entries))
      requires i < |h.entries| && i < |h.attrs| && forall j :: i <= j < |h.entries| ==> !h.entries[j].named
      modifies h, this`locks
      ensures h !in actions && Holding(h.Blocks(), Locks(h.entries)) && locks == old(locks) + 1
      ensures h.entries == old(h.entries)[i := Entry(true, old(locks), Some(c), Test(c.mode, 8), Test(c.mode, 7))]
      ensures h.attrs == old(h.attrs)[i := Some(i)]
    {
      hide Once, BlocksOf, Locks;
      var lock := MutexInit(h.Blocks(), Locks(h.entries));
      var e := Entry(true, lock, Some(c), Test(c.mode, 8), Test(c.mode, 7));
      LocksOfNext(h.entries, i, e);
      h.entries := h.entries[i := e];
      h.attrs := h.attrs[i := Some(i)];
    }

    /** regbit_sysfs_uninit, with the handle's files live and no action of its own any more. */
    method SysfsUninit(h: Handle)
      requires Holding(h.Blocks(), Locks(h.entries)) && groups == actions + [h]
      modifies this`groups, this`destroyed, this`freed
      ensures Settled()
    {
      hide Once, BlocksOf, LocksOf, Locks;
      groups := groups[..|groups| - 1];
      AttrUninit(h);
      HandleFree(h);
    }

    /**
     regbit_sysfs_init_common. Whatever fails, nothing is left behind; if nothing does, an action owns the new handle.
     The parameters say which allocations work and how creating the group and adding the action go.
     */
    method SysfsInitCommon(configs: seq<Config>, rc: RegmapConfig, ok: (bool, bool, bool), groupErr: int,
                           actionErr: int)
        returns (ret: int)
      requires Settled()
      modifies this
      ensures Settled()
      ensures ret == if !(ok.0 && ok.1 && ok.2) then -12
                     else if FirstRefusal(configs, rc) != 0 then FirstRefusal(configs, rc)
                     else if groupErr != 0 then groupErr
                     else actionErr
      ensures ret != 0 ==> actions == old(actions)
      ensures ret == 0 ==>
                && |actions| == |old(actions)| + 1 && actions[..|old(actions)|] == old(actions)
                && fresh(actions[|old(actions)|]) && actions[|old(actions)|].Ready(configs)
                && freed == old(freed) && destroyed == old(destroyed)
    {
      hide Once, BlocksOf, Locks;
      var handle := HandleAlloc(|configs|, ok);
      if handle == None {
        return ENOMEM;
      }
      var h := handle.value;
      ret := AttrInit(h, configs, rc);
      if ret != 0 {
        HandleFree(h);
        return;
      }
      ret := groupErr;
      if ret != 0 {
        AttrUninit(h);
        HandleFree(h);
        return;
      }
      groups := groups + [h];
      ret := DevmAddActionOrReset(h, actionErr);
    }

    method DevmAddActionOrReset(h: Handle, actionErr: int) returns (ret: int)
      requires Holding(h.Blocks(), Locks(h.entries)) && groups == actions + [h]
      modifies this
      ensures Settled() && ret == actionErr && (ret != 0 ==> actions == old(actions))
      ensures ret == 0 ==> actions == old(actions) + [h] && freed == old(freed) && destroyed == old(destroyed)
    {
      hide Once, Locks;
      ret := actionErr;
      if ret != 0 {
        SysfsUninit(h);
        return;
      }
      ghost var before := actions;
      actions := actions + [h];
      assert actions[..|actions| - 1] == before;
      assert BlocksOf(actions) + [] == BlocksOf(before) + h.Blocks();
      assert LocksOf(actions) + [] == LocksOf(before) + Locks(h.entries);
    }

    /** The device goes: every action runs, and every block and lock ever made has been given back exactly once. */
    method Gone()
      requires Settled()
      modifies this
      ensures Settled() && actions == [] && groups == []
      ensures forall b: nat :: multiset(freed)[b] == if b < blocks then 1 else 0
      ensures forall l: nat :: multiset(destroyed)[l] == if l < locks then 1 else 0
    {
      hide Once, Locks;
      while actions != []
        invariant Settled()
        decreases |actions|
      {
        ghost var before := actions;
        var h := actions[|actions| - 1];
        actions := actions[..|actions| - 1];
        assert BlocksOf(before) + [] == BlocksOf(actions) + h.Blocks();
        assert LocksOf(before) + [] == LocksOf(actions) + Locks(h.entries);
        assert groups == actions + [h];
        SysfsUninit(h);
      }
      assert BlocksOf(actions) + [] == [] && LocksOf(actions) + [] == [];
      AllBack(freed, blocks);
      AllBack(destroyed, locks);
    }
  }

  lemma {:induction false} RefusedFirst(configs: seq<Config>, rc: RegmapConfig, i: nat)
    requires i < |configs| && FirstRefusal(configs[..i], rc) == 0 && Check(configs[i], rc) != 0
    ensures FirstRefusal(configs, rc) == Check(configs[i], rc)
    decreases |configs|
  {
    hide Check;
    var n := |configs| - 1;
    if i < n {
      assert configs[..n][..i] == configs[..i];
      RefusedFirst(configs[..n], rc, i);
    }
  }

  /** The set is accepted exactly when each of its configurations is. */
  lemma {:induction false} AcceptedIff(configs: seq<Config>, rc: RegmapConfig)
    ensures FirstRefusal(configs, rc) == 0 <==> forall i :: 0 <= i < |configs| ==> Check(configs[i], rc) == 0
    decreases |configs|
  {
    hide Check;
    if configs != [] {
      var n := |configs| - 1;
      AcceptedIff(configs[..n], rc);
      assert forall i :: 0 <= i < n ==> configs[..n][i] == configs[i];
      if FirstRefusal(configs, rc) == 0 {
        assert forall i :: 0 <= i < n ==> Check(configs[..n][i], rc) == 0;
      }
    }
  }
}
