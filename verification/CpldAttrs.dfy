/** The dynamic attribute table of the CPLD driver (kmods/lib/fbcpld-cdev.c). Its two ioctls are taken one at a time. */
module CpldAttrs {
  import opened Bits
  import opened Options
  import opened RegisterFields
  import RegbitSysfs
  import opened SysfsText

  const EINVAL := -22
  const ENOSPC := -28
  const MAX_ATTRS := 64

  /** A requested attribute; the name is what strncmp compares, up to its terminator. */
  datatype Attr = Attr(name: string, mode: u32, regAddr: u32, bitOffset: u32, numBits: u32, flags: u32, help: string) {
    function AsField(): Field {
      Field(regAddr, bitOffset, numBits)
    }

    predicate Readable() {
      Test(mode, 8)
    }

    /** The same file in the terms of the register-bit layer, whose show callback this driver repeats. */
    function AsConfig(): RegbitSysfs.Config {
      RegbitSysfs.Config(mode, regAddr, bitOffset, numBits, Test(flags, 1), Test(flags, 2), Test(flags, 3), help)
    }
  }

  /** fbcpld_validate_attr */
  function ValidateAttr(a: Attr): int {
    var offset: int, bits: int := a.bitOffset, a.numBits;
    if a.name == "" then EINVAL
    else if !Test(a.mode, 8) && !Test(a.mode, 7) then EINVAL
    else if a.regAddr > 0xFF then EINVAL
    else if offset >= 8 then EINVAL
    else if bits == 0 || bits > 8 then EINVAL
    else if (offset + bits) % 0x1_0000_0000 > 8 then EINVAL
    else 0
  }

  predicate Valid(a: Attr) {
    ValidateAttr(a) == 0
  }

  /** What is accepted is exactly a named, usable attribute whose field lies within an 8-bit register. */
  lemma ValidIff(a: Attr)
    ensures ValidateAttr(a) in {0, -22}
    ensures Valid(a) <==>
            && a.name != "" && (Test(a.mode, 8) || Test(a.mode, 7)) && a.regAddr <= 0xFF
            && a.numBits >= 1 && a.bitOffset + a.numBits <= 8
  {
  }

  // ---------------------------------------------------------------- which requests are taken

  predicate HasName(table: seq<Attr>, name: string) {
    exists i :: 0 <= i < |table| && table[i].name == name
  }

  /** Request `i` is valid, and its name is new: neither in the table nor that of an earlier valid request. */
  predicate Wanted(table: seq<Attr>, req: seq<Attr>, i: nat)
    requires i < |req|
  {
    Valid(req[i]) && !HasName(table, req[i].name) && !EarlierName(req, i)
  }

  predicate EarlierName(req: seq<Attr>, i: nat)
    requires i < |req|
  {
    exists j :: 0 <= j < i && Valid(req[j]) && req[j].name == req[i].name
  }

  /** The wanted ones among the first `k` requests, in order. */
  function Chosen(table: seq<Attr>, req: seq<Attr>, k: nat): (c: seq<Attr>)
    requires k <= |req|
    ensures |c| <= k
  {
    if k == 0 then []
    else Chosen(table, req, k - 1) + if Wanted(table, req, k - 1) then [req[k - 1]] else []
  }

  /** After the first `k` requests, a name is taken exactly when it was before or a valid request had it. */
  lemma {:induction false} TakenIff(table: seq<Attr>, req: seq<Attr>, k: nat, name: string)
    requires k <= |req|
    ensures HasName(table + Chosen(table, req, k), name) <==>
            HasName(table, name) || exists j :: 0 <= j < k && Valid(req[j]) && req[j].name == name
  {
    hide Valid;
    if k == 0 {
      assert table + Chosen(table, req, 0) == table;
    } else {
      TakenIff(table, req, k - 1, name);
      var before, now := table + Chosen(table, req, k - 1), table + Chosen(table, req, k);
      if Wanted(table, req, k - 1) {
        assert now == before + [req[k - 1]];
        HasNameAppend(before, req[k - 1], name);
      } else {
        assert now == before;
      }
    }
  }

  lemma HasNameAppend(table: seq<Attr>, a: Attr, name: string)
    ensures HasName(table + [a], name) <==> HasName(table, name) || a.name == name
  {
    if HasName(table, name) {
      var i :| 0 <= i < |table| && table[i].name == name;
      assert (table + [a])[i].name == name;
    }
    assert (table + [a])[|table|] == a;
  }

  /** So the duplicate check of the loop finds exactly what is not wanted. */
  lemma WantedIff(table: seq<Attr>, req: seq<Attr>, i: nat)
    requires i < |req| && Valid(req[i])
    ensures Wanted(table, req, i) <==> !HasName(table + Chosen(table, req, i), req[i].name)
  {
    hide Valid, Chosen;
    TakenIff(table, req, i, req[i].name);
  }

  lemma NothingChosen(table: seq<Attr>, req: seq<Attr>)
    ensures table + Chosen(table, req, 0) == table
  {
  }

  lemma ChosenNext(table: seq<Attr>, req: seq<Attr>, i: nat)
    requires i < |req|
    ensures var before, now := table + Chosen(table, req, i), table + Chosen(table, req, i + 1);
            now == if Wanted(table, req, i) then before + [req[i]] else before
  {
    hide Wanted;
  }

  /** So the loop's tests, made on the table so far, decide what becomes of it. */
  lemma ChosenStep(table: seq<Attr>, req: seq<Attr>, i: nat, now: seq<Attr>)
    requires i < |req| && now == table + Chosen(table, req, i)
    ensures !Valid(req[i]) || HasName(now, req[i].name) ==>
              !Wanted(table, req, i) && now == table + Chosen(table, req, i + 1)
    ensures Valid(req[i]) && !HasName(now, req[i].name) ==>
              Wanted(table, req, i) && now + [req[i]] == table + Chosen(table, req, i + 1)
  {
    hide Chosen, HasName;
    ChosenNext(table, req, i);
    if Valid(req[i]) {
      WantedIff(table, req, i);
    }
  }

  // ---------------------------------------------------------------- the table

  /** Names differ, fields fit. */
  ghost predicate WellFormed(table: seq<Attr>) {
    && |table| <= MAX_ATTRS
    && (forall i :: 0 <= i < |table| ==> Valid(table[i]))
    && (forall i, j :: 0 <= i < j < |table| ==> table[i].name != table[j].name)
  }

  ghost function Names(table: seq<Attr>): set<string> {
    set i | 0 <= i < |table| :: table[i].name
  }

  lemma WellFormedAppend(table: seq<Attr>, a: Attr)
    requires WellFormed(table) && Valid(a) && !HasName(table, a.name) && |table| < MAX_ATTRS
    ensures WellFormed(table + [a]) && Names(table + [a]) == Names(table) + {a.name} && a.name !in Names(table)
  {
    hide Valid;
    var t := table + [a];
    assert forall i :: 0 <= i < |table| ==> t[i] == table[i];
    assert t[|table|] == a;
  }

  class Descriptor {
    const entries: array<Attr>
    const sysfs: nat -> int      // the error code of each sysfs_create_file, 0 if it works
    var numEntries: nat
    var files: set<string>       // live attribute files
    var creates: nat             // sysfs_create_file calls so far

    constructor (sysfs: nat -> int)
      ensures Inv() && Table() == [] && this.sysfs == sysfs
    {
      entries := new Attr[MAX_ATTRS](_ => Attr("", 0, 0, 0, 0, 0, ""));
      this.sysfs, numEntries, files, creates := sysfs, 0, {}, 0;
    }

    ghost predicate Shape()
      reads this
    {
      entries.Length == MAX_ATTRS && numEntries <= MAX_ATTRS
    }

    ghost function Table(): seq<Attr>
      requires Shape()
      reads this, entries
    {
      entries[..numEntries]
    }

    /** Between ioctls: distinct names, fields within the register, and live files are the names of the table. */
    ghost predicate Inv()
      reads this, entries
    {
      Shape() && WellFormed(Table()) && files == Names(Table())
    }

    /** fbcpld_entry_exists */
    method EntryExists(name: string) returns (found: bool)
      requires Shape()
      ensures found == HasName(Table(), name)
    {
      var i := 0;
      while i < numEntries
        invariant 0 <= i <= numEntries
        invariant forall j :: 0 <= j < i ==> entries[j].name != name
      {
        if entries[i].name == name {
          assert Table()[i].name == name;
          return true;
        }
        i := i + 1;
      }
      return false;
    }

    /** The calls of sysfs_create_file from one number to another work. */
    ghost predicate Worked(from: int, to: int) {
      forall c: nat :: from <= c < to ==> sysfs(c) == 0
    }

    lemma WorkedNext(from: nat, to: nat)
      requires Worked(from, to)
      ensures sysfs(to) == 0 ==> Worked(from, to + 1)
    {
    }

    /**
     fbcpld_sysfs_create: the wanted requests are appended in order, up to the first one for which there is no room or
     no file, `stop`; the code returned is that failure, or else whether the last request was valid.
     */
    method SysfsCreate(req: seq<Attr>) returns (ret: int, ghost stop: nat)
      requires Inv()
      modifies this`numEntries, this`files, this`creates, entries
      ensures Inv()
      ensures |req| == 0 || |req| > 64 ==> ret == -22 && Table() == old(Table())
      ensures 0 < |req| <= 64 ==>
                && stop <= |req|
                && Table() == old(Table()) + Chosen(old(Table()), req, stop)
                && Worked(old(creates), old(creates) + |Table()| - |old(Table())|)
                && (stop == |req| ==> ret == ValidateAttr(req[|req| - 1]))
                && (stop < |req| ==>
                     && Wanted(old(Table()), req, stop)
                     && if |Table()| == 64 then ret == -28
                        else ret == sysfs(old(creates) + |Table()| - |old(Table())|) != 0)
    {
      hide ValidateAttr, WellFormed, Names, HasName, Wanted, Chosen, Worked;
      stop := 0;
      if |req| == 0 || |req| > MAX_ATTRS {
        return EINVAL, 0;
      }
      ghost var table := Table();
      ret := 0;
      NothingChosen(table, req);
      assert Worked(creates, creates) by { NothingCreated(creates); }
      for i := 0 to |req|
        invariant Inv()
        invariant Table() == table + Chosen(table, req, i)
        invariant creates == old(creates) + |Table()| - |table|
        invariant Worked(old(creates), creates)
        invariant i > 0 ==> ret == ValidateAttr(req[i - 1])
      {
        stop := i;
        ret := ValidateAttr(req[i]);
        ChosenStep(table, req, i, Table());
        if ret != 0 {
          continue;
        }
        var exists_ := EntryExists(req[i].name);
        if exists_ {
          continue;
        }
        if numEntries >= MAX_ATTRS {
          ret := ENOSPC;
          return;
        }
        WorkedNext(old(creates), creates);
        ret := CreateEntry(req[i]);
        if ret != 0 {
          return;
        }
      }
      stop := |req|;
    }

    lemma NothingCreated(n: nat)
      ensures Worked(n, n)
    {
    }

    /** The entry is written into the next slot and counted once its file exists. */
    method CreateEntry(a: Attr) returns (ret: int)
      requires Inv() && Valid(a) && !HasName(Table(), a.name) && numEntries < MAX_ATTRS
      modifies this`numEntries, this`files, this`creates, entries
      ensures Inv() && creates == old(creates) + 1 && ret == sysfs(old(creates))
      ensures Table() == if ret == 0 then old(Table()) + [a] else old(Table())
    {
      hide Valid, WellFormed, Names;
      ghost var table := Table();
      entries[numEntries] := a;
      ret := sysfs(creates);
      creates := creates + 1;
      assert entries[..numEntries] == table;
      if ret != 0 {
        return;
      }
      files := files + {a.name};
      numEntries := numEntries + 1;
      WellFormedAppend(table, a);
      assert Table() == table + [a];
    }

    /** fbcpld_sysfs_destroy_all */
    method SysfsDestroyAll()
      requires Inv()
      modifies this`numEntries, this`files
      ensures Inv() && Table() == [] && files == {}
    {
      var count := numEntries;
      numEntries := 0;
      ghost var table := entries[..count];
      for i := 0 to count
        invariant numEntries == 0 && files == Names(table) - Names(table[..i])
      {
        files := files - {entries[i].name};
        NamesNext(table, i);
      }
      assert table[..count] == table && Table() == [];
    }
  }

  lemma NamesNext(table: seq<Attr>, i: nat)
    requires i < |table|
    ensures Names(table[..i + 1]) == Names(table[..i]) + {table[i].name}
  {
    assert forall j :: 0 <= j < i ==> table[..i + 1][j] == table[..i][j];
    assert table[..i + 1][i] == table[i];
  }

  // ---------------------------------------------------------------- stores

  /**
   The register value a store leaves: a readable attribute updates its bits, a write-only one sets the whole register.
   */
  function Stored(a: Attr, r: nat, input: nat): nat {
    Put(if a.Readable() then r else 0, a.bitOffset, a.numBits, input)
  }

  /** A fbcpld_dyn_store that works: regmap_update_bits makes it a single step. */
  function DynStore(regs: map<nat, nat>, a: Attr, text: string): map<nat, nat> {
    match ParseU32(text)
    case None => regs
    case Some(input) => regs[a.regAddr := Stored(a, Peek(regs, a.regAddr), input)]
  }

  /**
   After a store the field holds the input, cut to it; a file that its owner can read leaves every other field as it
   was, and any file leaves every other register.
   */
  lemma StoreIs(regs: map<nat, nat>, a: Attr, text: string)
    requires ParseU32(text).Some?
    ensures var now := DynStore(regs, a, text);
            && a.AsField().Of(now) == ParseU32(text).value % Pow2(a.numBits)
            && forall f: Field :: Apart(a.AsField(), f) && (Test(a.mode, 8) || f.reg != a.regAddr) ==>
                 f.Of(now) == f.Of(regs)
  {
    hide ParseU32, Put, Get, Pow2;
    var r, input := Peek(regs, a.regAddr), ParseU32(text).value;
    GetPut(if a.Readable() then r else 0, a.bitOffset, a.numBits, input);
    LowBits(input, a.numBits);
    forall f: Field | Apart(a.AsField(), f) && (Test(a.mode, 8) || f.reg != a.regAddr)
      ensures f.Of(DynStore(regs, a, text)) == f.Of(regs)
    {
      if f.reg == a.regAddr {
        GetPutOther(r, a.bitOffset, a.numBits, input, f.offset, f.bits);
      }
    }
  }

  /** What fbcpld_dyn_show prints. */
  function DynShow(regs: map<nat, nat>, a: Attr): string
    requires Peek(regs, a.regAddr) < 0x100
  {
    RegbitSysfs.ShowText(a.AsConfig(), Peek(regs, a.regAddr))
  }

  /** Flag bit 2 selects decimal figures, else the number follows 0x; flag bit 1 adds notes after the first line. */
  lemma DynShowIs(regs: map<nat, nat>, a: Attr)
    requires Peek(regs, a.regAddr) < 0x100
    ensures var v, text := RegbitSysfs.ShownValue(a.AsConfig(), Peek(regs, a.regAddr)), DynShow(regs, a);
            var first := Shown(v, Test(a.flags, 2));
            && first + "\n" <= text
            && (Test(a.flags, 2) <==> !("0x" <= text))
            && (Test(a.flags, 1) <==> text != first + "\n")
  {
    hide Shown, RegbitSysfs.ShownValue, RegbitSysfs.NotesText, Test;
    var dec, text := Test(a.flags, 2), DynShow(regs, a);
    var first := Shown(RegbitSysfs.ShownValue(a.AsConfig(), Peek(regs, a.regAddr)), dec);
    var notes := if Test(a.flags, 1) then RegbitSysfs.NotesText(a.AsConfig()) else "";
    ShownIs(RegbitSysfs.ShownValue(a.AsConfig(), Peek(regs, a.regAddr)), dec);
    assert text == first + "\n" + notes && |text| >= 2;
    assert text[0] == first[0] && text[1] == if |first| > 1 then first[1] else '\n';
    if !dec {
      assert text[..2] == first[..2];
    }
  }

  /**
   For a readable attribute of the table, storing the text it shows is accepted and changes nothing exactly when the
   attribute neither negates nor adds notes.
   */
  lemma ShowThenStoreIff(regs: map<nat, nat>, a: Attr)
    requires Valid(a) && Test(a.mode, 8) && Peek(regs, a.regAddr) < 0x100
    ensures ParseU32(DynShow(regs, a)).Some? &&
            Peek(DynStore(regs, a, DynShow(regs, a)), a.regAddr) == Peek(regs, a.regAddr)
            <==> !Test(a.flags, 1) && !Test(a.flags, 3)
  {
    hide ParseU32, RegbitSysfs.ShowText, Put, Get, ValidateAttr, Test;
    ValidIff(a);
    RegbitSysfs.ShowThenStoreIff(a.AsConfig(), Peek(regs, a.regAddr));
  }

  /** A number stored to it shows as itself, cut to the field, or as the complement of that if the attribute negates. */
  lemma StoreThenShow(regs: map<nat, nat>, a: Attr, x: u32, dec: bool)
    requires Valid(a) && Test(a.mode, 8) && Peek(regs, a.regAddr) < 0x100
    ensures var r, cut := Peek(DynStore(regs, a, Shown(x, dec) + "\n"), a.regAddr), x % Pow2(a.numBits);
            && r < 0x100
            && RegbitSysfs.ShownValue(a.AsConfig(), r) == if Test(a.flags, 3) then Pow2(a.numBits) - 1 - cut else cut
  {
    hide ParseU32, Shown, RegbitSysfs.ShownValue, Put, Get, ValidateAttr, Test, Pow2;
    ValidIff(a);
    var r := Peek(regs, a.regAddr);
    RegbitSysfs.StoreThenShow(a.AsConfig(), r, x, dec);
    Powers();
    PutBound(r, a.bitOffset, a.numBits, x, 8);
  }

  /** A run of stores, interleaved in any way. */
  function DynRun(regs: map<nat, nat>, run: seq<(Attr, string)>): map<nat, nat> {
    if run == [] then regs
    else var n := |run| - 1; DynStore(DynRun(regs, run[..n]), run[n].0, run[n].1)
  }

  /** The last value a run stored to attribute `f`'s field, cut to it, or what was there. */
  function LastStored(regs: map<nat, nat>, run: seq<(Attr, string)>, f: Field): nat {
    if run == [] then f.Of(regs)
    else
      var n := |run| - 1;
      match ParseU32(run[n].1)
      case Some(input) =>
        if run[n].0.AsField() == f then Get(input, 0, f.bits) else LastStored(regs, run[..n], f)
      case None => LastStored(regs, run[..n], f)
  }

  /**
   Stores to readable attributes that do not overlap leave each field at its last stored value and every other field,
   down to single bits, unchanged.
   */
  lemma {:induction false} DynRunFields(regs: map<nat, nat>, run: seq<(Attr, string)>, f: Field)
    requires forall i :: 0 <= i < |run| ==>
               Test(run[i].0.mode, 8) && (run[i].0.AsField() == f || Apart(run[i].0.AsField(), f))
    ensures f.Of(DynRun(regs, run)) == LastStored(regs, run, f)
    decreases |run|
  {
    hide ParseU32, Get, Put;
    if run != [] {
      var n := |run| - 1;
      DynRunFields(regs, run[..n], f);
      match ParseU32(run[n].1)
      case None =>
      case Some(input) => ApplyIs(DynRun(regs, run[..n]), Store(run[n].0.AsField(), input), f);
    }
  }

  /** A write-only attribute keeps the rest of its register exactly when the rest is zero. */
  lemma WriteOnlyIff(a: Attr, r: nat, input: nat)
    requires !Test(a.mode, 8)
    ensures Stored(a, r, input) == Put(r, a.bitOffset, a.numBits, input) <==> Put(r, a.bitOffset, a.numBits, 0) == 0
  {
    ZeroFields(a.bitOffset, a.numBits);
    ZeroFields(0, a.numBits);
    PutChangesIff(0, a.bitOffset, a.numBits, 0);
    PutTwice(r, a.bitOffset, a.numBits, input, 0);
    PutTwice(0, a.bitOffset, a.numBits, input, 0);
    PutTwice(r, a.bitOffset, a.numBits, 0, input);
  }

  /**
   For an attribute of the table: a store changes nothing but its field, for every value of its register and every
   input, exactly when the attribute can be read, or is the whole register.
   */
  lemma StoreKeepsRestIff(a: Attr)
    requires Valid(a)
    ensures (forall r: nat, input: nat :: r < 0x100 ==>
              Stored(a, r, input) == Put(r, a.bitOffset, a.numBits, input)) <==>
            Test(a.mode, 8) || (a.bitOffset == 0 && a.numBits == 8)
  {
    hide Get, Put, ValidateAttr, Pow2;
    ValidIff(a);
    Powers();
    if a.Readable() {
    } else if a.bitOffset == 0 && a.numBits == 8 {
      forall r: nat, input: nat | r < 0x100
        ensures Stored(a, r, input) == Put(r, a.bitOffset, a.numBits, input)
      {
        WholeRegister(r, input);
      }
    } else {
      OtherBitLost(a);
    }
  }

  /** A store to all eight bits leaves nothing of what was there. */
  lemma WholeRegister(r: nat, input: nat)
    requires r < 0x100
    ensures Put(r, 0, 8, input) == Put(0, 0, 8, input)
  {
    Powers();
    Fits(r, 8);
    PutChangesIff(r, 0, 8, r);
    assert Put(r, 0, 8, r) == r;
    PutTwice(0, 0, 8, r, input);
    PutChangesIff(Put(0, 0, 8, r), 0, 8, r);
    GetPut(0, 0, 8, r);
    PutBound(0, 0, 8, r, 8);
    Fits(Put(0, 0, 8, r), 8);
  }

  /** A register of all ones loses its bits outside the field. */
  lemma OtherBitLost(a: Attr)
    requires Valid(a) && !Test(a.mode, 8) && !(a.bitOffset == 0 && a.numBits == 8)
    ensures Stored(a, 0xFF, 0) != Put(0xFF, a.bitOffset, a.numBits, 0)
  {
    hide Get, Put, ValidateAttr, Pow2;
    ValidIff(a);
    Powers();
    var k: nat := if a.bitOffset > 0 then 0 else 7;
    GetPutOther(0xFF, a.bitOffset, a.numBits, 0, k, 1);
    GetPutOther(0, a.bitOffset, a.numBits, 0, k, 1);
    ZeroFields(k, 1);
    GetComplement(0, k, 1, 8);
  }

  // ---------------------------------------------------------------- the callbacks

  /** fbcpld_dyn_show */
  method DynShowFile(a: Attr, m: RegbitSysfs.Regmap) returns (err: int, text: string)
    requires m.Valid() && Peek(m.regs, a.regAddr) < 0x100
    modifies m`accesses
    ensures err == m.Verdict(a.regAddr, old(m.accesses)) && (err == 0 ==> text == DynShow(m.regs, a))
  {
    hide RegbitSysfs.ShowText;
    text := "";
    var r: u32;
    err, r := m.Read(a.regAddr);
    if err != 0 {
      return;
    }
    text := RegbitSysfs.ShowText(a.AsConfig(), r);
  }

  /**
   fbcpld_dyn_store: the text is refused, or an access fails and nothing changes, or the store is as `DynStore` says.
   */
  method DynStoreFile(a: Attr, m: RegbitSysfs.Regmap, text: string) returns (ret: int)
    requires m.Valid() && Valid(a)
    modifies m`accesses, m`regs
    ensures m.Valid()
    ensures ParseU32(text).None? ==> ret == -22
    ensures ParseU32(text).Some? && ret != |text| ==>
              ret in {m.Verdict(a.regAddr, old(m.accesses)), m.Verdict(a.regAddr, old(m.accesses) + 1)} && ret < 0
    ensures if ret == |text| then forall reg :: Peek(m.regs, reg) == Peek(DynStore(old(m.regs), a, text), reg)
            else ret < 0 && m.regs == old(m.regs)
    ensures (forall n :: n >= old(m.accesses) ==> m.Verdict(a.regAddr, n) == 0) && ParseU32(text).Some? ==>
              ret == |text|
    ensures ret == |text| ==>
              && ParseU32(text).Some? && a.AsField().Of(m.regs) == ParseU32(text).value % Pow2(a.numBits)
              && forall f: Field :: Apart(a.AsField(), f) && (Test(a.mode, 8) || f.reg != a.regAddr) ==>
                   f.Of(m.regs) == f.Of(old(m.regs))
  {
    hide ParseU32, Put, Get;
    ValidIff(a);
    var input := ParseU32(text);
    if input.None? {
      return EINVAL;
    }
    StoreIs(m.regs, a, text);
    Powers();
    if !a.Readable() {
      PutBound(0, a.bitOffset, a.numBits, input.value, 32);
      ret := m.Write(a.regAddr, Put(0, a.bitOffset, a.numBits, input.value));
    } else {
      ret := UpdateBits(m, a.AsField(), input.value);
    }
    if ret != 0 {
      return;
    }
    return |text|;
  }

  /** regmap_update_bits: an unchanged value is not written. */
  method UpdateBits(m: RegbitSysfs.Regmap, f: Field, input: nat) returns (err: int)
    requires m.Valid() && f.Within(32)
    modifies m`accesses, m`regs
    ensures m.Valid() && err <= 0
    ensures err != 0 ==>
              err in {m.Verdict(f.reg, old(m.accesses)), m.Verdict(f.reg, old(m.accesses) + 1)} && m.regs == old(m.regs)
    ensures err == 0 ==> forall reg :: Peek(m.regs, reg) == Peek(Apply(old(m.regs), Store(f, input)), reg)
    ensures m.Verdict(f.reg, old(m.accesses)) == 0 && m.Verdict(f.reg, old(m.accesses) + 1) == 0 ==> err == 0
  {
    hide Put, Get;
    var orig: u32;
    err, orig := m.Read(f.reg);
    if err != 0 {
      return;
    }
    Powers();
    PutBound(orig, f.offset, f.bits, input, 32);
    var tmp := Put(orig, f.offset, f.bits, input);
    if tmp != orig {
      err := m.Write(f.reg, tmp);
    }
  }
}
