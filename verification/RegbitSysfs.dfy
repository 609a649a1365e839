/** Register bits as sysfs files (kmods/lib/regbit-sysfs.c). */
module RegbitSysfs {
  import opened Bits
  import opened Options
  import opened RegisterFields
  import opened SysfsText

  const EINVAL := -22

  datatype RegmapConfig = RegmapConfig(maxRegister: nat, valBits: nat, stride: nat)

  const MMIO_REGMAP := RegmapConfig(0x7FFFF, 32, 4)
  const I2C_REGMAP := RegmapConfig(0xFF, 8, 1)

  datatype Config = Config(mode: u32, regAddr: u32, bitOffset: u32, numBits: u32,
                           notes: bool, dec: bool, negate: bool, help: string)
  {
    function AsField(): Field {
      Field(regAddr, bitOffset, numBits)
    }
  }

  // ---------------------------------------------------------------- acceptance

  /** regbit_config_check; the sum is computed in 32 bits. */
  function Check(c: Config, rc: RegmapConfig): int {
    var offset: int, bits: int := c.bitOffset, c.numBits;
    if !Test(c.mode, 8) && !Test(c.mode, 7) then EINVAL
    else if c.regAddr > rc.maxRegister then EINVAL
    else if offset >= rc.valBits || (offset + bits) % 0x1_0000_0000 > rc.valBits then EINVAL
    else 0
  }

  /** What is accepted: a usable mode, and a field that starts in its register and, counted in 32 bits, ends in it. */
  lemma CheckIff(c: Config, rc: RegmapConfig)
    ensures Check(c, rc) in {0, -22}
    ensures Check(c, rc) == 0 <==>
            && (Test(c.mode, 8) || Test(c.mode, 7)) && c.regAddr <= rc.maxRegister && c.bitOffset < rc.valBits
            && ((c.numBits < 0x1_0000_0000 - c.bitOffset && c.bitOffset + c.numBits <= rc.valBits)
                || (c.numBits >= 0x1_0000_0000 - c.bitOffset
                    && c.numBits - (0x1_0000_0000 - c.bitOffset) <= rc.valBits))
  {
    hide Test;
  }

  /** An accepted field lies within its register exactly when its width is between 1 and the register's. */
  lemma AcceptedWithinIff(c: Config, rc: RegmapConfig)
    requires Check(c, rc) == 0 && rc.valBits <= 32
    ensures c.AsField().Within(rc.valBits) <==> 1 <= c.numBits <= rc.valBits
  {
  }

  /** Widths that are accepted although no register has such a field: none, and one that wraps around. */
  lemma AcceptedOutside(c: Config)
    requires c.mode == 0x1A4 && c.regAddr == 0 && c.bitOffset == 1 && (c.numBits == 0 || c.numBits == 0xFFFF_FFFF)
    ensures Check(c, I2C_REGMAP) == 0 && !c.AsField().Within(8)
  {
    assert Get(0x1A4, 8, 1) == 1;
  }

  // ---------------------------------------------------------------- show and store on a register value

  /** The number a file shows for register value `r`: its field, or the field of the complement. */
  function ShownValue(c: Config, r: u32): nat {
    Get(if c.negate then 0xFFFF_FFFF - r else r, c.bitOffset, c.numBits)
  }

  function NotesText(c: Config): (t: string)
    ensures t != ""
  {
    "\nNote:\nRegister 0x" + Number(c.regAddr, 16) + ", bit["
    + Number((c.bitOffset + c.numBits - 1) % 0x1_0000_0000, 10) + ":" + Number(c.bitOffset, 10) + "]\n" + c.help + "\n"
  }

  /** The notes of a field within its register name its last bit and its first. */
  lemma NotesIs(c: Config)
    requires c.AsField().Within(32)
    ensures NotesText(c) == "\nNote:\nRegister 0x" + Number(c.regAddr, 16) + ", bit["
                            + Number(c.bitOffset + c.numBits - 1, 10) + ":" + Number(c.bitOffset, 10) + "]\n"
                            + c.help + "\n"
  {
    hide Number;
    assert (c.bitOffset + c.numBits - 1) % 0x1_0000_0000 == c.bitOffset + c.numBits - 1;
  }

  /** The text of the file. */
  function ShowText(c: Config, r: u32): string {
    Shown(ShownValue(c, r), c.dec) + "\n" + if c.notes then NotesText(c) else ""
  }

  /** The register value a stored text asks for, if it parses. */
  function StoreValue(c: Config, r: u32, text: string): Option<nat> {
    match ParseU32(text)
    case None => None
    case Some(input) => Some(Put(r, c.bitOffset, c.numBits, input))
  }

  lemma ShownBound(c: Config, r: u32)
    requires c.AsField().Within(32)
    ensures ShownValue(c, r) < 0x1_0000_0000
    ensures ShownValue(c, r) == (var v := Get(r, c.bitOffset, c.numBits);
                                 if c.negate then Pow2(c.numBits) - 1 - v else v)
  {
    Powers();
    GetComplement(r, c.bitOffset, c.numBits, 32);
    PowerGrows(c.numBits, 32);
  }

  /**
   A stored number shows as itself, cut to the field, unless the file negates: then its complement shows. No other
   field of the register changes.
   */
  lemma StoreThenShow(c: Config, r: u32, x: u32, dec: bool)
    requires c.AsField().Within(32)
    ensures ParseU32(Shown(x, dec) + "\n") == Some(x)
    ensures var stored := StoreValue(c, r, Shown(x, dec) + "\n");
            && stored.Some? && stored.value < 0x1_0000_0000
            && ShownValue(c, stored.value) == (var cut := x % Pow2(c.numBits);
                                               if c.negate then Pow2(c.numBits) - 1 - cut else cut)
            && forall lo: nat, width: nat :: lo + width <= c.bitOffset || c.bitOffset + c.numBits <= lo ==>
                 Get(stored.value, lo, width) == Get(r, lo, width)
  {
    ParseShown(x, dec, "");
    assert Shown(x, dec) + "\n" + "" == Shown(x, dec) + "\n";
    Powers();
    PutBound(r, c.bitOffset, c.numBits, x, 32);
    var r' := Put(r, c.bitOffset, c.numBits, x);
    ShownBound(c, r');
    GetPut(r, c.bitOffset, c.numBits, x);
    LowBits(x, c.numBits);
    forall lo: nat, width: nat | lo + width <= c.bitOffset || c.bitOffset + c.numBits <= lo
      ensures Get(r', lo, width) == Get(r, lo, width)
    {
      GetPutOther(r, c.bitOffset, c.numBits, x, lo, width);
    }
  }

  /**
   Storing the text a file shows leaves the register unchanged exactly when the file neither negates nor adds notes.
   */
  lemma ShowThenStoreIff(c: Config, r: u32)
    requires c.AsField().Within(32)
    ensures StoreValue(c, r, ShowText(c, r)) == Some(r) <==> !c.negate && !c.notes
    ensures c.notes ==> StoreValue(c, r, ShowText(c, r)) == None
  {
    hide NotesText, Shown, ParseU32, ShownValue, Get, Put;
    var v := ShownValue(c, r);
    ShownBound(c, r);
    ParseShown(v, c.dec, if c.notes then NotesText(c) else "");
    if !c.notes {
      PutChangesIff(r, c.bitOffset, c.numBits, v);
      Bits.Fits(v, c.numBits);
      assert Pow2(c.numBits) == 2 * Pow2(c.numBits - 1);
    }
  }

  // ---------------------------------------------------------------- the callbacks

  /** A register map over a bus: access `n` fails with `errno(n)` if that is negative. */
  class Regmap {
    const cfg: RegmapConfig
    const errno: nat -> int
    var regs: map<nat, nat>
    var accesses: nat

    constructor (cfg: RegmapConfig, errno: nat -> int)
      requires cfg == MMIO_REGMAP || cfg == I2C_REGMAP
      ensures this.cfg == cfg && regs == map[] && Valid()
    {
      this.cfg, this.errno, regs, accesses := cfg, errno, map[], 0;
    }

    ghost predicate Valid()
      reads this
    {
      && 0 < cfg.valBits <= 32 && cfg.stride > 0
      && forall a :: a in regs ==> regs[a] < 0x1_0000_0000
    }

    predicate Reaches(reg: nat) {
      reg <= cfg.maxRegister && cfg.stride > 0 && reg % cfg.stride == 0
    }

    /** What access `n` to `reg` comes to. */
    function Verdict(reg: nat, n: nat): int {
      if !Reaches(reg) then EINVAL else if errno(n) < 0 then errno(n) else 0
    }

    method Read(reg: nat) returns (err: int, val: u32)
      requires Valid()
      modifies this`accesses
      ensures accesses == old(accesses) + 1 && err == Verdict(reg, old(accesses))
      ensures err == 0 ==> val == Peek(regs, reg)
    {
      err := Verdict(reg, accesses);
      accesses := accesses + 1;
      val := Peek(regs, reg);
    }

    method Write(reg: nat, val: u32) returns (err: int)
      requires Valid()
      modifies this`accesses, this`regs
      ensures Valid() && accesses == old(accesses) + 1 && err == Verdict(reg, old(accesses))
      ensures regs == if err == 0 then old(regs)[reg := val] else old(regs)
    {
      err := Verdict(reg, accesses);
      accesses := accesses + 1;
      if err == 0 {
        regs := regs[reg := val];
      }
    }
  }

  /** regbit_sysfs_show */
  method SysfsShow(c: Config, m: Regmap) returns (err: int, text: string)
    requires m.Valid()
    modifies m`accesses
    ensures err == m.Verdict(c.regAddr, old(m.accesses))
    ensures err == 0 ==> text == ShowText(c, Peek(m.regs, c.regAddr))
  {
    hide Get, Number, Shown, NotesText;
    text := "";
    var r: u32;
    err, r := m.Read(c.regAddr);
    if err != 0 {
      return;
    }
    text := ShowText(c, r);
  }

  /** regbit_sysfs_store; a text that parses is stored to a field the register has, since other shifts are undefined. */
  method SysfsStore(c: Config, m: Regmap, text: string) returns (ret: int)
    requires m.Valid() && (ParseU32(text).Some? ==> c.AsField().Within(m.cfg.valBits))
    modifies m`accesses, m`regs
    ensures m.Valid()
    ensures var wanted := StoreValue(c, Peek(old(m.regs), c.regAddr), text);
            var first, second := m.Verdict(c.regAddr, old(m.accesses)), m.Verdict(c.regAddr, old(m.accesses) + 1);
            if wanted.None? then ret == -22 && m.regs == old(m.regs) && m.accesses == old(m.accesses)
            else if first != 0 || second != 0 then
              ret == (if first != 0 then first else second) && m.regs == old(m.regs)
            else ret == |text| && m.regs == old(m.regs)[c.regAddr := wanted.value]
  {
    hide Get, Put, ParseU32;
    var input := ParseU32(text);
    if input.None? {
      return EINVAL;
    }
    var val: u32;
    ret, val := m.Read(c.regAddr);
    if ret != 0 {
      return;
    }
    Powers();
    PutBound(val, c.bitOffset, c.numBits, input.value, 32);
    ret := m.Write(c.regAddr, Put(val, c.bitOffset, c.numBits, input.value));
    if ret != 0 {
      return;
    }
    return |text|;
  }
}
