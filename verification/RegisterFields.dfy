/** Fields of named registers, and what a run of stores to them amounts to. */
module RegisterFields {
  import opened Bits

  datatype Field = Field(reg: nat, offset: nat, bits: nat) {
    /** The field lies within a register of `width` bits. */
    predicate Within(width: nat) {
      0 < bits && offset + bits <= width
    }

    function Of(regs: map<nat, nat>): nat {
      Get(Peek(regs, reg), offset, bits)
    }
  }

  function Peek(regs: map<nat, nat>, reg: nat): nat {
    if reg in regs then regs[reg] else 0
  }

  /** The fields share no bit. */
  predicate Apart(f: Field, g: Field) {
    f.reg != g.reg || f.offset + f.bits <= g.offset || g.offset + g.bits <= f.offset
  }

  datatype Store = Store(field: Field, input: nat)

  /** One read-modify-write, done in one go. */
  function Apply(regs: map<nat, nat>, s: Store): map<nat, nat> {
    regs[s.field.reg := Put(Peek(regs, s.field.reg), s.field.offset, s.field.bits, s.input)]
  }

  function ApplyAll(regs: map<nat, nat>, stores: seq<Store>): map<nat, nat> {
    if stores == [] then regs else Apply(ApplyAll(regs, stores[..|stores| - 1]), stores[|stores| - 1])
  }

  /** The value a field holds after a run of stores: its last input, cut to the field, or what it held before. */
  function LastValue(regs: map<nat, nat>, stores: seq<Store>, f: Field): nat {
    if stores == [] then f.Of(regs)
    else
      var n := |stores| - 1;
      if stores[n].field == f then Get(stores[n].input, 0, f.bits) else LastValue(regs, stores[..n], f)
  }

  /**
   Stores to fields that do not overlap leave each field at its last value. Taking a field that no store names, a single
   bit for instance, this says that every other bit is unchanged.
   */
  lemma {:induction false} LastStoreWins(regs: map<nat, nat>, stores: seq<Store>, f: Field)
    requires forall i :: 0 <= i < |stores| ==> stores[i].field == f || Apart(stores[i].field, f)
    ensures f.Of(ApplyAll(regs, stores)) == LastValue(regs, stores, f)
    decreases |stores|
  {
    if stores != [] {
      var n := |stores| - 1;
      LastStoreWins(regs, stores[..n], f);
      ApplyIs(ApplyAll(regs, stores[..n]), stores[n], f);
    }
  }

  lemma ApplyIs(regs: map<nat, nat>, s: Store, f: Field)
    requires s.field == f || Apart(s.field, f)
    ensures f.Of(Apply(regs, s)) == if s.field == f then Get(s.input, 0, f.bits) else f.Of(regs)
  {
    var r := Peek(regs, s.field.reg);
    if s.field == f {
      GetPut(r, f.offset, f.bits, s.input);
    } else if s.field.reg == f.reg {
      GetPutOther(r, s.field.offset, s.field.bits, s.input, f.offset, f.bits);
    }
  }
}
