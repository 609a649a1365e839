/**
 Ownership of the auxiliary device adapters (kmods/lib/fbiob-auxdev.c), with the calls on a bus taken one at a time.
 An adapter is named by the number of its allocation; putting its only reference releases it.
 */
module AuxBus {
  import opened Ownership

  const ENXIO := -6
  const ENOMEM := -12

  datatype Id = Id(name: string, id: nat)

  class Bus {
    var devices: seq<nat>      // the list, head first
    var ids: map<nat, Id>
    var registered: set<nat>
    var freed: seq<nat>        // every release, in order
    var allocs: nat

    constructor ()
      ensures Owned() && devices == [] && freed == [] && allocs == 0
    {
      devices, ids, registered, freed, allocs := [], map[], {}, [], 0;
    }

    /** The list holds the registered adapters, and each adapter ever allocated is on it once or was freed once. */
    ghost predicate Owned()
      reads this
    {
      Once(devices, freed, allocs) && forall h :: h in registered <==> h in devices
    }

    function IdOf(h: nat): Id
      reads this`ids
    {
      if h in ids then ids[h] else Id("", 0)
    }

    /** auxiliary_device_uninit: puts the last reference. */
    method Uninit(h: nat)
      requires h !in registered && h !in freed
      modifies this`freed
      ensures freed == old(freed) + [h]
    {
      freed := freed + [h];
    }

    /** fbiob_auxdev_add; the parameters say how allocation, initialisation and registration of the device go. */
    method AuxdevAdd(id: Id, allocates: bool, initErr: int, addErr: int) returns (ret: int)
      requires Owned()
      modifies this
      ensures Owned()
      ensures !allocates ==> ret == -12 && allocs == old(allocs) && devices == old(devices) && freed == old(freed)
      ensures allocates ==>
                && allocs == old(allocs) + 1 && ids == old(ids)[old(allocs) := id]
                && if initErr < 0 || addErr < 0
                   then && ret == (if initErr < 0 then initErr else addErr)
                        && devices == old(devices) && freed == old(freed) + [old(allocs)]
                   else ret == 0 && devices == [old(allocs)] + old(devices) && freed == old(freed)
    {
      hide Once;
      if !allocates {
        return ENOMEM;
      }
      Acquired(devices, freed, allocs);
      var h := allocs;
      allocs := h + 1;
      ids := ids[h := id];
      if initErr < 0 {
        freed := freed + [h];
        return initErr;
      }
      if addErr < 0 {
        Uninit(h);
        return addErr;
      }
      registered := registered + {h};
      devices := [h] + devices;
      return 0;
    }

    /** Take the adapter at position `i` off the list, unregister it and drop its reference. */
    method Drop(i: nat)
      requires Owned() && i < |devices|
      modifies this`devices, this`registered, this`freed
      ensures Owned()
      ensures devices == old(devices[..i] + devices[i + 1..]) && freed == old(freed + [devices[i]])
    {
      hide Once;
      GivenBack(devices, freed, allocs, i);
      var h := devices[i];
      devices := devices[..i] + devices[i + 1..];
      registered := registered - {h};
      Uninit(h);
    }

    /** fbiob_auxdev_remove: the first adapter with this id goes; there may be none. */
    method AuxdevRemove(id: Id) returns (ret: int, ghost i: nat)
      requires Owned()
      modifies this`devices, this`registered, this`freed
      ensures Owned() && i <= |old(devices)| && forall j :: 0 <= j < i ==> IdOf(old(devices)[j]) != id
      ensures if i == |old(devices)| then ret == -6 && devices == old(devices) && freed == old(freed)
              else && ret == 0 && IdOf(old(devices)[i]) == id
                   && devices == old(devices)[..i] + old(devices)[i + 1..] && freed == old(freed) + [old(devices)[i]]
    {
      hide Once;
      for k := 0 to |devices|
        invariant devices == old(devices) && freed == old(freed) && Owned()
        invariant forall j :: 0 <= j < k ==> IdOf(devices[j]) != id
      {
        if IdOf(devices[k]) == id {
          Drop(k);
          return 0, k;
        }
      }
      return ENXIO, |devices|;
    }

    /** fbiob_auxbus_destroy: nothing is left on the list, and everything ever allocated has been freed once. */
    method AuxbusDestroy()
      requires Owned()
      modifies this`devices, this`registered, this`freed
      ensures Owned() && devices == [] && registered == {}
      ensures freed == old(freed) + old(devices)
      ensures forall h: nat :: multiset(freed)[h] == if h < allocs then 1 else 0
    {
      while devices != []
        invariant Owned()
        invariant freed + devices == old(freed) + old(devices)
        decreases |devices|
      {
        ghost var f, d := freed, devices;
        Drop(0);
        assert f + d == (f + [d[0]]) + d[1..];
      }
      AllBack(freed, allocs);
    }
  }

  // ---------------------------------------------------------------- runs

  datatype Call =
    | Add(id: Id, allocates: bool, initErr: int, addErr: int)
    | Remove(id: Id)

  /** Any run of calls and then the destruction: every adapter the run allocated has been freed exactly once. */
  method Lifetime(calls: seq<Call>) returns (bus: Bus)
    ensures fresh(bus) && bus.devices == [] && bus.registered == {}
    ensures forall h: nat :: multiset(bus.freed)[h] == if h < bus.allocs then 1 else 0
  {
    hide Once;
    bus := new Bus();
    for i := 0 to |calls|
      invariant fresh(bus) && bus.Owned()
    {
      match calls[i]
      case Add(id, allocates, initErr, addErr) =>
        var ret := bus.AuxdevAdd(id, allocates, initErr, addErr);
      case Remove(id) =>
        var ret, at := bus.AuxdevRemove(id);
    }
    bus.AuxbusDestroy();
  }
}
