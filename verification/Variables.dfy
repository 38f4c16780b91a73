// The tables of named variables of the two interpreters: jvars_ of browser.cpp, cc_vars of cc.c.
module Variables {
  import opened Int64
  import opened Expressions
  import opened SlotTable

  const EMPTY_SLOT := Slot(false, "", 0)

  class VarTable {
    const slots: array<Slot<int64>>

    ghost predicate Valid()
      reads slots
    {
      Distinct(slots[..])
    }

    ghost function Vars(): Store
      reads slots
      requires Valid()
    {
      MapOf(slots[..])
    }

    constructor (capacity: nat)
      ensures fresh(slots) && slots.Length == capacity
      ensures Valid() && Vars() == map[]
    {
      slots := new Slot<int64>[capacity](_ => EMPTY_SLOT);
      new;
      AllFree(slots[..]);
    }

    // memset of the table, or the loop that resets the `used` flags.
    method Clear()
      modifies slots
      ensures Valid() && Vars() == map[]
    {
      for i := 0 to slots.Length
        invariant forall k :: 0 <= k < i ==> !slots[k].used
      {
        slots[i] := slots[i].(used := false);
      }
      AllFree(slots[..]);
    }

    // The slot of `name`, or -1.
    method Lookup(name: string) returns (slot: int)
      requires Valid()
      ensures slot == -1 <==> name !in Vars()
      ensures slot == -1 || (0 <= slot < slots.Length && slots[slot].used && slots[slot].name == name)
    {
      for i := 0 to slots.Length
        invariant forall k :: 0 <= k < i ==> !(slots[k].used && slots[k].name == name)
      {
        if slots[i].used && slots[i].name == name {
          Member(slots[..], i);
          return i;
        }
      }
      if name in Vars() {
        ghost var k := Owner(slots[..], name);
        assert false;
      }
      return -1;
    }

    // The slot of `name`, made with the value 0 when there is none yet; -1 when the table is full.
    method FindOrCreate(name: string) returns (slot: int)
      requires Valid()
      modifies slots
      ensures Valid()
      ensures slot == -1 <==> name !in old(Vars()) && |old(Vars())| >= slots.Length
      ensures slot == -1 || (0 <= slot < slots.Length && slots[slot].used && slots[slot].name == name)
      ensures Vars() == if slot >= 0 && name !in old(Vars()) then old(Vars())[name := 0] else old(Vars())
    {
      slot := Lookup(name);
      if slot >= 0 {
        return;
      }
      FullMeansFull(slots[..]);
      for i := 0 to slots.Length
        invariant slots[..] == old(slots[..])
        invariant forall k :: 0 <= k < i ==> slots[k].used
      {
        if !slots[i].used {
          assert !Full(slots[..]) by { assert !slots[..][i].used; }
          WriteSlot(slots[..], i, name, 0);
          slots[i] := Slot(true, name, 0);
          assert slots[..] == old(slots[..])[i := Slot(true, name, 0)];
          return i;
        }
      }
      assert Full(slots[..]);
      return -1;
    }

    method Store(slot: nat, v: int64)
      requires Valid() && slot < slots.Length && slots[slot].used
      modifies slots
      ensures Valid() && Vars() == old(Vars())[old(slots[slot].name) := v]
    {
      ghost var before := slots[..];
      WriteSlot(before, slot, before[slot].name, v);
      slots[slot] := slots[slot].(value := v);
      assert slots[..] == before[slot := Slot(true, before[slot].name, v)];
    }

    method Load(slot: nat) returns (v: int64)
      requires Valid() && slot < slots.Length && slots[slot].used
      ensures slots[slot].name in Vars() && v == Vars()[slots[slot].name]
    {
      v := slots[slot].value;
      Member(slots[..], slot);
    }

    // Gives `name` the value v, unless it is new and the table is full.
    method Declare(name: string, v: int64) returns (done: bool)
      requires Valid()
      modifies slots
      ensures Valid() && done == (name in old(Vars()) || |old(Vars())| < slots.Length)
      ensures Vars() == if done then old(Vars())[name := v] else old(Vars())
    {
      var slot := FindOrCreate(name);
      done := slot >= 0;
      if done {
        Store(slot, v);
      }
    }

    // Gives `name` the value v if it is known.
    method Assign(name: string, v: int64) returns (done: bool)
      requires Valid()
      modifies slots
      ensures Valid() && done == (name in old(Vars()))
      ensures Vars() == if done then old(Vars())[name := v] else old(Vars())
    {
      var slot := Lookup(name);
      done := slot >= 0;
      if done {
        Store(slot, v);
      }
    }
  }
}
