/** The `Constant` scheduler: a single slot holding at most one schedulable vessel. */
module ConstantScheduler {
  import opened Common

  class Constant<T> {
    var schedulable: Option<T>

    /** `new_const`: an empty slot. */
    constructor NewConst()
      ensures schedulable == None
    {
      schedulable := None;
    }

    /** `new`: the slot holds exactly the given parameter. */
    constructor New(params: Option<T>)
      ensures schedulable == params
    {
      schedulable := params;
    }

    /** `add`: the sanity assertion demands an empty slot; afterwards the slot holds the
        vessel. */
    method Add(vessel: T)
      requires schedulable.None?
      modifies this
      ensures schedulable == Some(vessel)
    {
      schedulable := Some(vessel);
    }

    /** `remove`: takes the vessel out and leaves the slot empty. On an empty slot the source
        panics, so the slot must be occupied. */
    method Remove() returns (vessel: T)
      requires schedulable.Some?
      modifies this
      ensures vessel == old(schedulable).value && schedulable == None
    {
      vessel := schedulable.value;
      schedulable := None;
    }
  }

  /** Adding to an empty scheduler and then removing gives the vessel back and empties the
      slot again. */
  method AddThenRemove<T>(c: Constant<T>, v: T) returns (w: T)
    requires c.schedulable.None?
    modifies c
    ensures w == v && c.schedulable == None
  {
    c.Add(v);
    w := c.Remove();
  }
}
