/** The slot-skipping double-ended iterator shared by `Iter`, `IterMut` and `IntoIter`. */
module Iters {
  import opened Handles
  import opened Slots

  /** A cursor pair over the arena's slots (the unconsumed range is `slots[front..back]`), the
      number of present values the arena held when the iterator was made, and the number handed
      out so far. */
  class SlotIter<T> {
    const slots: seq<Slot<T>>
    var front: nat
    var back: nat
    const length: nat
    var returned: nat

    /** The values still to be yielded, in slot order. */
    ghost function Remaining(): seq<T>
      reads this
      requires front <= back <= |slots|
    {
      Values(slots[front..back])
    }

    /** The values handed out so far and the values still to come together make up the
        `length` present values the iterator started with. */
    ghost predicate Valid()
      reads this
    {
      front <= back <= |slots| && returned + |Remaining()| == length
    }

    constructor (slots: seq<Slot<T>>, length: nat)
      requires length == |Values(slots)|
      ensures Valid() && this.slots == slots
      ensures Remaining() == Values(slots) && returned == 0 && this.length == |Values(slots)|
    {
      this.slots := slots;
      front, back := 0, |slots|;
      this.length := length;
      returned := 0;
      new;
      assert slots[0..|slots|] == slots;
    }

    /** `size_hint`: exact, and equal to the number of values still to be yielded. */
    function SizeHint(): (r: (nat, Option<nat>))
      reads this
      requires Valid()
      ensures r.0 == |Remaining()| && r.1 == Some(r.0)
    {
      (length - returned, Some(length - returned))
    }

    /** `next`: skips free slots from the front and yields the first present value; once the
        range holds no present value it yields `None`, now and on every later call. */
    method Next() returns (r: Option<T>)
      requires Valid()
      modifies this
      ensures Valid()
      ensures back == old(back)
      ensures old(Remaining()) == [] ==> r == None && Remaining() == [] && returned == old(returned)
      ensures old(Remaining()) != [] ==>
        r == Some(old(Remaining())[0]) && Remaining() == old(Remaining())[1..]
        && returned == old(returned) + 1
    {
      while front < back
        invariant old(front) <= front <= back == old(back) <= |slots|
        invariant Remaining() == old(Remaining())
        invariant returned == old(returned)
        decreases back - front
      {
        var slot := slots[front];
        ValuesRangeFront(slots, front, back);
        front := front + 1;
        if slot.entry.Present? {
          returned := returned + 1;
          return Some(slot.entry.value);
        }
      }
      return None;
    }

    /** `next_back`: skips free slots from the back and yields the last present value; once the
        range holds no present value it yields `None`, now and on every later call. */
    method NextBack() returns (r: Option<T>)
      requires Valid()
      modifies this
      ensures Valid()
      ensures front == old(front)
      ensures old(Remaining()) == [] ==> r == None && Remaining() == [] && returned == old(returned)
      ensures old(Remaining()) != [] ==>
        r == Some(old(Remaining())[|old(Remaining())| - 1])
        && Remaining() == old(Remaining())[..|old(Remaining())| - 1]
        && returned == old(returned) + 1
    {
      while front < back
        invariant front == old(front) <= back <= old(back) <= |slots|
        invariant Remaining() == old(Remaining())
        invariant returned == old(returned)
        decreases back - front
      {
        var slot := slots[back - 1];
        ghost var rest := Values(slots[front..back - 1]);
        ValuesRangeBack(slots, front, back);
        back := back - 1;
        if slot.entry.Present? {
          assert old(Remaining()) == rest + [slot.entry.value];
          assert old(Remaining())[..|rest|] == rest;
          returned := returned + 1;
          return Some(slot.entry.value);
        }
      }
      return None;
    }
  }
}
