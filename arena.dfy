/** The generational arena: a growable sequence of slots, a free list threaded through the free
    slots, and handles checked against per-slot generations. */
module GenArena {
  import opened Handles
  import opened Slots
  import Iters

  class Arena<T> {
    var items: seq<Slot<T>>
    var firstFree: nat
    var freeCount: nat
    /** Every handle `Insert` has returned. */
    ghost var issued: set<Id>
    /** Every handle `Remove` has taken a value back from. */
    ghost var retired: set<Id>

    /** The free list is well formed, the issued handles are tied to the slots, and a removed
        handle's slot has moved on to a later generation. */
    ghost predicate Valid()
      reads this
    {
      FreeList(items, firstFree, freeCount)
      && Tracked(items, issued)
      && forall id :: id in retired ==> id.index < |items| && id.generation < items[id.index].generation
    }

    /** `Arena::new`: no slots, an empty free list. */
    constructor ()
      ensures Valid()
      ensures items == [] && firstFree == 0 && freeCount == 0
      ensures issued == {} && retired == {}
    {
      items, firstFree, freeCount := [], 0, 0;
      issued, retired := {}, {};
    }

    /** `len`: the slot count less the free count, which is the number of present values. */
    function Len(): (n: nat)
      reads this
      requires Valid()
      ensures n == |Values(items)|
      ensures n == |LiveHandles(items)|
    {
      FreeListCounts(items, firstFree, freeCount);
      LiveHandlesCount(items);
      |items| - freeCount
    }

    /** `is_empty`: no slot holds a value. */
    function IsEmpty(): (r: bool)
      reads this
      requires Valid()
      ensures r <==> Values(items) == []
    {
      Len() == 0
    }

    /** `exists`: the handle's index is in bounds and its generation is the slot's. For a handle
        this arena issued that is the same as its slot being present; a removed handle never
        resolves again. */
    function Exists(i: Id): (r: bool)
      reads this
      ensures r ==> i.index < |items|
      ensures Valid() && i in issued && r ==> items[i.index].entry.Present?
      ensures Valid() && i in retired ==> !r
    {
      i.index < |items| && i.generation == items[i.index].generation
    }

    /** `get`: the value of a present slot the handle resolves to, `None` otherwise. */
    function Get(i: Id): (r: Option<T>)
      reads this
      ensures r.Some? ==> Exists(i) && r.value in Values(items)
      ensures Valid() && i in issued ==> (r.Some? <==> Exists(i))
      ensures Valid() && i in retired ==> r == None
    {
      if i.index >= |items| then None
      else if i.generation != items[i.index].generation then None
      else match items[i.index].entry
        case Free(_) => None
        case Present(t) => ValuesContain(items, i.index); Some(t)
    }

    /** `Index::index`: the same value as `get`, and a panic naming the handle exactly when
        `get` has none. */
    function Index(i: Id): (r: Indexed<T>)
      reads this
      ensures r.Ok? <==> Get(i).Some?
      ensures r.Ok? ==> r.value == Get(i).value
      ensures r.Panicked? ==> r.culprit == i
    {
      match Get(i)
      case Some(t) => Ok(t)
      case None => Panicked(i)
    }

    /** `len` counts exactly the issued handles that still resolve. */
    lemma LenCountsLiveHandles()
      requires Valid()
      ensures Len() == |set id | id in issued && Exists(id)|
    {
      LiveIssued(items, issued);
      assert (set id | id in issued && Exists(id))
          == (set id | id in issued && id.index < |items| && id.generation == items[id.index].generation);
    }

    /** `free_index`: pops the head of the free list, or appends a fresh free slot of generation
        0 when the list is empty, and returns the handle for that slot. The head of a non-empty
        list is always a free slot (the source's `unreachable!()` is never reached). */
    method FreeIndex() returns (id: Id)
      requires Valid()
      modifies this
      ensures issued == old(issued) && retired == old(retired)
      ensures old(freeCount) > 0 ==>
        old(firstFree) < |old(items)| && old(items)[old(firstFree)].entry.Free?
        && id == Id(old(firstFree), old(items)[old(firstFree)].generation)
        && items == old(items)
        && firstFree == old(items)[old(firstFree)].entry.nextFree
        && freeCount == old(freeCount) - 1
      ensures old(freeCount) == 0 ==>
        id == Id(|old(items)|, 0) && items == old(items) + [Slot(0, Free(0))]
        && firstFree == old(firstFree) && freeCount == 0
    {
      if freeCount > 0 {
        var index := firstFree;
        FreeListTail(items, firstFree, freeCount);
        var slot := items[index];
        assert slot.entry.Free?;
        firstFree := slot.entry.nextFree;
        freeCount := freeCount - 1;
        id := Id(index, slot.generation);
      } else {
        var index := |items|;
        items := items + [Slot(0, Free(0))];
        id := Id(index, 0);
      }
    }

    /** `insert`: stores `v` in a reused free slot (at the generation that slot already has) or
        in a new slot of generation 0, and returns a fresh handle that resolves to `v`. No other
        slot changes and no generation goes down. */
    method Insert(v: T) returns (id: Id)
      requires Valid()
      modifies this
      ensures Valid()
      ensures Get(id) == Some(v) && Exists(id)
      ensures id !in old(issued) && issued == old(issued) + {id} && retired == old(retired)
      ensures old(freeCount) > 0 ==>
        old(firstFree) < |old(items)|
        && id == Id(old(firstFree), old(items)[old(firstFree)].generation)
        && items == old(items)[id.index := Slot(id.generation, Present(v))]
        && firstFree == old(items)[old(firstFree)].entry.nextFree
        && freeCount == old(freeCount) - 1
      ensures old(freeCount) == 0 ==>
        id == Id(|old(items)|, 0) && items == old(items) + [Slot(0, Present(v))]
        && firstFree == old(firstFree) && freeCount == 0
      ensures |old(items)| <= |items|
      ensures forall k :: 0 <= k < |old(items)| ==> old(items)[k].generation <= items[k].generation
      ensures Len() == old(Len()) + 1
    {
      ghost var s0, head0, count0 := items, firstFree, freeCount;
      FreeListCounts(s0, head0, count0);
      id := FreeIndex();
      items := items[id.index := Slot(items[id.index].generation, Present(v))];
      issued := issued + {id};
      if count0 > 0 {
        ghost var s1 := s0[head0 := Slot(s0[head0].generation, Present(v))];
        assert items == s1;
        assert firstFree == s0[head0].entry.nextFree && freeCount == count0 - 1;
        PopPreservesFreeList(s0, head0, count0, v);
        FreeListCounts(s1, s0[head0].entry.nextFree, count0 - 1);
        TrackedAfterFill(s0, old(issued), head0, v);
        assert forall k :: 0 <= k < |s0| ==> s1[k].generation == s0[k].generation;
        StaleStaysStale(s0, s1, retired);
      } else {
        ghost var s1 := s0 + [Slot(0, Present(v))];
        assert items == s1;
        assert firstFree == head0 && freeCount == 0;
        AppendPreservesFreeList(s0, head0, v);
        FreeListCounts(s1, head0, 0);
        TrackedAfterAppend(s0, old(issued), v);
        assert forall k :: 0 <= k < |s0| ==> s1[k] == s0[k];
        StaleStaysStale(s0, s1, retired);
      }
    }

    /** `remove`: for a handle that resolves, bumps its slot's generation, links the slot in at
        the head of the free list and hands back the value; afterwards the handle never resolves
        again. For a handle that does not resolve it returns `None` and changes nothing. The
        handle must be one this arena issued or one that does not resolve (see
        `Slots.PushFreeSlotBreaksFreeList` for what a forged handle on a free slot does). */
    method Remove(i: Id) returns (r: Option<T>)
      requires Valid()
      requires Exists(i) ==> Get(i).Some?
      modifies this
      ensures Valid()
      ensures r == old(Get(i))
      ensures !Exists(i) && Get(i) == None
      ensures issued == old(issued)
      ensures retired == if r.Some? then old(retired) + {i} else old(retired)
      ensures !old(Exists(i)) ==>
        items == old(items) && firstFree == old(firstFree) && freeCount == old(freeCount)
      ensures old(Exists(i)) ==>
        items == old(items)[i.index := Slot(i.generation + 1, Free(old(firstFree)))]
        && firstFree == i.index && freeCount == old(freeCount) + 1
      ensures |old(items)| == |items|
      ensures forall k :: 0 <= k < |old(items)| ==> old(items)[k].generation <= items[k].generation
      ensures Len() + (if r.Some? then 1 else 0) == old(Len())
    {
      if !Exists(i) {
        return None;
      }
      ghost var s0, head0, count0 := items, firstFree, freeCount;
      var item := items[i.index];
      var (entry, taken) := Take(item.entry, firstFree);
      items := items[i.index := Slot(item.generation + 1, entry)];
      firstFree := i.index;
      freeCount := freeCount + 1;
      retired := retired + {i};
      r := taken;
      assert items == s0[i.index := Slot(i.generation + 1, Free(head0))];
      PushPreservesFreeList(s0, head0, count0, i.index, i.generation + 1);
      TrackedAfterFree(s0, issued, i.index, head0);
      assert FreeList(items, firstFree, freeCount);
      assert Tracked(items, issued);
      StaleStaysStale(s0, items, old(retired));
      FreeListCounts(s0, head0, count0);
      FreeListCounts(items, firstFree, freeCount);
      ValuesContain(s0, i.index);
    }

    /** `get_mut` followed by a write through the reference it returns: when the handle resolves
        to a present slot, its value becomes `v` and the previous value is handed back; otherwise
        nothing changes. */
    method GetMut(i: Id, v: T) returns (prev: Option<T>)
      requires Valid()
      modifies this`items
      ensures Valid()
      ensures prev == old(Get(i))
      ensures prev.Some? ==> items == old(items)[i.index := Slot(i.generation, Present(v))] && Get(i) == Some(v)
      ensures prev.None? ==> items == old(items)
    {
      prev := Get(i);
      if prev.Some? {
        OverwritePreservesFreeList(items, firstFree, freeCount, i.index, v);
        items := items[i.index := Slot(i.generation, Present(v))];
      }
    }

    /** `IndexMut::index_mut` followed by a write: the same as `GetMut` when the handle resolves,
        and a panic naming the handle, with nothing changed, exactly when it does not. */
    method IndexMut(i: Id, v: T) returns (r: Indexed<T>)
      requires Valid()
      modifies this`items
      ensures Valid()
      ensures r.Ok? <==> old(Get(i)).Some?
      ensures r.Ok? ==>
        (r.value == old(Get(i)).value && Get(i) == Some(v)
         && items == old(items)[i.index := Slot(i.generation, Present(v))])
      ensures r.Panicked? ==> r.culprit == i && items == old(items)
    {
      var prev := GetMut(i, v);
      r := match prev
        case Some(t) => Ok(t)
        case None => Panicked(i);
    }

    /** `iter`, `iter_mut` and `into_iter`: an iterator over the whole slot range whose size is
        the arena's length. */
    method Iter() returns (it: Iters.SlotIter<T>)
      requires Valid()
      ensures fresh(it) && it.Valid()
      ensures it.Remaining() == Values(items) && it.returned == 0
      ensures it.SizeHint() == (Len(), Some(Len()))
    {
      it := new Iters.SlotIter(items, Len());
    }
  }

  /** For any arena: removing the handle an insert just returned gives the value back, and from
      then on the handle neither passes `exists` nor resolves through `get`. */
  method InsertThenRemove<T>(arena: Arena<T>, v: T) returns (id: Id, r: Option<T>)
    requires arena.Valid()
    modifies arena
    ensures arena.Valid()
    ensures r == Some(v)
    ensures !arena.Exists(id) && arena.Get(id) == None && id in arena.retired
    ensures arena.Len() == old(arena.Len())
  {
    id := arena.Insert(v);
    r := arena.Remove(id);
  }

  /** For any arena: after removing a live handle `(k, g)`, the next insert reuses slot `k` and
      returns `(k, g + 1)`, while the removed handle still does not resolve. */
  method RemoveThenInsert<T>(arena: Arena<T>, i: Id, v: T) returns (id: Id)
    requires arena.Valid() && arena.Get(i).Some?
    modifies arena
    ensures arena.Valid()
    ensures id == Id(i.index, i.generation + 1)
    ensures arena.Get(id) == Some(v) && arena.Get(i) == None
  {
    var r := arena.Remove(i);
    id := arena.Insert(v);
  }

  /** Insert "a" and "b", remove "a", insert "c": slot 0 is reused one generation later and the
      stale handle no longer resolves; the resulting arena is then traversed. */
  method ReuseScenario()
  {
    var arena := new Arena<string>();
    var a := arena.Insert("a");
    var b := arena.Insert("b");
    assert a == Id(0, 0) && b == Id(1, 0);
    var r := arena.Remove(a);
    assert r == Some("a");
    assert arena.Len() == 1;
    var c := arena.Insert("c");
    assert c == Id(0, 1);
    assert arena.Get(a) == None && arena.Get(c) == Some("c");
    assert arena.items == [Slot(1, Present("c")), Slot(0, Present("b"))];
    TraversalScenario(arena);
  }

  /** Traversing the arena `ReuseScenario` ends with, whose slots hold "c" and then "b", yields
      "c", then "b", then nothing. */
  method TraversalScenario(arena: Arena<string>)
    requires arena.Valid()
    requires arena.items == [Slot(1, Present("c")), Slot(0, Present("b"))]
  {
    var it := arena.Iter();
    assert Values(arena.items) == ["c", "b"] by {
      assert Values(arena.items[1..]) == ["b"] by {
        assert arena.items[1..][1..] == [];
      }
    }
    var x := it.Next();
    var y := it.Next();
    var z := it.Next();
    assert x == Some("c") && y == Some("b") && z == None;
  }
}
