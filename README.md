# gen_arena in Dafny

A model of the generational arena in `src/lib.rs`. The arena is a growable sequence of slots.
Each slot has a generation counter and an entry that is either `Present(value)` or
`Free { next_free }`. The free slots form a free list linked by index, with its head in
`first_free` and its length in `free_count`. Handles are `Id { index, generation }` pairs. A
handle resolves only while its generation equals its slot's generation. Removing a value bumps
that generation, so the removed handle never resolves again.

Files and modules:

- `handles.dfy`, module `Handles`: the `Id` handle, `Option`, and `Indexed`. `Indexed` is the
  outcome of the panicking index operators: a value, or a panic naming the handle.
- `slots.dfy`, module `Slots`: `Entry`, `Slot` and `Entry::take`. It also holds the
  specification functions. `Values` gives the present values in slot order. `Walk` follows the
  free list. `FreeList` is the free-list invariant. `Tracked` ties the issued handles to the
  slots. The lemmas show that each kind of slot update made by `insert`, `remove` and a
  `get_mut` write keeps these invariants.
- `iters.dfy`, module `Iters`: class `SlotIter`. It is the one slot-skipping double-ended
  iterator behind `Iter`, `IterMut` and `IntoIter`. It has a front/back cursor pair over the
  slots, plus the fixed `length` and the `returned` counter.
- `arena.dfy`, module `GenArena`: class `Arena`. It has the slot sequence, the two counters and
  two ghost sets. `issued` holds the handles `insert` has returned. `retired` holds the handles
  `remove` has taken a value back from.

The object invariant `Arena.Valid()` says three things. First, the chain from `firstFree` has
exactly `freeCount` distinct links, each a free slot, and it reaches every free slot. Second,
the issued handles are tied to the slots. Third, every retired handle's slot is now at a later
generation. `Insert`, `Remove`, `GetMut` and `IndexMut` preserve it. Each of them states its whole new state
in terms of the old one. The client methods `InsertThenRemove` and `RemoveThenInsert` combine
these contracts for any valid arena. The client `ReuseScenario` walks through insert "a",
insert "b", remove "a", insert "c": the arena reuses slot 0 at generation 1 and the stale handle
stops resolving. It then hands the resulting arena to `TraversalScenario`, whose traversal
yields "c", then "b", then nothing.

`src/lib.rs` has no `clear`, `reserve`, `with_capacity`, `extend` or `FromIterator`, so none is
modelled.

## Model

| member | source | states |
|---|---|---|
| Slots.Take | src/lib.rs:196-202 | the entry becomes a free link to the given index; the old value comes back exactly when the entry was present |
| Slots.WalkShape | src/lib.rs:100-110 | following `next_free` links visits only in-bounds free slots, each linked to the next |
| Slots.ValuesRangeFront | src/lib.rs:236-244 | stepping the front cursor past one slot removes exactly that slot's value, if any, from the front of the values still to come |
| Slots.ValuesRangeBack | src/lib.rs:251-259 | stepping the back cursor past one slot removes exactly that slot's value, if any, from the back of the values still to come |
| Slots.ValuesContain | src/lib.rs:67-70 | the value of every present slot is among the arena's present values |
| Slots.FreeAndPresentCount | src/lib.rs:22-25 | the free slots plus the present values make up all slots |
| Slots.LiveHandlesCount | src/lib.rs:22-25 | there is exactly one live handle per present value |
| Slots.FreeListCounts | src/lib.rs:22-25 | under the free-list invariant, `free_count` is at most the slot count and `items.len() - free_count` is the number of present values |
| Slots.FreeListTail | src/lib.rs:101-108 | when `free_count > 0` the head is an in-bounds free slot (the `unreachable!()` is never reached), and the rest of the list is distinct, skips the head and covers every other free slot |
| Slots.PopPreservesFreeList | src/lib.rs:100-110 | popping the head and storing a value there leaves a valid free list one shorter, headed by the popped slot's link |
| Slots.AppendPreservesFreeList | src/lib.rs:111-121 | growing by one present slot while no slot is free keeps the free list valid and empty |
| Slots.PushPreservesFreeList | src/lib.rs:41-46 | freeing a present slot at any new generation and linking it in at the head leaves a valid free list one longer |
| Slots.OverwritePreservesFreeList | src/lib.rs:79-82 | writing a new value into a present slot leaves the free list valid and unchanged |
| Slots.PushFreeSlotBreaksFreeList | src/lib.rs:36-58 | `remove` with a handle whose generation matches a slot that is already free breaks the free-list invariant: the chain visits that slot twice |
| Slots.TrackedAfterFill | src/lib.rs:101-110 | the handle minted for a reused free slot was never issued before, and issuing it keeps the issued handles tied to the slots |
| Slots.TrackedAfterAppend | src/lib.rs:111-121 | the handle `(old len, 0)` minted for a new slot was never issued before, and issuing it keeps the issued handles tied to the slots |
| Slots.TrackedAfterFree | src/lib.rs:41-44 | freeing a present slot one generation later keeps the issued handles tied to the slots |
| Slots.LiveIssued | src/lib.rs:50-58 | the issued handles that pass the bounds-and-generation check are exactly one per present slot |
| Iters.SlotIter.constructor | src/lib.rs:85-91 | a new iterator has all present values still to come, in slot order, has returned nothing, and has `length` equal to the number of present values |
| Iters.SlotIter.SizeHint | src/lib.rs:245-248 | `length - returned` is exact: it equals the number of present values left in the unconsumed range, and the upper bound equals the lower |
| Iters.SlotIter.Next | src/lib.rs:236-244 | yields the first present value of the unconsumed range, in ascending slot order, drops it from the front and counts it in `returned`; once the range holds no present value it yields `None` and the range stays empty, so every later call yields `None` too (fused) |
| Iters.SlotIter.NextBack | src/lib.rs:251-259 | yields the last present value of the unconsumed range, in descending slot order, drops it from the back and counts it in `returned`; `None` once no present value is left, and on every later call |
| GenArena.Arena.constructor | src/lib.rs:14-20 | `new` makes an arena with no slots, `first_free == 0` and `free_count == 0`, and it satisfies the invariant |
| GenArena.Arena.Len | src/lib.rs:22-25 | `items.len() - free_count` is the number of present values and the number of live handles |
| GenArena.Arena.IsEmpty | src/lib.rs:26-28 | true exactly when no slot holds a value |
| GenArena.Arena.LenCountsLiveHandles | src/lib.rs:22-25 | `len` equals the number of issued handles that still pass `exists` |
| GenArena.Arena.Exists | src/lib.rs:50-58 | a handle that passes is in bounds; an issued handle that passes points at a present slot; a removed handle never passes again |
| GenArena.Arena.Get | src/lib.rs:60-71 | a value is returned only for a handle that passes `exists`, and it is one of the arena's present values; for an issued handle, `Some` exactly when `exists`; a removed handle gets `None` |
| GenArena.Arena.Index | src/lib.rs:150-157 | the same value as `get` when it has one, and a panic naming the handle exactly when `get` returns `None` |
| GenArena.Arena.FreeIndex | src/lib.rs:100-122 | with free slots, it pops the head and returns `(head, head's generation)`, leaving the slots as they were; otherwise it appends `Slot { generation: 0, Free { next_free: 0 } }` and returns `(old len, 0)` |
| GenArena.Arena.Insert | src/lib.rs:30-35 | the returned handle is fresh and resolves to the value (`get(insert(v)) == Some(v)`); a reused slot keeps the generation its removal gave it; with no free slot, exactly one slot is appended and `(old len, 0)` is returned; no other slot changes, no generation decreases, `len` grows by one, and the invariant holds |
| GenArena.Arena.Remove | src/lib.rs:36-49 | returns what `get` returned before; a handle that does not resolve changes nothing; otherwise the slot's generation becomes the handle's plus one, the slot heads the free list and `free_count` grows by one; afterwards the handle does not resolve, stays retired for the rest of the arena's life, and `len` has dropped by one |
| GenArena.Arena.GetMut | src/lib.rs:72-83 | a write through `get_mut`'s reference: the previous value is what `get` returned; the slot then holds the new value; with `None` nothing changes; the invariant holds |
| GenArena.Arena.IndexMut | src/lib.rs:159-166 | a write through `index_mut`: when the handle resolves, the previous value is what `get` returned and exactly that slot now holds the new value at its own generation, every other slot unchanged (as `GetMut`); a panic naming the handle, with nothing changed, exactly when it does not resolve |
| GenArena.InsertThenRemove | src/lib.rs:30-49 | for any arena, `remove(insert(v))` returns `Some(v)`; afterwards the handle fails `exists`, `get` gives `None`, it is retired for good, and `len` is back where it was |
| GenArena.RemoveThenInsert | src/lib.rs:36-46 | for any arena, removing a live handle `(k, g)` and then inserting reuses slot `k` and returns `(k, g + 1)`; the new handle resolves to the new value and the old one does not |
| GenArena.Arena.Iter | src/lib.rs:85-98 | `iter`/`iter_mut`/`into_iter` start with exactly the present values to come, in slot order, and the first `size_hint` is `len()` |

## Left out

- GenArena.Arena.Remove: requires that a handle which passes `exists` resolves to a present slot. Every handle this arena issued meets this. The source accepts any handle. A handle that the arena never issued, whose generation matches a free slot, would link that slot into the free list a second time. `Slots.PushFreeSlotBreaksFreeList` proves that this breaks the free-list invariant.
- GenArena.Arena.Remove: generations are unbounded naturals, so its `Slot(i.generation + 1, ...)` stands in for the `u32` wrap-around of `generation += 1` (src/lib.rs:42). Wrap-around would let a stale handle resolve again; the "never resolves again" clauses hold only without it.
- GenArena.Arena.Insert: indices are unbounded naturals. The truncation in `index as u32` is not modelled, and a reused slot keeps the generation `remove` gave it without wrap-around.
- GenArena.Arena.FreeIndex: the `index as u32` truncation for more than 2^32 slots is not modelled, for the same reason.
- GenArena.Arena.Iter: the `self.len() as u32` truncation of `length` is not modelled.
- Iters.SlotIter.SizeHint: the `u32` arithmetic and the cast to `usize` are not modelled; the counters are naturals.
- Ownership and borrowing: `Iter`, `IterMut` and `IntoIter` differ only in how they borrow or consume the arena. One iterator over a copy of the slot sequence covers all three. Writes made through `IterMut`'s mutable references, and the consumption of the arena by `into_iter`, are not modelled.
- Mutable references in general: `get_mut` and `index_mut` are modelled as a single write of a new value through the returned reference, not as a lasting alias.
- The `GenIndex` trait and the `Index`/`IndexMut` impls generic over it (src/lib.rs:167-183, src/lib.rs:223-226) only relabel a typed handle as an `Id`, so they are not modelled separately.
- `Display for Id` and the panic message text: integer formatting. A panic is the `Panicked(culprit)` outcome.
- The derived `Clone`, `Debug`, `PartialEq`, `Eq` and `Hash`: Dafny datatype equality stands in for `Id` equality.
- The `Id::index` and `Id::generation` accessors are the datatype's field selectors.
