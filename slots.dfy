/** Slots of the arena, the values they hold, and the free list threaded through the free ones. */
module Slots {
  import opened Handles

  /** A slot either holds a value or is free and links to the next free slot by index. */
  datatype Entry<T> = Present(value: T) | Free(nextFree: nat)

  datatype Slot<T> = Slot(generation: nat, entry: Entry<T>)

  /** `Entry::take`: the entry is replaced by a free link to `nextFree`; the value it held, if any,
      is handed back. */
  function Take<T>(e: Entry<T>, nextFree: nat): (r: (Entry<T>, Option<T>))
    ensures r.0 == Free(nextFree)
    ensures r.1.Some? <==> e.Present?
    ensures e.Present? ==> r.1 == Some(e.value)
  {
    match e
    case Present(t) => (Free(nextFree), Some(t))
    case Free(_) => (Free(nextFree), None)
  }

  /** The value a single slot contributes to a traversal: its value if present, nothing if free. */
  function ValueOf<T>(s: Slot<T>): seq<T>
  {
    if s.entry.Present? then [s.entry.value] else []
  }

  /** The values of the present slots, in ascending slot order. */
  function Values<T>(slots: seq<Slot<T>>): seq<T>
  {
    if slots == [] then [] else ValueOf(slots[0]) + Values(slots[1..])
  }

  lemma {:induction false} ValuesAppend<T>(a: seq<Slot<T>>, b: seq<Slot<T>>)
    ensures Values(a + b) == Values(a) + Values(b)
  {
    if a == [] {
      assert a + b == b;
    } else {
      assert (a + b)[1..] == a[1..] + b;
      ValuesAppend(a[1..], b);
    }
  }

  /** Every present slot's value is among the traversal's values. */
  lemma {:induction false} ValuesContain<T>(slots: seq<Slot<T>>, k: nat)
    requires k < |slots| && slots[k].entry.Present?
    ensures slots[k].entry.value in Values(slots)
  {
    if k > 0 {
      ValuesContain(slots[1..], k - 1);
    }
  }

  /** Indices of the free slots. */
  ghost function FreeSet<T>(slots: seq<Slot<T>>): set<nat>
  {
    set k | 0 <= k < |slots| && slots[k].entry.Free?
  }

  /** The handles that currently resolve to a present slot: one per present slot. */
  ghost function LiveHandles<T>(slots: seq<Slot<T>>): set<Id>
  {
    set k | 0 <= k < |slots| && slots[k].entry.Present? :: Id(k, slots[k].generation)
  }

  /** The present values of a non-empty slot range are those of all but its last slot, followed
      by the last slot's. */
  lemma ValuesSnoc<T>(slots: seq<Slot<T>>)
    requires slots != []
    ensures Values(slots) == Values(slots[..|slots| - 1]) + ValueOf(slots[|slots| - 1])
  {
    var n := |slots| - 1;
    assert slots == slots[..n] + [slots[n]];
    ValuesAppend(slots[..n], [slots[n]]);
    assert Values([slots[n]]) == ValueOf(slots[n]) + Values([slots[n]][1..]);
  }

  /** Dropping the first slot of a range `lo..hi` drops that slot's value from the front. */
  lemma ValuesRangeFront<T>(slots: seq<Slot<T>>, lo: nat, hi: nat)
    requires lo < hi <= |slots|
    ensures Values(slots[lo..hi]) == ValueOf(slots[lo]) + Values(slots[lo + 1..hi])
  {
    assert slots[lo..hi][1..] == slots[lo + 1..hi];
  }

  /** Dropping the last slot of a range `lo..hi` drops that slot's value from the back. */
  lemma ValuesRangeBack<T>(slots: seq<Slot<T>>, lo: nat, hi: nat)
    requires lo < hi <= |slots|
    ensures Values(slots[lo..hi]) == Values(slots[lo..hi - 1]) + ValueOf(slots[hi - 1])
  {
    ValuesSnoc(slots[lo..hi]);
    assert slots[lo..hi][..hi - 1 - lo] == slots[lo..hi - 1];
  }

  /** Every slot is free or present: the free slots and the present values together account for
      all slots. */
  lemma {:induction false} FreeAndPresentCount<T>(slots: seq<Slot<T>>)
    ensures |FreeSet(slots)| + |Values(slots)| == |slots|
  {
    if slots != [] {
      var n := |slots| - 1;
      var init := slots[..n];
      FreeAndPresentCount(init);
      ValuesSnoc(slots);
      if slots[n].entry.Free? {
        assert FreeSet(slots) == FreeSet(init) + {n};
        assert n !in FreeSet(init);
      } else {
        assert FreeSet(slots) == FreeSet(init);
      }
    }
  }

  /** There is exactly one live handle per present value. */
  lemma {:induction false} LiveHandlesCount<T>(slots: seq<Slot<T>>)
    ensures |LiveHandles(slots)| == |Values(slots)|
  {
    if slots != [] {
      var n := |slots| - 1;
      var init := slots[..n];
      LiveHandlesCount(init);
      ValuesSnoc(slots);
      if slots[n].entry.Free? {
        assert LiveHandles(slots) == LiveHandles(init);
      } else {
        assert LiveHandles(slots) == LiveHandles(init) + {Id(n, slots[n].generation)};
        assert Id(n, slots[n].generation) !in LiveHandles(init);
      }
    }
  }

  /** Following `nextFree` links from `head` for at most `count` steps, stopping early at an index
      that is out of bounds or not free. */
  function Walk<T>(slots: seq<Slot<T>>, head: nat, count: nat): (w: seq<nat>)
    ensures |w| <= count
    ensures w != [] ==> w[0] == head
    decreases count
  {
    if count == 0 || head >= |slots| || !slots[head].entry.Free? then []
    else [head] + Walk(slots, slots[head].entry.nextFree, count - 1)
  }

  /** Every index the walk visits is an in-bounds free slot, and each visited slot links to the
      next one visited. */
  lemma {:induction false} WalkShape<T>(slots: seq<Slot<T>>, head: nat, count: nat)
    ensures forall j :: 0 <= j < |Walk(slots, head, count)| ==>
      Walk(slots, head, count)[j] < |slots| && slots[Walk(slots, head, count)[j]].entry.Free?
    ensures forall j :: 0 < j < |Walk(slots, head, count)| ==>
      Walk(slots, head, count)[j] == slots[Walk(slots, head, count)[j - 1]].entry.nextFree
    decreases count
  {
    var w := Walk(slots, head, count);
    if w != [] {
      var next := slots[head].entry.nextFree;
      WalkShape(slots, next, count - 1);
      assert w == [head] + Walk(slots, next, count - 1);
    }
  }

  ghost predicate Distinct(w: seq<nat>)
  {
    forall i, j :: 0 <= i < j < |w| ==> w[i] != w[j]
  }

  ghost function Elems(w: seq<nat>): set<nat>
  {
    set x | x in w
  }

  lemma {:induction false} DistinctCard(w: seq<nat>)
    requires Distinct(w)
    ensures |Elems(w)| == |w|
  {
    if w != [] {
      DistinctCard(w[1..]);
      assert Elems(w) == {w[0]} + Elems(w[1..]);
      assert w[0] !in Elems(w[1..]);
    }
  }

  /** The free-list invariant of the arena: the chain that starts at `head` has exactly `count`
      links, no index occurs twice on it, and it reaches every free slot. */
  ghost predicate FreeList<T>(slots: seq<Slot<T>>, head: nat, count: nat)
  {
    var w := Walk(slots, head, count);
    |w| == count && Distinct(w) && forall k :: 0 <= k < |slots| && slots[k].entry.Free? ==> k in w
  }

  /** Under the invariant, `count` is the number of free slots, so the remaining slots are
      exactly the present ones. */
  lemma FreeListCounts<T>(slots: seq<Slot<T>>, head: nat, count: nat)
    requires FreeList(slots, head, count)
    ensures count <= |slots|
    ensures count + |Values(slots)| == |slots|
  {
    var w := Walk(slots, head, count);
    WalkShape(slots, head, count);
    assert Elems(w) == FreeSet(slots);
    DistinctCard(w);
    FreeAndPresentCount(slots);
  }

  /** The chain from `head` is the same in `t` as in `s` when the two agree on every slot the
      chain visits. */
  lemma {:induction false} WalkAgree<T>(s: seq<Slot<T>>, t: seq<Slot<T>>, head: nat, count: nat)
    requires |Walk(s, head, count)| == count
    requires forall k :: k in Walk(s, head, count) ==> k < |s| && k < |t| && t[k] == s[k]
    ensures Walk(t, head, count) == Walk(s, head, count)
    decreases count
  {
    if count > 0 {
      var w := Walk(s, head, count);
      assert w[0] == head;
      var rest := Walk(s, s[head].entry.nextFree, count - 1);
      assert w == [head] + rest;
      forall k | k in rest
        ensures k < |s| && k < |t| && t[k] == s[k]
      {
        assert k in w;
      }
      WalkAgree(s, t, s[head].entry.nextFree, count - 1);
    }
  }

  /** The chain from `head` in `t` reaches position `j` of the chain in `s` when the two agree on
      the slots visited before it and `t` still has that slot free. */
  lemma {:induction false} WalkPrefix<T>(s: seq<Slot<T>>, t: seq<Slot<T>>, head: nat, count: nat, j: nat)
    requires j < |Walk(s, head, count)|
    requires forall i :: 0 <= i < j ==>
      Walk(s, head, count)[i] < |s| && Walk(s, head, count)[i] < |t| && t[Walk(s, head, count)[i]] == s[Walk(s, head, count)[i]]
    requires Walk(s, head, count)[j] < |t| && t[Walk(s, head, count)[j]].entry.Free?
    ensures j < |Walk(t, head, count)| && Walk(t, head, count)[j] == Walk(s, head, count)[j]
    decreases j
  {
    var w := Walk(s, head, count);
    var rest := Walk(s, s[head].entry.nextFree, count - 1);
    assert w == [head] + rest;
    if j > 0 {
      assert t[head] == s[head];
      forall i | 0 <= i < j - 1
        ensures rest[i] < |s| && rest[i] < |t| && t[rest[i]] == s[rest[i]]
      {
        assert rest[i] == w[i + 1];
      }
      assert rest[j - 1] == w[j];
      WalkPrefix(s, t, s[head].entry.nextFree, count - 1, j - 1);
    }
  }

  /** Past its head, a valid free list continues as a chain of distinct free slots that never
      returns to the head and reaches every other free slot. */
  lemma FreeListTail<T>(s: seq<Slot<T>>, head: nat, count: nat)
    requires FreeList(s, head, count) && count > 0
    ensures head < |s| && s[head].entry.Free?
    ensures var rest := Walk(s, s[head].entry.nextFree, count - 1);
      |rest| == count - 1 && Distinct(rest) && head !in rest
      && forall k :: 0 <= k < |s| && k != head && s[k].entry.Free? ==> k in rest
  {
    var w := Walk(s, head, count);
    var rest := Walk(s, s[head].entry.nextFree, count - 1);
    assert w == [head] + rest;
    WalkShape(s, s[head].entry.nextFree, count - 1);
    forall i | 0 <= i < |rest|
      ensures rest[i] != head
    {
      assert rest[i] == w[i + 1] && w[0] == head;
    }
    forall i, j | 0 <= i < j < |rest|
      ensures rest[i] != rest[j]
    {
      assert rest[i] == w[i + 1] && rest[j] == w[j + 1];
    }
  }

  /** Popping the head of the free list (the reuse path of `insert`) and storing a value there
      leaves a valid free list one shorter, headed by the popped slot's link. */
  lemma PopPreservesFreeList<T>(s: seq<Slot<T>>, head: nat, count: nat, v: T)
    requires FreeList(s, head, count) && count > 0
    ensures head < |s| && s[head].entry.Free?
    ensures FreeList(s[head := Slot(s[head].generation, Present(v))], s[head].entry.nextFree, count - 1)
  {
    FreeListTail(s, head, count);
    var next := s[head].entry.nextFree;
    var t := s[head := Slot(s[head].generation, Present(v))];
    var rest := Walk(s, next, count - 1);
    WalkShape(s, next, count - 1);
    WalkAgree(s, t, next, count - 1);
    assert Walk(t, next, count - 1) == rest;
    forall k | 0 <= k < |t| && t[k].entry.Free?
      ensures k in rest
    {
      assert k != head && s[k] == t[k];
    }
  }

  /** Pushing a present slot onto the free list (the `remove` path) with a new generation leaves
      a valid free list one longer, headed by that slot. */
  lemma PushPreservesFreeList<T>(s: seq<Slot<T>>, head: nat, count: nat, k: nat, g: nat)
    requires FreeList(s, head, count)
    requires k < |s| && s[k].entry.Present?
    ensures FreeList(s[k := Slot(g, Free(head))], k, count + 1)
  {
    var w := Walk(s, head, count);
    var t := s[k := Slot(g, Free(head))];
    WalkShape(s, head, count);
    assert k !in w;
    WalkAgree(s, t, head, count);
    assert Walk(t, k, count + 1) == [k] + w;
  }

  /** Appending a present slot when no slot is free (the growth path of `insert`) keeps the
      free list empty and valid. */
  lemma AppendPreservesFreeList<T>(s: seq<Slot<T>>, head: nat, v: T)
    requires FreeList(s, head, 0)
    ensures FreeList(s + [Slot(0, Present(v))], head, 0)
  {
    var t := s + [Slot(0, Present(v))];
    forall k | 0 <= k < |t|
      ensures t[k].entry.Present?
    {
      if k < |s| {
        assert t[k] == s[k];
        assert !(s[k].entry.Free?);
      }
    }
  }

  /** Overwriting the value of a present slot (a write through `get_mut`) leaves the free list
      as it was. */
  lemma OverwritePreservesFreeList<T>(s: seq<Slot<T>>, head: nat, count: nat, k: nat, v: T)
    requires FreeList(s, head, count)
    requires k < |s| && s[k].entry.Present?
    ensures FreeList(s[k := Slot(s[k].generation, Present(v))], head, count)
  {
    var t := s[k := Slot(s[k].generation, Present(v))];
    WalkShape(s, head, count);
    assert k !in Walk(s, head, count);
    WalkAgree(s, t, head, count);
  }

  /** Pushing a slot that is ALREADY free onto the free list, which is what `remove` does with a
      handle whose generation matches a free slot's (one the arena never issued), breaks the
      invariant: the chain then visits that slot twice. */
  lemma PushFreeSlotBreaksFreeList<T>(s: seq<Slot<T>>, head: nat, count: nat, k: nat, g: nat)
    requires FreeList(s, head, count)
    requires k < |s| && s[k].entry.Free?
    ensures !FreeList(s[k := Slot(g, Free(head))], k, count + 1)
  {
    var w := Walk(s, head, count);
    var t := s[k := Slot(g, Free(head))];
    WalkShape(s, head, count);
    assert k in w;
    var j :| 0 <= j < |w| && w[j] == k;
    forall i | 0 <= i < j
      ensures w[i] < |s| && w[i] < |t| && t[w[i]] == s[w[i]]
    {
      assert w[i] != w[j];
    }
    WalkPrefix(s, t, head, count, j);
    var w2 := Walk(t, k, count + 1);
    assert w2 == [k] + Walk(t, head, count);
    assert w2[0] == k && w2[j + 1] == k;
  }

  /** Which handles an arena has issued, tied to its slots: every issued handle names an existing
      slot at a generation not beyond the slot's, one whose generation matches names a present
      slot, and every present slot's current handle was issued. */
  ghost predicate Tracked<T>(slots: seq<Slot<T>>, issued: set<Id>)
  {
    (forall id :: id in issued ==>
       id.index < |slots| && id.generation <= slots[id.index].generation
       && (id.generation == slots[id.index].generation ==> slots[id.index].entry.Present?))
    && (forall k :: 0 <= k < |slots| && slots[k].entry.Present? ==> Id(k, slots[k].generation) in issued)
  }

  /** Storing a value in the free slot `k` and issuing its current handle keeps the issued
      handles tied to the slots; that handle had not been issued before. */
  lemma TrackedAfterFill<T>(s: seq<Slot<T>>, issued: set<Id>, k: nat, v: T)
    requires Tracked(s, issued)
    requires k < |s| && s[k].entry.Free?
    ensures Id(k, s[k].generation) !in issued
    ensures Tracked(s[k := Slot(s[k].generation, Present(v))], issued + {Id(k, s[k].generation)})
  {
  }

  /** Appending a present slot and issuing its handle keeps the issued handles tied to the
      slots; that handle had not been issued before. */
  lemma TrackedAfterAppend<T>(s: seq<Slot<T>>, issued: set<Id>, v: T)
    requires Tracked(s, issued)
    ensures Id(|s|, 0) !in issued
    ensures Tracked(s + [Slot(0, Present(v))], issued + {Id(|s|, 0)})
  {
    var t := s + [Slot(0, Present(v))];
    forall k | 0 <= k < |t| && t[k].entry.Present?
      ensures Id(k, t[k].generation) in issued + {Id(|s|, 0)}
    {
      if k < |s| {
        assert t[k] == s[k];
      }
    }
  }

  /** Freeing the present slot `k` one generation later keeps the issued handles tied to the
      slots, and every handle issued for `k` is now out of date. */
  lemma TrackedAfterFree<T>(s: seq<Slot<T>>, issued: set<Id>, k: nat, next: nat)
    requires Tracked(s, issued)
    requires k < |s| && s[k].entry.Present?
    ensures Tracked(s[k := Slot(s[k].generation + 1, Free(next))], issued)
  {
  }

  /** Handles whose slot had moved past their generation stay out of date when slots are only
      added and no generation goes down. */
  lemma StaleStaysStale<T>(s: seq<Slot<T>>, t: seq<Slot<T>>, stale: set<Id>)
    requires forall id :: id in stale ==> id.index < |s| && id.generation < s[id.index].generation
    requires |s| <= |t|
    requires forall k :: 0 <= k < |s| ==> s[k].generation <= t[k].generation
    ensures forall id :: id in stale ==> id.index < |t| && id.generation < t[id.index].generation
  {
  }

  /** The issued handles that still resolve are exactly one per present slot. */
  lemma LiveIssued<T>(slots: seq<Slot<T>>, issued: set<Id>)
    requires Tracked(slots, issued)
    ensures (set id | id in issued && id.index < |slots| && id.generation == slots[id.index].generation)
            == LiveHandles(slots)
  {
  }
}
