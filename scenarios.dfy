/**
  The test drivers' scenarios, each starting from an empty heap, and the
  comparison of the two lists under the same sequence of calls.

  Every scenario reports what the driver observes (`operator bool`,
  `use_count()`, `Tracker::id`, `Tracker::alive`) as its results, and its
  contract states the values the driver asserts or prints.
 */
module Scenarios {
  import opened Trackers
  import opened Unique
  import opened Shared
  import opened ListSpec
  import opened SmartList
  import opened RawList

  /**
    `test_unqptr_basic`: `p1` owns a new tracker, is moved into `p2`, and `p2`
    is reset to a second tracker; leaving the block destroys `p2`, then `p1`.
   */
  method UnqPtrBasic() returns (held: bool, movedFrom: bool, movedTo: bool, afterReset: bool, alive: int)
    ensures held && !movedFrom && movedTo && afterReset
    ensures alive == 0
  {
    var heap := new Heap();
    var t1 := new Tracker(heap);
    var p1 := new UnqPtr.FromRaw(t1, heap);
    held := p1.Bool();
    var r := p1.Deref();
    r.Ping();
    var p2 := new UnqPtr.Move(p1, heap);
    movedFrom := p1.Bool();
    movedTo := p2.Bool();
    var t2 := new Tracker(heap);
    p2.Reset(heap, t2);
    afterReset := p2.Bool();
    p2.Destroy(heap);
    p1.Destroy(heap);
    alive := heap.alive;
  }

  /**
    `test_shrdptr_basic`: `a` owns a new tracker, `b` copies `a` and `c` copies
    `b` in nested blocks, which are left in the opposite order.  The counts are
    read at the driver's asserts: `a` then, inside, `a` and `b`, `a` and `c`,
    `a` and `b` again, and finally `a`.
   */
  method ShrdPtrBasic() returns (counts: seq<nat>, alive: int)
    ensures counts == [1, 2, 2, 3, 3, 2, 2, 1]
    ensures alive == 0
  {
    var heap := new Heap();
    var t := new Tracker(heap);
    var a := new ShrdPtr.FromRaw(t, heap);
    var n0 := a.UseCount(heap);
    var b := new ShrdPtr.Copy(a, heap);
    var n1 := a.UseCount(heap);
    var n2 := b.UseCount(heap);
    var c := new ShrdPtr.Copy(b, heap);
    var n3 := a.UseCount(heap);
    var n4 := c.UseCount(heap);
    var r := c.Deref();
    r.Ping();
    c.Destroy(heap);
    var n5 := a.UseCount(heap);
    var n6 := b.UseCount(heap);
    b.Destroy(heap);
    var n7 := a.UseCount(heap);
    a.Destroy(heap);
    counts := [n0, n1, n2, n3, n4, n5, n6, n7];
    alive := heap.alive;
  }

  /**
    `test_unqptr_reset_release`: `release` hands the tracker back alive, the
    caller deletes it, then `reset` to a new tracker and `reset()` to empty.
    The counts are `alive` at the driver's four asserts.
   */
  method UnqPtrResetRelease() returns (released: bool, emptied: bool, emptiedByReset: bool, alives: seq<int>)
    ensures released && !emptied && !emptiedByReset
    ensures alives == [1, 0, 1, 0]
  {
    var heap := new Heap();
    var t1 := new Tracker(heap);
    var p := new UnqPtr.FromRaw(t1, heap);
    var a0 := heap.alive;
    var raw := p.Release(heap);
    emptied := p.Bool();
    released := raw != null;
    DeleteTracker(raw, heap);
    var a1 := heap.alive;
    var t2 := new Tracker(heap);
    p.Reset(heap, t2);
    var a2 := heap.alive;
    p.Reset(heap);
    emptiedByReset := p.Bool();
    var a3 := heap.alive;
    p.Destroy(heap);
    alives := [a0, a1, a2, a3];
  }

  /**
    `test_reset_release_swap`: two handles own trackers 1 and 2 and are
    swapped; `p1`, now holding tracker 2, is reset to a new tracker (id 3,
    built before tracker 2 is deleted); `release` then hands tracker 3 back,
    and the caller deletes it; leaving the function destroys `p2`, then the
    empty `p1`.  The results are the ids the driver prints, whether `p1` still
    holds something after `release`, and `alive` at the end.
   */
  method UnqPtrSwap() returns (before: seq<int>, swapped: seq<int>, resetId: int,
                               heldAfterRelease: bool, releasedId: int, alive: int)
    ensures before == [1, 2] && swapped == [2, 1]
    ensures resetId == 3 && !heldAfterRelease && releasedId == 3
    ensures alive == 0
  {
    var heap := new Heap();
    var t1 := new Tracker(heap);
    var p1 := new UnqPtr.FromRaw(t1, heap);
    var t2 := new Tracker(heap);
    var p2 := new UnqPtr.FromRaw(t2, heap);
    var r1 := p1.Deref();
    var r2 := p2.Deref();
    before := [r1.id, r2.id];
    p1.Swap(p2, heap);
    r1 := p1.Deref();
    r2 := p2.Deref();
    swapped := [r1.id, r2.id];
    resetId, heldAfterRelease, releasedId := ResetThenRelease(p1, heap);
    p2.Destroy(heap);
    p1.Destroy(heap);
    alive := heap.alive;
  }

  /**
    The second half of `test_reset_release_swap` on a handle `p` holding a
    live tracker: `p.reset(new Tracker())`, then `release` and `delete` of the
    released tracker.  One tracker is created and two are deleted.
   */
  method ResetThenRelease(p: UnqPtr, heap: Heap) returns (resetId: int, held: bool, releasedId: int)
    requires p.Valid(heap) && p.ptr != null
    modifies p, p.ptr, heap
    ensures resetId == old(heap.alive) + 1 && releasedId == resetId
    ensures !held && p.ptr == null && p.Valid(heap)
    ensures heap.alive == old(heap.alive) - 1
    ensures heap.trackers == old(heap.trackers) - {old(p.ptr)}
    ensures heap.cells == old(heap.cells)
  {
    var t := new Tracker(heap);
    p.Reset(heap, t);
    var r := p.Deref();
    resetId := r.id;
    var raw := p.Release(heap);
    held := p.Bool();
    releasedId := raw.id;
    DeleteTracker(raw, heap);
  }

  /** One call of the interface on a `LinkedListSmart`. */
  method StepSmart<T>(l: LinkedListSmart<T>, op: Op<T>, heap: Heap) returns (status: Status)
    requires l.Valid() && l.repr <= heap.cells
    modifies l, l.repr, heap
    ensures l.Valid() && l.repr <= heap.cells
    ensures (status, l.contents) == Apply(old(l.contents), op)
    ensures old(l.repr) <= l.repr && fresh(l.repr - old(l.repr))
    ensures heap.cells == old(heap.cells) + (l.repr - old(l.repr))
  {
    ghost var after := Apply(l.contents, op);
    match op
    case Append(v) =>
      assert after == (Ok, l.contents + [v]);
      l.Append(v, heap);
      status := Ok;
    case Prepend(v) =>
      assert after == (Ok, [v] + l.contents);
      l.Prepend(v, heap);
      status := Ok;
    case InsertAt(v, i) =>
      InsertFront(l.contents, v);
      assert 0 <= i <= |l.contents| ==> after == (Ok, Insert(l.contents, v, i));
      status := l.InsertAt(v, i, heap);
  }

  /** One call of the interface on a `LinkedListRaw`. */
  method StepRaw<T>(l: LinkedListRaw<T>, op: Op<T>, heap: Heap) returns (status: Status)
    requires l.Valid() && l.repr <= heap.cells
    modifies l, l.repr, heap
    ensures l.Valid() && l.repr <= heap.cells
    ensures (status, l.contents) == Apply(old(l.contents), op)
    ensures old(l.repr) <= l.repr && fresh(l.repr - old(l.repr))
    ensures heap.cells == old(heap.cells) + (l.repr - old(l.repr))
  {
    ghost var after := Apply(l.contents, op);
    match op
    case Append(v) =>
      assert after == (Ok, l.contents + [v]);
      l.Append(v, heap);
      status := Ok;
    case Prepend(v) =>
      assert after == (Ok, [v] + l.contents);
      l.Prepend(v, heap);
      status := Ok;
    case InsertAt(v, i) =>
      InsertFront(l.contents, v);
      assert 0 <= i <= |l.contents| ==> after == (Ok, Insert(l.contents, v, i));
      status := l.InsertAt(v, i, heap);
  }

  /** Two valid lists whose nodes are disjoint and are all the heap's blocks. */
  ghost predicate Pair<T>(smart: LinkedListSmart<T>, raw: LinkedListRaw<T>, heap: Heap)
    reads smart, smart.repr, raw, raw.repr, heap
  {
    && smart.Valid() && raw.Valid()
    && smart.repr !! raw.repr && heap.cells == smart.repr + raw.repr
  }

  /** The same call on both lists, whose nodes are disjoint and are all the heap's blocks. */
  method Round<T>(smart: LinkedListSmart<T>, raw: LinkedListRaw<T>, op: Op<T>, heap: Heap)
      returns (s1: Status, s2: Status)
    requires Pair(smart, raw, heap)
    modifies smart, smart.repr, raw, raw.repr, heap
    ensures Pair(smart, raw, heap)
    ensures fresh(smart.repr - old(smart.repr)) && fresh(raw.repr - old(raw.repr))
    ensures (s1, smart.contents) == Apply(old(smart.contents), op)
    ensures (s2, raw.contents) == Apply(old(raw.contents), op)
  {
    s1 := StepSmart(smart, op, heap);
    s2 := StepRaw(raw, op, heap);
  }

  /**
    The same calls on a new `LinkedListSmart` and a new `LinkedListRaw` give
    the same outcomes and the same lengths, those of the abstract `Run`.
   */
  method RunBoth<T>(ops: seq<Op<T>>) returns (statuses1: seq<Status>, statuses2: seq<Status>, n1: int, n2: int)
    ensures statuses1 == statuses2 == Outcomes([], ops)
    ensures n1 == n2 == |Run([], ops)|
  {
    var heap := new Heap();
    var smart := new LinkedListSmart<T>();
    var raw := new LinkedListRaw<T>();
    statuses1, statuses2 := RunOn(smart, raw, ops, heap);
    n1 := smart.GetLength();
    n2 := raw.GetLength();
  }

  /** The calls `ops`, one after the other, each on both lists. */
  method RunOn<T>(smart: LinkedListSmart<T>, raw: LinkedListRaw<T>, ops: seq<Op<T>>, heap: Heap)
      returns (statuses1: seq<Status>, statuses2: seq<Status>)
    requires Pair(smart, raw, heap) && smart.contents == raw.contents == []
    modifies smart, smart.repr, raw, raw.repr, heap
    ensures Pair(smart, raw, heap)
    ensures smart.contents == raw.contents == Run([], ops)
    ensures statuses1 == statuses2 == Outcomes([], ops)
  {
    statuses1, statuses2 := [], [];
    for i := 0 to |ops|
      invariant Pair(smart, raw, heap)
      invariant fresh(smart.repr - old(smart.repr)) && fresh(raw.repr - old(raw.repr))
      invariant smart.contents == raw.contents == Run([], ops[..i])
      invariant statuses1 == statuses2 == Outcomes([], ops[..i])
    {
      var s1, s2 := Round(smart, raw, ops[i], heap);
      RunPrefix([], ops, i);
      statuses1, statuses2 := statuses1 + [s1], statuses2 + [s2];
    }
    assert ops[..|ops|] == ops;
  }
}
