/**
  The instrumented payload type `Tracker` and the abstract heap it lives in.

  `Heap` stands for two things of the C++ program at once: the static counter
  `Tracker::alive`, and the allocator (`new`/`delete`).  Its ghost part records
  which trackers and which other heap blocks (reference-count cells, list nodes)
  are currently allocated; each tracker records in a ghost field the owner (a
  `UnqPtr` handle or a reference-count cell) responsible for deleting it.
  Freeing requires the block to be live, so a block can be freed at most once.
 */
module Trackers {

  class Heap {
    /** `Tracker::alive`: the number of trackers constructed and not yet destroyed. */
    var alive: int
    /** Ghost history: constructor and destructor runs so far. */
    ghost var constructed: nat
    ghost var destroyed: nat
    /** The trackers currently allocated. */
    ghost var trackers: set<Tracker>
    /** The other heap blocks currently allocated (count cells, list nodes). */
    ghost var cells: set<object>

    ghost predicate Valid()
      reads this
    {
      && alive == |trackers|
      && alive == constructed - destroyed
    }

    /** The process starts with no trackers (`int Tracker::alive = 0;`). */
    constructor ()
      ensures Valid()
      ensures alive == 0 && trackers == {} && cells == {}
      ensures constructed == 0 && destroyed == 0
    {
      alive := 0;
      constructed, destroyed := 0, 0;
      trackers, cells := {}, {};
    }

    /** Nothing about the trackers changed between the two states. */
    twostate predicate SameTrackers()
      reads this
    {
      && alive == old(alive)
      && trackers == old(trackers)
      && constructed == old(constructed)
      && destroyed == old(destroyed)
    }

    /** Nothing in the heap changed between the two states. */
    twostate predicate Same()
      reads this
    {
      SameTrackers() && cells == old(cells)
    }

    /** `new` of a non-tracker block: the block becomes live. */
    method Allocate(o: object)
      requires o !in cells
      modifies this
      ensures cells == old(cells) + {o}
      ensures SameTrackers()
    {
      cells := cells + {o};
    }

    /** `delete` of a non-tracker block; only a live block may be freed. */
    method Free(o: object)
      requires o in cells
      modifies this
      ensures cells == old(cells) - {o}
      ensures SameTrackers()
    {
      cells := cells - {o};
    }
  }

  class Tracker {
    /** The value of `alive` right after this tracker's construction. */
    const id: int
    /** The handle or count cell responsible for deleting this tracker, if any. */
    ghost var owner: object?

    /** `Tracker()`: `id = ++alive`. */
    constructor (heap: Heap)
      requires heap.Valid()
      modifies heap
      ensures heap.Valid()
      ensures heap.alive == old(heap.alive) + 1
      ensures id == heap.alive
      ensures heap.trackers == old(heap.trackers) + {this}
      ensures heap.constructed == old(heap.constructed) + 1
      ensures heap.destroyed == old(heap.destroyed)
      ensures heap.cells == old(heap.cells)
      ensures owner == null
    {
      heap.alive := heap.alive + 1;
      id := heap.alive;
      owner := null;
      new;
      heap.trackers := heap.trackers + {this};
      heap.constructed := heap.constructed + 1;
    }

    /**
      `delete t`: runs `~Tracker()` (`--alive`) and frees the object.  Only a
      live tracker may be deleted.
     */
    method Delete(heap: Heap)
      requires heap.Valid() && this in heap.trackers
      modifies heap
      ensures heap.Valid()
      ensures heap.alive == old(heap.alive) - 1
      ensures heap.trackers == old(heap.trackers) - {this}
      ensures heap.destroyed == old(heap.destroyed) + 1
      ensures heap.constructed == old(heap.constructed)
      ensures heap.cells == old(heap.cells)
    {
      heap.alive := heap.alive - 1;
      heap.trackers := heap.trackers - {this};
      heap.destroyed := heap.destroyed + 1;
    }

    /**
      `ping() const`: changes nothing.  It has no `modifies` clause, so neither
      `alive` nor any tracker's state moves, and `id` is a constant.
     */
    method Ping()
      ensures unchanged(this)
    {
    }
  }

  /**
    What `delete p` did to the heap: nothing when `p` is null, otherwise one
    destructor run and `p` gone from the live trackers.
   */
  twostate predicate Deleted(heap: Heap, p: Tracker?)
    reads heap
  {
    && heap.trackers == old(heap.trackers) - (if p == null then {} else {p})
    && heap.alive == old(heap.alive) - (if p == null then 0 else 1)
    && heap.destroyed == old(heap.destroyed) + (if p == null then 0 else 1)
    && heap.constructed == old(heap.constructed)
  }

  /** C++ `delete p` on a possibly null tracker pointer: a no-op on null. */
  method DeleteTracker(p: Tracker?, heap: Heap)
    requires heap.Valid() && (p != null ==> p in heap.trackers)
    modifies heap
    ensures heap.Valid()
    ensures Deleted(heap, p)
    ensures heap.cells == old(heap.cells)
    ensures p == null ==> heap.Same()
  {
    if p != null {
      p.Delete(heap);
    }
  }
}
