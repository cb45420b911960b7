/**
  `UnqPtr<T>`: the exclusive owner of one heap object.

  The payload is a `Tracker`, the type whose destruction the program observes.
  A non-empty handle is the one owner its object records, so no two handles
  hold the same object and deleting the held object through one handle cannot
  leave another handle dangling.  Copying is not offered: the C++ class deletes
  its copy constructor and copy assignment.
 */
module Unique {
  import opened Trackers

  class UnqPtr {
    /** `ptr_`: the managed object, or null. */
    var ptr: Tracker?

    /** The heap is consistent and, when non-empty, this handle owns a live object. */
    ghost predicate Valid(heap: Heap)
      reads this, ptr, heap
    {
      && heap.Valid()
      && (ptr != null ==> ptr in heap.trackers && ptr.owner == this)
    }

    /** `UnqPtr()`: an empty pointer. */
    constructor ()
      ensures ptr == null
    {
      ptr := null;
    }

    /**
      `explicit UnqPtr(T* p)`: takes ownership of `p`.  The pointer must come
      straight from `new`, not already owned by anyone; null gives an empty handle.
     */
    constructor FromRaw(p: Tracker?, heap: Heap)
      requires heap.Valid()
      requires p != null ==> p in heap.trackers && p.owner == null
      modifies p
      ensures ptr == p && Valid(heap)
    {
      ptr := p;
      new;
      if p != null {
        p.owner := this;
      }
    }

    /** `UnqPtr(UnqPtr&& other)`: takes the object over and leaves `other` empty. */
    constructor Move(other: UnqPtr, heap: Heap)
      requires other.Valid(heap)
      modifies other, other.ptr
      ensures ptr == old(other.ptr) && other.ptr == null
      ensures Valid(heap) && other.Valid(heap)
    {
      ptr := other.ptr;
      new;
      other.ptr := null;
      if ptr != null {
        ptr.owner := this;
      }
    }

    /**
      `~UnqPtr()`: deletes the held object, if any.  Nothing else is freed.
     */
    method Destroy(heap: Heap)
      requires Valid(heap)
      modifies heap
      ensures heap.Valid()
      ensures Deleted(heap, ptr) && heap.cells == old(heap.cells)
    {
      DeleteTracker(ptr, heap);
    }

    /**
      `operator=(UnqPtr&& other)`: deletes the old object, takes `other`'s and
      leaves `other` empty.  Self-assignment changes nothing.
     */
    method MoveAssign(other: UnqPtr, heap: Heap)
      requires Valid(heap) && other.Valid(heap)
      modifies this, other, other.ptr, heap
      ensures Valid(heap) && other.Valid(heap)
      ensures other == this ==> ptr == old(ptr) && heap.Same()
      ensures other != this ==> ptr == old(other.ptr) && other.ptr == null
      ensures other != this ==> Deleted(heap, old(ptr)) && heap.cells == old(heap.cells)
    {
      if this != other {
        DeleteTracker(ptr, heap);
        ptr := other.ptr;
        other.ptr := null;
        if ptr != null {
          ptr.owner := this;
        }
      }
    }

    /** `get()`: the held object or null; ownership is unaffected. */
    method Get() returns (p: Tracker?)
      ensures p == ptr
    {
      p := ptr;
    }

    /** `explicit operator bool()`: whether an object is held. */
    method Bool() returns (b: bool)
      ensures b <==> ptr != null
    {
      b := ptr != null;
    }

    /** `operator*` and `operator->`: only defined on a non-empty pointer. */
    method Deref() returns (t: Tracker)
      requires ptr != null
      ensures t == ptr
    {
      t := ptr;
    }

    /**
      `release()`: hands the object to the caller and empties the handle.
      Nothing is deleted; the object stays live and now has no owner.
     */
    method Release(heap: Heap) returns (p: Tracker?)
      requires Valid(heap)
      modifies this, ptr
      ensures p == old(ptr) && ptr == null
      ensures Valid(heap)
      ensures p != null ==> p in heap.trackers && p.owner == null
    {
      p := ptr;
      ptr := null;
      if p != null {
        p.owner := null;
      }
    }

    /**
      `reset(p = nullptr)`: when `p` differs from the held object, deletes the
      held object and takes `p`; when they are equal nothing happens.  A new
      `p` must be live and unowned.
     */
    method Reset(heap: Heap, p: Tracker? := null)
      requires Valid(heap)
      requires p != ptr && p != null ==> p in heap.trackers && p.owner == null
      modifies this, p, heap
      ensures ptr == p && Valid(heap)
      ensures old(ptr) == p ==> heap.Same()
      ensures old(ptr) != p ==> Deleted(heap, old(ptr)) && heap.cells == old(heap.cells)
    {
      if ptr != p {
        DeleteTracker(ptr, heap);
        ptr := p;
        if p != null {
          p.owner := this;
        }
      }
    }

    /** `swap(other)`: exchanges the held objects; nothing is created or deleted. */
    method Swap(other: UnqPtr, heap: Heap)
      requires Valid(heap) && other.Valid(heap)
      modifies this, other, ptr, other.ptr
      ensures ptr == old(other.ptr) && other.ptr == old(ptr)
      ensures Valid(heap) && other.Valid(heap)
    {
      var mine, theirs := ptr, other.ptr;
      ptr, other.ptr := theirs, mine;
      if theirs != null {
        theirs.owner := this;
      }
      if mine != null {
        mine.owner := other;
      }
    }
  }
}
