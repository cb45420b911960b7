/**
  `ShrdPtr<T>`: shared ownership of one heap object through a reference count
  kept in its own heap cell.

  All handles that share an object point to the same `RefCount` cell.  The
  cell's ghost `sharers` is the set of live handles sharing it, and the object
  invariant says the stored count is exactly the size of that set.  The tracker
  records the cell as its one owner, so two different cells never manage the
  same object.  The payload is a `Tracker`, as in the tests.
 */
module Shared {
  import opened Trackers

  /** The `size_t` cell behind `refcount_`. */
  class RefCount {
    var count: nat
    /** The object this cell counts references to. */
    ghost const obj: Tracker
    /** The live handles whose `refcount_` is this cell. */
    ghost var sharers: set<ShrdPtr>

    /** `new size_t(1)`, made when the handle `first` starts managing `obj`. */
    constructor (first: ShrdPtr, obj: Tracker)
      ensures count == 1 && sharers == {first} && this.obj == obj
    {
      count := 1;
      this.obj := obj;
      sharers := {first};
    }
  }

  /**
    `c` is a live count cell, the one owner of its object, and its value is the
    number of live handles sharing it: every one of its sharers points to it.
   */
  ghost predicate Shares(c: RefCount, heap: Heap)
    reads c, c.sharers, c.obj, heap
  {
    && c in heap.cells
    && c.obj in heap.trackers && c.obj.owner == c
    && c.count == |c.sharers|
    && forall s :: s in c.sharers ==> s.refcount == c && s.ptr == c.obj
  }

  /** Leaving `c` (when not null) took `h` out of its sharers and the count down by one. */
  twostate predicate LeftGroup(c: RefCount?, h: ShrdPtr)
    reads c
  {
    c != null ==> c.sharers == old(c.sharers) - {h} && c.count == old(c.count) - 1
  }

  /**
    The heap after one reference to `c`, managing `t`, went away: when that was
    the last reference, both `t` and `c` were deleted; otherwise nothing changed.
   */
  twostate predicate Released(heap: Heap, c: RefCount?, t: Tracker?)
    reads heap, c
  {
    var last := c != null && old(c.count) == 1;
    && Deleted(heap, if last then t else null)
    && heap.cells == old(heap.cells) - (if last then {c} else {})
  }

  /** Two different sharers of one cell mean a count of at least 2. */
  lemma TwoSharers(c: RefCount, a: ShrdPtr, b: ShrdPtr)
    requires a in c.sharers && b in c.sharers && a != b
    ensures |c.sharers| >= 2
  {
    var rest := c.sharers - {a};
    assert c.sharers == rest + {a} && a !in rest;
    assert |c.sharers| == |rest| + 1;
    assert b in rest;
    assert |rest| >= 1;
  }

  /** Replacing one sharer by a handle that was not one keeps the count. */
  lemma Replaced(sharers: set<ShrdPtr>, gone: ShrdPtr, come: ShrdPtr)
    requires gone in sharers && come !in sharers
    ensures |sharers - {gone} + {come}| == |sharers|
  {
    var rest := sharers - {gone};
    assert sharers == rest + {gone} && gone !in rest;
    assert |sharers| == |rest| + 1;
  }

  /**
    Puts `come` in the place of `gone` among the sharers of `c`, once `come`
    already points to `c`; the number of sharers does not change.
   */
  method Regroup(c: RefCount, gone: ShrdPtr, come: ShrdPtr)
    requires gone in c.sharers && come !in c.sharers
    requires come.refcount == c && come.ptr == c.obj
    requires forall s :: s in c.sharers && s != gone ==> s.refcount == c && s.ptr == c.obj
    modifies c
    ensures c.sharers == old(c.sharers) - {gone} + {come}
    ensures |c.sharers| == old(|c.sharers|) && c.count == old(c.count)
    ensures forall s :: s in c.sharers ==> s.refcount == c && s.ptr == c.obj
  {
    Replaced(c.sharers, gone, come);
    c.sharers := c.sharers - {gone} + {come};
  }

  class ShrdPtr {
    /** `ptr_`: the shared object, or null. */
    var ptr: Tracker?
    /** `refcount_`: the shared count cell, or null. */
    var refcount: RefCount?

    /** The live handles sharing this handle's object (none when empty). */
    ghost function Sharers(): set<ShrdPtr>
      reads this, refcount
    {
      if refcount == null then {} else refcount.sharers
    }

    /**
      Object invariant: a handle is empty in both fields or in neither, and a
      non-empty handle is one of the sharers of a consistent count cell.
     */
    ghost predicate Valid(heap: Heap)
      reads this, refcount, heap
      reads if refcount == null then {} else refcount.sharers + {refcount.obj}
    {
      && heap.Valid()
      && (ptr == null <==> refcount == null)
      && (refcount != null ==> this in refcount.sharers && Shares(refcount, heap))
    }

    /** `ShrdPtr()`: an empty handle with no count. */
    constructor ()
      ensures ptr == null && refcount == null
    {
      ptr, refcount := null, null;
    }

    /**
      `explicit ShrdPtr(T* p)`: a non-null `p` gets a fresh count of 1; null
      leaves the handle empty.  `p` must be live and not already owned.
     */
    constructor FromRaw(p: Tracker?, heap: Heap)
      requires heap.Valid()
      requires p != null ==> p in heap.trackers && p.owner == null
      modifies p, heap
      ensures ptr == p && Valid(heap)
      ensures p == null ==> refcount == null && heap.Same()
      ensures p != null ==> refcount != null && fresh(refcount)
      ensures p != null ==> refcount.count == 1 && refcount.sharers == {this}
      ensures heap.SameTrackers()
      ensures p != null ==> heap.cells == old(heap.cells) + {refcount}
    {
      ptr, refcount := null, null;
      new;
      Manage(p, heap);
    }

    /**
      The step shared by `ShrdPtr(T* p)` and `reset(p)`: an empty handle starts
      managing `p` with a freshly allocated count of 1, or stays empty on null.
     */
    method Manage(p: Tracker?, heap: Heap)
      requires ptr == null && refcount == null && heap.Valid()
      requires p != null ==> p in heap.trackers && p.owner == null
      modifies this, p, heap
      ensures ptr == p && Valid(heap)
      ensures p == null ==> refcount == null && heap.Same()
      ensures p != null ==> refcount != null && fresh(refcount)
      ensures p != null ==> refcount.count == 1 && refcount.sharers == {this}
      ensures heap.SameTrackers()
      ensures p != null ==> heap.cells == old(heap.cells) + {refcount}
    {
      if p != null {
        var c := new RefCount(this, p);
        ptr, refcount := p, c;
        heap.Allocate(c);
        p.owner := c;
      }
    }

    /**
      `release_ref()`: on a non-empty handle, decrements the count; when it
      reaches 0, deletes the object and then the count cell.  Either way the
      handle ends up empty.  On an empty handle nothing happens.
     */
    method ReleaseRef(heap: Heap)
      requires Valid(heap)
      modifies this, refcount, heap
      ensures ptr == null && refcount == null && Valid(heap)
      ensures LeftGroup(old(refcount), this)
      ensures Released(heap, old(refcount), old(ptr))
      ensures old(refcount) != null && old(refcount.count) > 1 ==> Shares(old(refcount), heap)
      ensures old(refcount) == null || old(refcount.count) > 1 ==> heap.Same()
    {
      if refcount != null {
        refcount.count := refcount.count - 1;
        refcount.sharers := refcount.sharers - {this};
        if refcount.count == 0 {
          DeleteTracker(ptr, heap);
          heap.Free(refcount);
        }
        refcount := null;
        ptr := null;
      }
    }

    /** `ShrdPtr(const ShrdPtr& other)`: shares `other`'s object and count, one more sharer. */
    constructor Copy(other: ShrdPtr, heap: Heap)
      requires other.Valid(heap)
      modifies other.refcount
      ensures ptr == other.ptr && refcount == other.refcount
      ensures Valid(heap) && other.Valid(heap)
      ensures refcount != null ==> refcount.count == old(other.refcount.count) + 1
      ensures refcount != null ==> refcount.sharers == old(other.refcount.sharers) + {this}
    {
      ptr, refcount := null, null;
      new;
      Join(other, heap);
    }

    /**
      The step shared by copy construction and copy assignment: an empty handle
      takes `other`'s object and count and raises the count by one.
     */
    method Join(other: ShrdPtr, heap: Heap)
      requires ptr == null && refcount == null && other.Valid(heap)
      modifies this, other.refcount
      ensures ptr == other.ptr && refcount == other.refcount
      ensures Valid(heap) && other.Valid(heap)
      ensures var c := refcount; c != null ==> c.count == old(c.count) + 1
      ensures var c := refcount; c != null ==> c.sharers == old(c.sharers) + {this}
    {
      ptr, refcount := other.ptr, other.refcount;
      if refcount != null {
        refcount.count := refcount.count + 1;
        refcount.sharers := refcount.sharers + {this};
      }
    }

    /** `ShrdPtr(ShrdPtr&& other)`: takes over `other`'s object and count; the count does not change. */
    constructor Move(other: ShrdPtr, heap: Heap)
      requires other.Valid(heap)
      modifies other, other.refcount
      ensures ptr == old(other.ptr) && refcount == old(other.refcount)
      ensures other.ptr == null && other.refcount == null
      ensures Valid(heap) && other.Valid(heap)
      ensures refcount != null ==> refcount.count == old(other.refcount.count)
      ensures refcount != null ==> refcount.sharers == old(other.refcount.sharers) - {other} + {this}
    {
      ptr, refcount := null, null;
      new;
      TakeOver(other, heap);
    }

    /**
      The step shared by move construction and move assignment: an empty handle
      takes `other`'s object and count (`std::exchange`), leaving `other` empty.
     */
    method TakeOver(other: ShrdPtr, heap: Heap)
      requires ptr == null && refcount == null && other.Valid(heap) && other != this
      modifies this, other, other.refcount
      ensures ptr == old(other.ptr) && refcount == old(other.refcount)
      ensures other.ptr == null && other.refcount == null
      ensures Valid(heap) && other.Valid(heap)
      ensures var c := refcount; c != null ==> c.count == old(c.count)
      ensures var c := refcount; c != null ==> c.sharers == old(c.sharers) - {other} + {this}
    {
      ptr, refcount := other.ptr, other.refcount;
      other.ptr, other.refcount := null, null;
      if refcount != null {
        Replaced(refcount.sharers, other, this);
        refcount.sharers := refcount.sharers - {other} + {this};
      }
    }

    /** `~ShrdPtr()`: gives up this handle's reference, as `release_ref` does. */
    method Destroy(heap: Heap)
      requires Valid(heap)
      modifies this, refcount, heap
      ensures ptr == null && refcount == null && Valid(heap)
      ensures LeftGroup(old(refcount), this)
      ensures Released(heap, old(refcount), old(ptr))
      ensures old(refcount) != null && old(refcount.count) > 1 ==> Shares(old(refcount), heap)
      ensures old(refcount) == null || old(refcount.count) > 1 ==> heap.Same()
    {
      ReleaseRef(heap);
    }

    /**
      `operator=(const ShrdPtr& other)`: unless it is self-assignment, gives up
      the old reference first (deleting on the last one), then shares `other`'s
      object and count with one more sharer.
     */
    method CopyAssign(other: ShrdPtr, heap: Heap)
      requires Valid(heap) && other.Valid(heap)
      modifies this, refcount, other.refcount, heap
      ensures Valid(heap) && other.Valid(heap)
      ensures other == this ==> unchanged(this) && heap.Same() && (refcount != null ==> unchanged(refcount))
      ensures other != this ==> ptr == other.ptr && refcount == other.refcount
      ensures var c := refcount; other != this && c != null ==>
        && c.sharers == old(c.sharers) + {this}
        && c.count == old(c.count) + (if old(refcount) == c then 0 else 1)
      ensures other != this && old(refcount) != other.refcount ==>
        LeftGroup(old(refcount), this) && Released(heap, old(refcount), old(ptr))
      ensures old(refcount) == other.refcount ==> heap.Same()
    {
      if this != other {
        if refcount != null && refcount == other.refcount {
          TwoSharers(refcount, this, other);
        }
        ReleaseRef(heap);
        Join(other, heap);
      }
    }

    /**
      `operator=(ShrdPtr&& other)`: unless it is self-assignment, gives up the
      old reference first, then takes over `other`'s object and count without
      touching the count, leaving `other` empty.
     */
    method MoveAssign(other: ShrdPtr, heap: Heap)
      requires Valid(heap) && other.Valid(heap)
      modifies this, refcount, other, other.refcount, heap
      ensures Valid(heap) && other.Valid(heap)
      ensures other == this ==> unchanged(this) && heap.Same() && (refcount != null ==> unchanged(refcount))
      ensures other != this ==> ptr == old(other.ptr) && refcount == old(other.refcount)
      ensures other != this ==> other.ptr == null && other.refcount == null
      ensures var c := refcount; other != this && c != null ==>
        && c.sharers == old(c.sharers) - {other} + {this}
        && c.count == old(c.count) - (if old(refcount) == c then 1 else 0)
      ensures other != this && old(refcount) != old(other.refcount) ==>
        LeftGroup(old(refcount), this) && Released(heap, old(refcount), old(ptr))
      ensures old(refcount) == old(other.refcount) ==> heap.Same()
    {
      if this != other {
        if refcount != null && refcount == other.refcount {
          TwoSharers(refcount, this, other);
        }
        ReleaseRef(heap);
        TakeOver(other, heap);
      }
    }

    /** `use_count()`: the number of live handles sharing the object, 0 when empty. */
    method UseCount(ghost heap: Heap) returns (n: nat)
      requires Valid(heap)
      ensures n == |Sharers()|
      ensures n == 0 <==> ptr == null
    {
      n := if refcount != null then refcount.count else 0;
    }

    /** `get()`: the shared object or null. */
    method Get() returns (p: Tracker?)
      ensures p == ptr
    {
      p := ptr;
    }

    /** `explicit operator bool()`: whether an object is held. */
    method Bool() returns (b: bool)
      ensures b <==> ptr != null
    {
      b := ptr != null;
    }

    /** `operator*` and `operator->`: only defined on a non-empty handle. */
    method Deref() returns (t: Tracker)
      requires ptr != null
      ensures t == ptr
    {
      t := ptr;
    }

    /**
      `reset(p = nullptr)`: always gives up the current reference first (there
      is no check that `p` differs from the held object), then manages `p` with
      a fresh count of 1, or stays empty when `p` is null.  `p` must be live and
      not owned by anyone, which also rules out passing the held object back.
     */
    method Reset(heap: Heap, p: Tracker? := null)
      requires Valid(heap)
      requires p != null ==> p in heap.trackers && p.owner == null
      modifies this, refcount, p, heap
      ensures ptr == p && Valid(heap)
      ensures LeftGroup(old(refcount), this)
      ensures p == null ==> refcount == null && Released(heap, old(refcount), old(ptr))
      ensures p != null ==> refcount != null && fresh(refcount)
      ensures p != null ==> refcount.count == 1 && refcount.sharers == {this}
      ensures var last := old(refcount) != null && old(refcount.count) == 1;
        && Deleted(heap, if last then old(ptr) else null)
        && (p != null ==> heap.cells == old(heap.cells) - (if last then {old(refcount)} else {}) + {refcount})
    {
      ReleaseRef(heap);
      Manage(p, heap);
    }

    /** `swap(other)`: exchanges object and count; no count changes. */
    method Swap(other: ShrdPtr, heap: Heap)
      requires Valid(heap) && other.Valid(heap)
      modifies this, other, refcount, other.refcount
      ensures ptr == old(other.ptr) && refcount == old(other.refcount)
      ensures other.ptr == old(ptr) && other.refcount == old(refcount)
      ensures Valid(heap) && other.Valid(heap)
      ensures var c := refcount; c != null ==> c.count == old(c.count)
      ensures var c := other.refcount; c != null ==> c.count == old(c.count)
      ensures var c := refcount; old(refcount) != c && c != null ==>
        c.sharers == old(c.sharers) - {other} + {this}
      ensures var c := other.refcount; old(other.refcount) != c && c != null ==>
        c.sharers == old(c.sharers) - {this} + {other}
      ensures old(refcount) == old(other.refcount) && refcount != null ==> unchanged(refcount)
    {
      if refcount == other.refcount {
        // The same group, or both empty: both handles already hold the same object.
        ptr, other.ptr := other.ptr, ptr;
      } else {
        Trade(other, heap);
      }
    }

    /**
      `swap` between handles of different groups: each handle takes the
      other's place among the sharers of the other's count cell.
     */
    method Trade(other: ShrdPtr, heap: Heap)
      requires Valid(heap) && other.Valid(heap) && refcount != other.refcount
      modifies this, other, refcount, other.refcount
      ensures ptr == old(other.ptr) && refcount == old(other.refcount)
      ensures other.ptr == old(ptr) && other.refcount == old(refcount)
      ensures Valid(heap) && other.Valid(heap)
      ensures var c := refcount; c != null ==> c.count == old(c.count)
      ensures var c := other.refcount; c != null ==> c.count == old(c.count)
      ensures var c := refcount; c != null ==> c.sharers == old(c.sharers) - {other} + {this}
      ensures var c := other.refcount; c != null ==> c.sharers == old(c.sharers) - {this} + {other}
    {
      var p1, c1 := ptr, refcount;
      var p2, c2 := other.ptr, other.refcount;
      ptr, refcount := p2, c2;
      other.ptr, other.refcount := p1, c1;
      if c1 != null {
        Regroup(c1, this, other);
      }
      if c2 != null {
        Regroup(c2, other, this);
      }
    }
  }
}
