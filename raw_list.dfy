/**
  `LinkedListRaw<T>`: the same singly linked list with raw `Node*` links, the
  baseline the smart-pointer list is compared against.

  The object invariant `Valid` is the one the raw code relies on without
  stating it: the ghost `spine` lists the nodes from `head_` onwards, no node
  appears twice (so the walk along `next` ends at `nullptr`), and `contents`
  holds their values in order.
 */
module RawList {
  import opened Trackers
  import opened ListSpec
  import opened Nodes

  class LinkedListRaw<T> {
    /** `head_`: the first node, or `nullptr`. */
    var head: Node?<T>
    /** `length_`. */
    var length: int
    /** The stored values, from `head_` onwards. */
    ghost var contents: seq<T>
    /** The nodes reachable from `head_`, in order. */
    ghost var spine: seq<Node<T>>
    /** The same nodes as a set: the list's footprint. */
    ghost var repr: set<Node<T>>

    /**
      `spine` is the chain from `head_` along `next` pointers to `nullptr`,
      without repeats; it carries `contents`, and `length_` counts it.
     */
    ghost predicate Valid()
      reads this, repr
    {
      && repr == (set n | n in spine)
      && length == |contents| == |spine|
      && head == (if |spine| == 0 then null else spine[0])
      && (forall i :: 0 <= i < |spine| ==> spine[i].data == contents[i])
      && (forall i :: 0 <= i < |spine| - 1 ==> spine[i].next == spine[i + 1])
      && (|spine| > 0 ==> spine[|spine| - 1].next == null)
      && Distinct(spine)
    }

    /** `LinkedListRaw() = default`: `head_ = nullptr`, `length_ = 0`. */
    constructor ()
      ensures Valid() && contents == [] && repr == {}
    {
      head := null;
      length := 0;
      contents, spine, repr := [], [], {};
    }

    /**
      `Append(val)`: walks to the last node and links a new node holding `v`
      after it (or makes it the head of an empty list).
     */
    method Append(v: T, heap: Heap)
      requires Valid() && repr <= heap.cells
      modifies this, repr, heap
      ensures Valid() && repr <= heap.cells
      ensures contents == old(contents) + [v]
      ensures length == old(length) + 1
      ensures old(repr) <= repr && fresh(repr - old(repr))
      ensures heap.cells == old(heap.cells) + (repr - old(repr)) && heap.SameTrackers()
    {
      var n := new Node(v);
      heap.Allocate(n);
      if head == null {
        head := n;
      } else {
        var curr := Last();
        curr.next := n;
        forall j | 0 <= j < |spine| - 1
          ensures spine[j].next == spine[j + 1]
        {
          assert spine[j] != curr;
        }
      }
      length := length + 1;
      contents := contents + [v];
      spine := spine + [n];
      repr := repr + {n};
    }

    /** `Prepend(val)`: a new node holding `v`, pointing at the old head, becomes `head_`. */
    method Prepend(v: T, heap: Heap)
      requires Valid() && repr <= heap.cells
      modifies this, heap
      ensures Valid() && repr <= heap.cells
      ensures contents == [v] + old(contents)
      ensures length == old(length) + 1
      ensures old(repr) <= repr && fresh(repr - old(repr))
      ensures heap.cells == old(heap.cells) + (repr - old(repr)) && heap.SameTrackers()
    {
      var n := new Node(v);
      heap.Allocate(n);
      n.next := head;
      head := n;
      length := length + 1;
      contents := [v] + contents;
      spine := [n] + spine;
      repr := repr + {n};
    }

    /**
      `InsertAt(val, index)`: an index outside `0..length_` throws
      `out_of_range` before anything changes; index 0 is `Prepend`; otherwise
      the new node is linked after the node at position `index - 1`.
     */
    method InsertAt(v: T, index: int, heap: Heap) returns (status: Status)
      requires Valid() && repr <= heap.cells
      modifies this, repr, heap
      ensures Valid() && repr <= heap.cells
      ensures status == OutOfRange <==> index < 0 || index > old(length)
      ensures status == OutOfRange ==> unchanged(this) && unchanged(repr) && heap.Same()
      ensures status == Ok ==> contents == Insert(old(contents), v, index)
      ensures status == Ok ==> length == old(length) + 1
      ensures old(repr) <= repr && fresh(repr - old(repr))
      ensures heap.cells == old(heap.cells) + (repr - old(repr)) && heap.SameTrackers()
    {
      if index < 0 || index > length {
        return OutOfRange;
      }
      if index == 0 {
        Prepend(v, heap);
        return Ok;
      }
      Splice(v, index, heap);
      status := Ok;
    }

    /**
      The general case of `InsertAt`, for `1 <= index <= length_`: walks to the
      node at position `index - 1` and links a new node holding `v` after it.
     */
    method Splice(v: T, index: int, heap: Heap)
      requires Valid() && repr <= heap.cells && 1 <= index <= length
      modifies this, repr, heap
      ensures Valid() && repr <= heap.cells
      ensures contents == Insert(old(contents), v, index)
      ensures length == old(length) + 1
      ensures old(repr) <= repr && fresh(repr - old(repr))
      ensures heap.cells == old(heap.cells) + (repr - old(repr)) && heap.SameTrackers()
    {
      var curr := NodeAt(index - 1);
      var n := new Node(v);
      heap.Allocate(n);
      LinkAfter(curr, n, index);
    }

    /**
      The relinking at the end of `InsertAt`: `newNode->next = curr->next;
      curr->next = newNode` for the node `curr` at position `index - 1`.
     */
    method LinkAfter(curr: Node<T>, n: Node<T>, index: int)
      requires Valid() && 1 <= index <= length && curr == spine[index - 1]
      requires n !in repr && n.next == null
      modifies this, curr, n
      ensures Valid()
      ensures contents == Insert(old(contents), n.data, index)
      ensures length == old(length) + 1
      ensures repr == old(repr) + {n}
    {
      ghost var s, c := spine, contents;
      n.next := curr.next;
      curr.next := n;
      length := length + 1;
      contents := Insert(c, n.data, index);
      spine := Insert(s, n, index);
      repr := repr + {n};
      assert forall j :: 0 <= j < |spine| - 1 ==> spine[j].next == spine[j + 1] by {
        forall j | 0 <= j < |s| - 1 && j != index - 1
          ensures s[j].next == s[j + 1]
        {
          assert s[j] != curr;
        }
        if index < |s| {
          assert s[|s| - 1] != curr;
        }
        SpliceLinks(s, n, index);
      }
      assert spine[|spine| - 1].next == null by {
        if index < |s| {
          assert spine[|spine| - 1] == s[|s| - 1] != curr;
        }
      }
      assert Distinct(spine) by {
        InsertDistinct(s, n, index);
      }
      assert repr == (set x | x in spine) by {
        InsertElements(s, n, index);
      }
      SpliceData(s, c, n, n.data, index);
    }


    /** The walk `curr = head_; while (curr->next) curr = curr->next`. */
    method Last() returns (curr: Node<T>)
      requires Valid() && length > 0
      ensures curr == spine[|spine| - 1]
    {
      curr := head;
      ghost var i := 0;
      while curr.next != null
        invariant 0 <= i < |spine| && curr == spine[i]
        invariant i < |spine| - 1 ==> curr.next == spine[i + 1]
        decreases |spine| - i
      {
        curr := curr.next;
        i := i + 1;
      }
    }

    /** The walk `curr = head_; for (i = 0; i < steps; ++i) curr = curr->next`. */
    method NodeAt(steps: int) returns (curr: Node<T>)
      requires Valid() && 0 <= steps < length
      ensures curr == spine[steps]
    {
      curr := head;
      for i := 0 to steps
        invariant curr == spine[i]
      {
        assert curr.next == spine[i + 1];
        curr := curr.next;
      }
    }

    /** `GetLength()`: the number of stored values, which is the number of reachable nodes. */
    method GetLength() returns (n: int)
      requires Valid()
      ensures n == |contents| && n == |repr|
    {
      DistinctSize(spine);
      n := length;
    }

    /**
      `~LinkedListRaw()`: repeatedly saves the head, advances `head_` along its
      `next` pointer and deletes the saved node.  Every node is freed exactly
      once and nothing else is.
     */
    method Destroy(heap: Heap)
      requires Valid() && repr <= heap.cells
      modifies this, heap
      ensures head == null
      ensures heap.cells == old(heap.cells) - old(repr) && heap.SameTrackers()
    {
      ghost var nodes := spine;
      ghost var k := 0;
      while head != null
        invariant 0 <= k <= |nodes|
        invariant head == (if k < |nodes| then nodes[k] else null)
        invariant forall i :: k <= i < |nodes| - 1 ==> nodes[i].next == nodes[i + 1]
        invariant k < |nodes| ==> nodes[|nodes| - 1].next == null
        invariant heap.cells == old(heap.cells) - (set i | 0 <= i < k :: nodes[i])
        invariant heap.SameTrackers()
        decreases |nodes| - k
      {
        var tmp := head;
        head := head.next;
        assert nodes[k] !in (set i | 0 <= i < k :: nodes[i]);
        heap.Free(tmp);
        assert (set i | 0 <= i < k + 1 :: nodes[i]) == (set i | 0 <= i < k :: nodes[i]) + {nodes[k]};
        k := k + 1;
      }
      assert (set i | 0 <= i < |nodes| :: nodes[i]) == old(repr);
    }
  }
}
