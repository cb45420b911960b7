# Smart pointers and linked lists, modelled in Dafny

This project models the core of the `lab1_smartPointers` library:
- the exclusive owner `UnqPtr<T>`;
- the reference-counted owner `ShrdPtr<T>`;
- the two singly linked lists `LinkedListSmart<T>`, whose nodes are linked by `UnqPtr<Node>`, and `LinkedListRaw<T>`, linked by raw `Node*`;
- the instrumented payload `Tracker`, whose static `alive` counter is what the program's tests observe.

Every C++ class becomes a Dafny class with the same fields, and every operation becomes a method that updates them in place.

- `trackers.dfy` (module `Trackers`) defines `Tracker` and an abstract heap, `Heap`. The heap holds the real `Tracker::alive` counter. It also holds a ghost record of the live trackers and of the other live heap blocks (count cells and list nodes), plus the number of constructor and destructor runs so far. Freeing requires a live block, so "freed exactly once" can be stated. Each tracker records, in a ghost field, the handle or count cell that owns it.
- `unq_ptr.dfy` (module `Unique`) holds `UnqPtr`. Its invariant: a non-empty handle holds a live tracker whose recorded owner is that handle. Copying is not offered, as in the C++ class.
- `shrd_ptr.dfy` (module `Shared`) holds `ShrdPtr` and its count cell `RefCount`. The cell carries a ghost set of the live handles sharing it. The invariant `Shares` says:
  - the stored count equals the size of that set;
  - every handle in the set points to the cell and to its object;
  - the object records the cell as its owner.
  
  `ReleaseRef` is `release_ref`, and the operations that give up a reference are built on it.
- `list_spec.dfy` (module `ListSpec`) is the abstract behaviour of both lists on their contents: `Insert`, `Apply`, `Run` and `Outcomes`.
- `nodes.dfy` (module `Nodes`) is the node class both lists use, with the splicing lemmas.
- `smart_list.dfy` (module `SmartList`) and `raw_list.dfy` (module `RawList`) are the two list classes:
  - each carries a ghost `contents` sequence, the ghost node sequence `spine` and the footprint `repr`;
  - the invariant `Valid` says the nodes from `head_` follow `spine` through the `next` links to the empty link, no node repeats, and `length_` is the number of nodes;
  - every mutating method states its effect on `contents`, and `Destroy` states that every node is freed exactly once.
- `scenarios.dfy` (module `Scenarios`) replays the test drivers' scenarios on a fresh heap. It also runs any sequence of `Append`, `Prepend` and `InsertAt` calls on both lists and shows they reach the same contents and outcomes.

`UnqPtr::reset` (`UnqPtr.hpp:71`) does nothing when the new pointer equals the held one. `ShrdPtr::reset` is different: it always releases first. `Unique.UnqPtr.Reset` follows the code.

## Model

| member | source | states |
|---|---|---|
| Trackers.Heap.constructor | lab1_smartPointers/src/tests_basic.cpp:8 | the process starts with `alive == 0` and no live trackers or blocks |
| Trackers.Heap.Allocate | lab1_smartPointers/include/ShrdPtr.hpp:47 | `new` of a count cell or node adds exactly that block to the live blocks; trackers untouched |
| Trackers.Heap.Free | lab1_smartPointers/include/ShrdPtr.hpp:28 | `delete` of a live block removes exactly that block; trackers untouched |
| Trackers.Tracker.constructor | lab1_smartPointers/include/Tracker.hpp:10-14 | `alive` grows by exactly 1, `id` is the new value of `alive`, the tracker becomes live and unowned, and `alive` stays equal to constructions minus destructions |
| Trackers.Tracker.Delete | lab1_smartPointers/include/Tracker.hpp:16-20 | deleting a live tracker lowers `alive` by exactly 1 and removes it from the live trackers, keeping `alive == constructed - destroyed` |
| Trackers.Tracker.Ping | lab1_smartPointers/include/Tracker.hpp:22-25 | `ping()` changes nothing: with no `modifies` clause neither `alive` nor the tracker moves, and `id` is a constant |
| Trackers.DeleteTracker | lab1_smartPointers/include/UnqPtr.hpp:31 | `delete p` runs one destructor for a non-null `p` and does nothing at all for null |
| Unique.UnqPtr.constructor | lab1_smartPointers/include/UnqPtr.hpp:17-20 | a default pointer is empty |
| Unique.UnqPtr.FromRaw | lab1_smartPointers/include/UnqPtr.hpp:23-26 | the handle holds `p` and becomes its one owner; null gives an empty handle |
| Unique.UnqPtr.Move | lab1_smartPointers/include/UnqPtr.hpp:39-42 | the new handle holds the source's object, the source is empty, and nothing is created or freed |
| Unique.UnqPtr.Destroy | lab1_smartPointers/include/UnqPtr.hpp:29-32 | the held tracker is deleted exactly once; an empty handle deletes nothing; no other block is freed |
| Unique.UnqPtr.MoveAssign | lab1_smartPointers/include/UnqPtr.hpp:45-53 | self-assignment changes nothing; otherwise the old object is deleted, the source's object is taken over and the source is left empty |
| Unique.UnqPtr.Get | lab1_smartPointers/include/UnqPtr.hpp:56-59 | returns the held object and changes nothing |
| Unique.UnqPtr.Release | lab1_smartPointers/include/UnqPtr.hpp:62-66 | returns the held object and empties the handle; nothing is freed, and the object stays live with no owner, so the caller may delete it |
| Unique.UnqPtr.Reset | lab1_smartPointers/include/UnqPtr.hpp:69-76 | with a different `p`, the old object is deleted and `p` is held; with an equal `p` (including `reset()` on an empty handle) the heap is unchanged |
| Unique.UnqPtr.Swap | lab1_smartPointers/include/UnqPtr.hpp:79-82 | the two held objects are exchanged, with ownership; nothing is created or deleted (no `modifies heap`) |
| Unique.UnqPtr.Deref | lab1_smartPointers/include/UnqPtr.hpp:85-94 | `*p` and `p->` give the held object and are only allowed on a non-empty handle |
| Unique.UnqPtr.Bool | lab1_smartPointers/include/UnqPtr.hpp:97-100 | true exactly when an object is held; changes nothing |
| Shared.RefCount.constructor | lab1_smartPointers/include/ShrdPtr.hpp:47 | a new count cell holds 1, with its first handle as the only sharer |
| Shared.TwoSharers | lab1_smartPointers/include/ShrdPtr.hpp:73-86 | two different handles of one group mean a count of at least 2, so copy-assigning within a group never frees the object |
| Shared.Replaced | lab1_smartPointers/include/ShrdPtr.hpp:61-64 | one handle taking another's place among the sharers keeps the number of sharers, hence the count |
| Shared.Regroup | lab1_smartPointers/include/ShrdPtr.hpp:129-133 | after the fields are swapped, one handle takes the other's place among a cell's sharers; the count and the number of sharers are unchanged |
| Shared.ShrdPtr.constructor | lab1_smartPointers/include/ShrdPtr.hpp:37-40 | a default handle has no object and no count |
| Shared.ShrdPtr.FromRaw | lab1_smartPointers/include/ShrdPtr.hpp:43-49 | a non-null `p` gets a freshly allocated count of 1 with this handle as its only sharer; null leaves the handle empty and the heap unchanged |
| Shared.ShrdPtr.Manage | lab1_smartPointers/include/ShrdPtr.hpp:43-49 | the adoption step shared with `reset`: an empty handle takes `p` with a fresh count of 1, or stays empty on null |
| Shared.ShrdPtr.ReleaseRef | lab1_smartPointers/include/ShrdPtr.hpp:21-33 | a non-empty handle leaves its group and the count drops by 1; only when it was the last reference are both the object and the cell deleted, and otherwise the group stays consistent and the heap unchanged; an empty handle does nothing; the handle always ends empty |
| Shared.ShrdPtr.Copy | lab1_smartPointers/include/ShrdPtr.hpp:52-58 | the copy shares the object and cell, and the count rises by exactly 1 with the copy added to the sharers; copying an empty handle touches no count |
| Shared.ShrdPtr.Join | lab1_smartPointers/include/ShrdPtr.hpp:78-84 | the sharing step of copy construction and copy assignment: count + 1, one more sharer |
| Shared.ShrdPtr.Move | lab1_smartPointers/include/ShrdPtr.hpp:61-64 | object and cell are taken over with the count unchanged, the new handle replaces the source among the sharers, and the source is empty |
| Shared.ShrdPtr.TakeOver | lab1_smartPointers/include/ShrdPtr.hpp:94-95 | the transfer step of move construction and move assignment, with the count unchanged |
| Shared.ShrdPtr.Destroy | lab1_smartPointers/include/ShrdPtr.hpp:67-70 | the destructor gives up the reference exactly as `release_ref` does: the object is freed exactly when the last handle goes away |
| Shared.ShrdPtr.CopyAssign | lab1_smartPointers/include/ShrdPtr.hpp:73-86 | self-assignment changes nothing; otherwise the old reference is released first (freeing on the last one) and the other group gains one sharer, so within one group the count is unchanged |
| Shared.ShrdPtr.MoveAssign | lab1_smartPointers/include/ShrdPtr.hpp:89-98 | self-move changes nothing; otherwise the old reference is released first, then object and cell are taken over without a count change, and the source is empty |
| Shared.ShrdPtr.UseCount | lab1_smartPointers/include/ShrdPtr.hpp:101-104 | `use_count()` is the number of live handles sharing the object, and 0 exactly when the handle is empty |
| Shared.ShrdPtr.Get | lab1_smartPointers/include/ShrdPtr.hpp:107-110 | returns the shared object and changes nothing |
| Shared.ShrdPtr.Reset | lab1_smartPointers/include/ShrdPtr.hpp:113-126 | the current reference is always released first (deleting object and cell if it was the last), then `p` is managed with a fresh count of 1, or the handle is left empty on null |
| Shared.ShrdPtr.Swap | lab1_smartPointers/include/ShrdPtr.hpp:129-133 | object and cell are exchanged, no count changes, each handle takes the other's place among the sharers, and a swap within one group leaves the cell untouched |
| Shared.ShrdPtr.Trade | lab1_smartPointers/include/ShrdPtr.hpp:131-132 | the field exchange between handles of two different groups, with both counts unchanged |
| Shared.ShrdPtr.Deref | lab1_smartPointers/include/ShrdPtr.hpp:136-144 | `*p` and `p->` give the shared object and are only allowed on a non-empty handle |
| Shared.ShrdPtr.Bool | lab1_smartPointers/include/ShrdPtr.hpp:147-150 | true exactly when an object is held |
| ListSpec.Insert | lab1_smartPointers/include/LinkedList.hpp:69-76 | the value lands at position `i`, the elements before keep their positions and those after shift by one |
| ListSpec.InsertFront | lab1_smartPointers/include/LinkedList.hpp:63-67 | inserting at 0 is prepending, which is why `InsertAt(v, 0)` may call `Prepend` |
| ListSpec.InsertBack | lab1_smartPointers/include/LinkedList.hpp:58-77 | inserting at `length_` is appending |
| ListSpec.Apply | lab1_smartPointers/include/LinkedList.hpp:35-77 | a call throws exactly when it is `InsertAt` with an index outside `0..length_`; a throwing call leaves the contents unchanged, and a successful one adds exactly one element |
| ListSpec.Run | lab1_smartPointers/include/LinkedList.hpp:35-77 | a sequence of calls grows the contents by one element per call that does not throw |
| ListSpec.RunSnoc | lab1_smartPointers/include/LinkedList.hpp:35-77 | running one more call applies that call to the contents reached so far |
| ListSpec.Outcomes | lab1_smartPointers/include/LinkedList.hpp:58-61 | one outcome per call |
| ListSpec.OutcomesSnoc | lab1_smartPointers/include/LinkedList.hpp:58-61 | one more call adds the outcome of that call on the contents reached so far |
| ListSpec.RunPrefix | lab1_smartPointers/include/LinkedList.hpp:35-77 | the first `i + 1` calls are the first `i` calls followed by call `i`, for contents and outcomes alike |
| ListSpec.InsertDistinct | lab1_smartPointers/include/LinkedList.hpp:73-75 | linking in a node not yet in the chain keeps the chain free of repeats (acyclic, unshared) |
| ListSpec.InsertElements | lab1_smartPointers/include/LinkedList.hpp:73-75 | inserting a node adds exactly that node to the footprint |
| ListSpec.DistinctSize | lab1_smartPointers/include/LinkedList.hpp:79 | a chain without repeats has as many distinct nodes as positions, so `length_` counts the reachable nodes |
| Nodes.Node.constructor | lab1_smartPointers/include/LinkedList.hpp:14 | a new node holds the value and an empty link |
| Nodes.SpliceLinks | lab1_smartPointers/include/LinkedList.hpp:74-75 | relinking after position `index - 1` gives exactly the chain with the new node inserted at `index` |
| Nodes.SpliceData | lab1_smartPointers/include/LinkedList.hpp:73-75 | that chain carries the contents with the value inserted at `index` |
| SmartList.DeleteNode | lab1_smartPointers/include/LinkedList.hpp:29-30 | deleting a node whose own link was emptied frees exactly that node |
| SmartList.LinkedListSmart.constructor | lab1_smartPointers/include/LinkedList.hpp:21 | a new list is empty, with no nodes |
| SmartList.LinkedListSmart.Append | lab1_smartPointers/include/LinkedList.hpp:35-48 | contents become `old + [v]`, `length_` grows by 1, and exactly one fresh node is allocated |
| SmartList.LinkedListSmart.Prepend | lab1_smartPointers/include/LinkedList.hpp:50-56 | contents become `[v] + old`, `length_` grows by 1, and exactly one fresh node is allocated |
| SmartList.LinkedListSmart.InsertAt | lab1_smartPointers/include/LinkedList.hpp:58-77 | throws exactly when `index < 0` or `index > length_`, and then nothing changes; otherwise contents become `Insert(old, v, index)` and `length_` grows by 1 |
| SmartList.LinkedListSmart.Splice | lab1_smartPointers/include/LinkedList.hpp:69-76 | the case `1 <= index <= length_`: walk, allocate one node, link it in at `index` |
| SmartList.LinkedListSmart.LinkAfter | lab1_smartPointers/include/LinkedList.hpp:74-75 | the two link moves put the new node at `index`, keep the invariant and insert its value into the contents |
| SmartList.LinkedListSmart.Last | lab1_smartPointers/include/LinkedList.hpp:42-44 | the walk along `next` ends at the last node of the chain |
| SmartList.LinkedListSmart.NodeAt | lab1_smartPointers/include/LinkedList.hpp:69-71 | `steps` moves along `next` from the head reach the node at position `steps` |
| SmartList.LinkedListSmart.GetLength | lab1_smartPointers/include/LinkedList.hpp:79 | `GetLength()` is the number of stored values and of reachable nodes |
| SmartList.LinkedListSmart.Destroy | lab1_smartPointers/include/LinkedList.hpp:23-33 | the loop ends with `head_` empty, frees every node of the list exactly once and nothing else, and leaves the trackers alone |
| RawList.LinkedListRaw.constructor | lab1_smartPointers/include/LinkedListRaw.hpp:20 | a new list is empty, with no nodes |
| RawList.LinkedListRaw.Append | lab1_smartPointers/include/LinkedListRaw.hpp:31-44 | contents become `old + [v]`, `length_` grows by 1, and exactly one fresh node is allocated |
| RawList.LinkedListRaw.Prepend | lab1_smartPointers/include/LinkedListRaw.hpp:46-52 | contents become `[v] + old`, `length_` grows by 1, and exactly one fresh node is allocated |
| RawList.LinkedListRaw.InsertAt | lab1_smartPointers/include/LinkedListRaw.hpp:54-73 | throws exactly when `index < 0` or `index > length_`, and then nothing changes; otherwise the value lands at `index`, the others keep their order, and `length_` grows by 1 |
| RawList.LinkedListRaw.Splice | lab1_smartPointers/include/LinkedListRaw.hpp:65-72 | the case `1 <= index <= length_`: walk, allocate one node, link it in at `index` |
| RawList.LinkedListRaw.LinkAfter | lab1_smartPointers/include/LinkedListRaw.hpp:70-71 | the two pointer writes put the new node at `index`, keep the invariant and insert its value into the contents |
| RawList.LinkedListRaw.Last | lab1_smartPointers/include/LinkedListRaw.hpp:38-40 | the walk along `next` ends at the last node of the chain |
| RawList.LinkedListRaw.NodeAt | lab1_smartPointers/include/LinkedListRaw.hpp:65-67 | `steps` moves along `next` from the head reach the node at position `steps` |
| RawList.LinkedListRaw.GetLength | lab1_smartPointers/include/LinkedListRaw.hpp:75 | `GetLength()` is the number of stored values and of reachable nodes |
| RawList.LinkedListRaw.Destroy | lab1_smartPointers/include/LinkedListRaw.hpp:21-29 | the loop ends with `head_` null, frees every node of the list exactly once and nothing else, and leaves the trackers alone |
| Scenarios.UnqPtrBasic | lab1_smartPointers/src/tests_basic.cpp:13-40 | the pointer is non-empty, empty after the move while its target is non-empty, non-empty after `reset`, and `alive == 0` after the block |
| Scenarios.ShrdPtrBasic | lab1_smartPointers/src/tests_basic.cpp:45-77 | the counts at the asserts are 1, 2, 2, 3, 3, 2, 2, 1, and `alive == 0` at the end |
| Scenarios.UnqPtrResetRelease | lab1_smartPointers/src/tests_basic.cpp:82-106 | `release` returns a non-null object and empties the pointer, `reset()` empties it, and `alive` is 1, 0, 1, 0 at the asserts |
| Scenarios.UnqPtrSwap | lab1_smartPointers/src/tests_functional.cpp:30-55 | the ids are 1, 2 before the swap and 2, 1 after it; the tracker `reset` installs gets id 3; after `release` the handle is empty and the released tracker is #3; `alive == 0` at the end |
| Scenarios.ResetThenRelease | lab1_smartPointers/src/tests_functional.cpp:43-51 | resetting a non-empty handle to a new tracker gives it id `alive + 1` and deletes the old one; `release` returns that new tracker and empties the handle; after `delete raw`, `alive` is one less than before and exactly the old tracker is gone from the live trackers |
| Scenarios.StepSmart | lab1_smartPointers/include/LinkedList.hpp:35-77 | each call on a `LinkedListSmart` has exactly the outcome and contents `Apply` gives |
| Scenarios.StepRaw | lab1_smartPointers/include/LinkedListRaw.hpp:31-73 | each call on a `LinkedListRaw` has exactly the outcome and contents `Apply` gives |
| Scenarios.Round | lab1_smartPointers/include/LinkedListRaw.hpp:31-73 | the same call on both lists has the same outcome and effect on both |
| Scenarios.RunOn | lab1_smartPointers/include/LinkedListRaw.hpp:31-73 | the same calls on both lists give the same contents, `Run`, and the same outcomes, `Outcomes` |
| Scenarios.RunBoth | lab1_smartPointers/include/LinkedListRaw.hpp:31-75 | from two new lists, the same calls give equal outcomes and equal `GetLength()` results, those of the abstract model |

## Left out

- Integer widths: `int length_`, `size_t` counts, `int alive` and `int id` are unbounded integers. No overflow or wrap-around is modelled; reaching the bounds would take billions of nodes or handles.
- `Tracker`'s implicit copy constructor and copy assignment are not modelled. A copy does not increment `alive`, yet its destructor decrements it. The model creates trackers only through `Tracker()` and stores no tracker by value.
- Templates: the pointer classes are specialised to the `Tracker` payload, the only type whose destruction the program observes. The lists are generic, but their elements are plain values whose copying and destruction are not tracked.
- The `UnqPtr<Node>` links of `LinkedListSmart` are modelled as direct node references. The invariant `Valid` (no node repeats) captures what exclusive ownership guarantees. The destructor's `head_->next.reset()` followed by `head_.reset()` is `DeleteNode` on a node whose link is already empty.
- `std::out_of_range` thrown by `InsertAt` becomes the result `OutOfRange`, with the list unchanged.
- Allocation failure of `new`, and thread safety of the non-atomic count, are not modelled.
- Dereferencing an empty `UnqPtr` or `ShrdPtr` is undefined behaviour in C++. It is a precondition of `Deref` here.
- Handing one raw pointer to two owners, and `ShrdPtr::reset(get())`, are ruled out by the precondition that an adopted tracker has no owner yet. In the C++ code, `reset(get())` on the last handle deletes the object and then adopts the dangling pointer.
- `LinkedListSmart::Print` (`LinkedList.hpp:81-93`) writes to `std::cout` and is not modelled.
- `tests_perfomance.cpp` (wall-clock timing and CSV output) is not part of this model, and neither are `main.cpp` (console demo) or `report/plot_results.py`.
- Scenarios.RunBoth: does not run the two destructors at the end. Each destructor's contract already states that all of its nodes are freed.
