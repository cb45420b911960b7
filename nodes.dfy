/**
  The node type and the splicing facts shared by the two linked lists.
 */
module Nodes {
  import opened ListSpec

  /**
    `Node` of either list: the value and the link to the next node, starting
    empty (`next(nullptr)`).  In `LinkedListSmart` the link is an owning
    `UnqPtr<Node>`, in `LinkedListRaw` a raw `Node*`; both are a reference here.
   */
  class Node<T> {
    const data: T
    var next: Node?<T>

    constructor (v: T)
      ensures data == v && next == null
    {
      data := v;
      next := null;
    }
  }

  /**
    Linking `n` between positions `index - 1` and `index` of a chain, with all
    other links as before, gives the chain with `n` inserted at `index`.
   */
  lemma SpliceLinks<T>(s: seq<Node<T>>, n: Node<T>, index: int)
    requires 1 <= index <= |s|
    requires forall j :: 0 <= j < |s| - 1 && j != index - 1 ==> s[j].next == s[j + 1]
    requires index < |s| ==> s[|s| - 1].next == null
    requires s[index - 1].next == n
    requires n.next == (if index < |s| then s[index] else null)
    ensures forall j :: 0 <= j < |s| ==> Insert(s, n, index)[j].next == Insert(s, n, index)[j + 1]
    ensures Insert(s, n, index)[|s|].next == null
  {
    var r := Insert(s, n, index);
    forall j | 0 <= j < |s|
      ensures r[j].next == r[j + 1]
    {
      if j < index - 1 {
        assert r[j] == s[j] && r[j + 1] == s[j + 1];
      } else if j > index {
        assert r[j] == s[j - 1] && r[j + 1] == s[j];
      }
    }
  }

  /** Inserting a node holding `v` into a chain inserts `v` into the values it carries. */
  lemma SpliceData<T>(s: seq<Node<T>>, c: seq<T>, n: Node<T>, v: T, index: int)
    requires 0 <= index <= |s| == |c| && n.data == v
    requires forall i :: 0 <= i < |s| ==> s[i].data == c[i]
    ensures forall i :: 0 <= i <= |s| ==> Insert(s, n, index)[i].data == Insert(c, v, index)[i]
  {
    var r, d := Insert(s, n, index), Insert(c, v, index);
    forall i | 0 <= i <= |s|
      ensures r[i].data == d[i]
    {
      if i < index {
        assert r[i] == s[i] && d[i] == c[i];
      } else if i > index {
        assert r[i] == s[i - 1] && d[i] == c[i - 1];
      }
    }
  }
}
