/** Directory nodes and the doubly linked list of a directory's children. */
module DirNodes {
  import opened DirEntries
  import opened DirLayout

  class Node {
    var parent: Node?
    var child: Node?
    var next: Node?
    var prev: Node?

    /** Byte offset of the node's entry set in its parent. */
    var offset: nat
    var info: Info
    var dirty: bool
    var unlinked: bool

    /** The entries a directory holds. */
    var slots: seq<Entry>

    /** The children in list order. */
    ghost var kids: seq<Node>
    /** What the node's entry set on disk describes. */
    ghost var disk: Info

    constructor (offset: nat, info: Info)
      ensures parent == null && child == null && next == null && prev == null
      ensures this.offset == offset && this.info == info && disk == info
      ensures !dirty && !unlinked && slots == [] && kids == []
    {
      parent, child, next, prev := null, null, null, null;
      this.offset, this.info, disk := offset, info, info;
      dirty, unlinked, slots, kids := false, false, [], [];
    }
  }

  function At(kids: seq<Node>, i: int): Node? {
    if 0 <= i < |kids| then kids[i] else null
  }

  ghost predicate Distinct(kids: seq<Node>) {
    forall i, j | 0 <= i < j < |kids| :: kids[i] != kids[j]
  }

  /** The links of child `i` lead to its neighbours and its parent. */
  ghost predicate LinkedAt(dir: Node, kids: seq<Node>, i: int)
    requires 0 <= i < |kids|
    reads kids`next, kids`prev, kids`parent
  {
    kids[i].next == At(kids, i + 1) && kids[i].prev == At(kids, i - 1) && kids[i].parent == dir
  }

  /** The children form a doubly linked list that starts at `dir.child`. */
  ghost predicate Linked(dir: Node)
    reads dir`child, dir`kids, dir.kids`next, dir.kids`prev, dir.kids`parent
  {
    && Distinct(dir.kids) && dir !in dir.kids
    && dir.child == At(dir.kids, 0)
    && forall i | 0 <= i < |dir.kids| :: LinkedAt(dir, dir.kids, i)
  }

  method TreeAttach(dir: Node, node: Node)
    requires Linked(dir) && node !in dir.kids && node != dir && node.next == null && node.prev == null
    modifies dir`child, dir`kids, dir.kids`prev, node`parent, node`next
    ensures dir.kids == [node] + old(dir.kids)
    ensures Linked(dir)
  {
    ghost var was := dir.kids;
    node.parent := dir;
    if dir.child != null {
      dir.child.prev := node;
      node.next := dir.child;
    }
    dir.child := node;
    dir.kids := [node] + dir.kids;
    forall i | 0 <= i < |dir.kids|
      ensures LinkedAt(dir, dir.kids, i)
    {
      if i > 0 {
        assert old(LinkedAt(dir, was, i - 1));
      }
    }
  }

  method TreeDetach(dir: Node, node: Node, ghost i: nat)
    requires Linked(dir) && i < |dir.kids| && dir.kids[i] == node
    modifies dir`child, dir`kids, dir.kids`prev, dir.kids`next, node`parent
    ensures dir.kids == Without(old(dir.kids), i)
    ensures Linked(dir)
    ensures node.parent == null && node.prev == null && node.next == null
  {
    ghost var was := dir.kids;
    assert LinkedAt(dir, was, i);
    if node.prev != null {
      node.prev.next := node.next;
    } else {
      node.parent.child := node.next;
    }
    if node.next != null {
      node.next.prev := node.prev;
    }
    node.parent, node.prev, node.next := null, null, null;
    dir.kids := Without(was, i);
    forall k | 0 <= k < |dir.kids|
      ensures LinkedAt(dir, dir.kids, k)
    {
      assert old(LinkedAt(dir, was, if k < i then k else k + 1));
    }
  }
}
