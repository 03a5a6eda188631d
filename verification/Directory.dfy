/** Operations on a cached directory: creating, renaming and deleting children, flushing them,
    and shrinking the directory after a deletion. */
module Directories {
  import opened Arithmetic
  import opened Basics
  import opened DirEntries
  import opened DirLayout
  import opened DirNodes
  import opened DirSlots
  import Chains
  import Volumes

  // ----- Shrinking after a deletion -----

  /** Where the set of a child ends by the length of its name. */
  function NamedEnd(item: Item): nat {
    item.slot + 2 + NameEntries(|item.info.name|)
  }

  /** The child whose set lies last. */
  ghost function LastItem(items: seq<Item>): (last: Item)
    requires items != []
    ensures last in items && forall i | 0 <= i < |items| :: items[i].slot <= last.slot
  {
    if |items| == 1 then items[0]
    else
      var last := LastItem(items[1..]);
      if last.slot < items[0].slot then items[0] else last
  }

  /** The number of entries up to the end of the last child's name. */
  ghost function LastNamed(items: seq<Item>): nat {
    if items == [] then 0 else NamedEnd(LastItem(items))
  }

  /** No child has tail entries. */
  ghost predicate AllNormal(items: seq<Item>) {
    forall i | 0 <= i < |items| :: items[i].Normal()
  }

  ghost predicate AllInside(items: seq<Item>, total: nat) {
    forall i | 0 <= i < |items| :: items[i].End() <= total
  }

  /** The size the directory is cut to: at least one cluster. */
  function Needed(h: Heap, entries: nat): nat
    requires h.clusterSize > 0
  {
    var r := RoundUp(32 * entries, h.clusterSize);
    if r == 0 then h.clusterSize else r
  }

  /** Only one child has the highest slot, and its set ends last. */
  lemma LastOnly(h: Heap, slots: seq<Entry>, items: seq<Item>, k: nat)
    requires Layout(h, slots, items) && k < |items| && forall i | 0 <= i < |items| :: items[i].slot <= items[k].slot
    ensures LastItem(items) == items[k] && LastEnd(items) == items[k].End()
    ensures NamedEnd(items[k]) <= items[k].End() <= |slots|
  {
    hide Readable, Described, NameEntries;
    forall i | 0 <= i < |items|
      ensures items[i].End() <= items[k].End() && (items[i].slot == items[k].slot ==> i == k)
    {
      assert i < k ==> Apart(items[i], items[k]);
      assert k < i ==> Apart(items[k], items[i]);
    }
    LastEndIs(items, items[k].End());
    assert Placed(h, slots, items[k]);
    NameInSet(h, slots[items[k].slot..items[k].End()]);
  }

  lemma NormalEnds(h: Heap, slots: seq<Entry>, items: seq<Item>)
    requires Layout(h, slots, items)
    ensures LastNamed(items) <= LastEnd(items) <= |slots|
    ensures AllNormal(items) ==> LastNamed(items) == LastEnd(items)
  {
    hide Layout, NameEntries;
    if items == [] {
      LastEndIs(items, 0);
    } else {
      var last := LastItem(items);
      assert last in items;
      var k :| 0 <= k < |items| && items[k] == last;
      assert forall i | 0 <= i < |items| :: items[i].slot <= last.slot;
      LastOnly(h, slots, items, k);
    }
  }

  method LastNode(dir: Node, deleted: nat) returns (early: bool, last: Node?)
    requires Linked(dir) && forall i | 0 <= i < |dir.kids| :: Kept(dir.kids[i])
    ensures early <==> exists i | 0 <= i < |dir.kids| :: deleted < dir.kids[i].offset
    ensures !early ==> (last == null <==> dir.kids == [])
    ensures !early && last != null ==>
              last in dir.kids && forall i | 0 <= i < |dir.kids| :: dir.kids[i].offset <= last.offset
  {
    hide Linked, Kept, Covered, ItemsOf;
    ListStart(dir);
    var node := dir.child;
    last := node;
    ghost var i := 0;
    while node != null
      invariant i <= |dir.kids| && node == At(dir.kids, i)
      invariant last == null <==> dir.kids == []
      invariant last != null ==> last in dir.kids
      invariant forall k | 0 <= k < i :: dir.kids[k].offset <= deleted && dir.kids[k].offset <= last.offset
      decreases |dir.kids| - i
    {
      ListStep(dir, i);
      if deleted < node.offset {
        return true, last;
      }
      if last.offset < node.offset {
        last := node;
      }
      node, i := node.next, i + 1;
    }
    return false, last;
  }

  /** Truncation to fewer or more clusters keeps the directory valid exactly when it leaves
      every child its slots. */
  method TruncateValid(h: Heap, dir: Node, size: nat, free: nat) returns (rc: Status, left: nat)
    requires Valid(h, dir) && size > 0 && size % h.clusterSize == 0
    modifies dir`slots, dir`info, dir`dirty
    ensures Linked(dir) && Whole(h, dir) && Items(dir) == old(Items(dir)) && h.clusterSize > 0
    ensures Valid(h, dir) <==> AllInside(Items(dir), |dir.slots|)
    ensures rc == Volumes.ENOSPC <==> Clusters(h, size) > Clusters(h, old(dir.info.size)) + free
    ensures rc == Volumes.ENOSPC ==> left == free && dir.slots == old(dir.slots) && dir.info == old(dir.info)
    ensures rc == Volumes.OK ==> dir.slots == Resized(old(dir.slots), size / 32) && dir.info.size == size
    ensures rc == Volumes.OK ==> left + Clusters(h, size) == free + Clusters(h, old(dir.info.size))
    ensures dir.info == old(dir.info).(size := dir.info.size, validSize := dir.info.validSize)
    ensures dir.dirty || (dir.dirty == old(dir.dirty) && dir.info == old(dir.info))
  {
    hide *;
    ValidParts(h, dir);
    ghost var was, items := dir.slots, Items(dir);
    InsideIs(h, dir);
    rc, left := Truncate(h, dir, size, free);
    InsideIff(items, |dir.slots|);
    if rc == Volumes.OK && AllInside(items, |dir.slots|) {
      ResizeKeeps(h, was, items, size / 32);
      ResizeTidies(was, items, size / 32);
      ValidFrom(h, dir);
    } else if rc == Volumes.ENOSPC {
      ValidFrom(h, dir);
    } else if Valid(h, dir) {
      InsideIs(h, dir);
    }
  }

  lemma InsideIs(h: Heap, dir: Node)
    requires Valid(h, dir)
    ensures AllInside(Items(dir), |dir.slots|)
  {
    EndsInside(h, dir);
  }

  lemma InsideIff(items: seq<Item>, total: nat)
    ensures AllInside(items, total) <==> forall i | 0 <= i < |items| :: items[i].End() <= total
  {
  }

  /** Cuts the directory after its last child's name, unless a child lies after the deleted set.
      The directory stays valid exactly when every set still lies inside, and always when no
      child has tail entries. */
  method ShrinkDirectory(h: Heap, dir: Node, deleted: nat, free: nat) returns (rc: Status, left: nat)
    requires Valid(h, dir)
    modifies dir`slots, dir`info, dir`dirty
    ensures Linked(dir) && Whole(h, dir) && rc == Volumes.OK && Items(dir) == old(Items(dir))
    ensures Valid(h, dir) <==> AllInside(Items(dir), |dir.slots|)
    ensures AllNormal(Items(dir)) ==> Valid(h, dir)
    ensures dir.slots <= old(dir.slots)
    ensures h.clusterSize > 0
    ensures var early := exists i | 0 <= i < |dir.kids| :: deleted < dir.kids[i].offset;
            dir.info.size == if early then old(dir.info.size) else Needed(h, LastNamed(Items(dir)))
    ensures left + Clusters(h, dir.info.size) == free + Clusters(h, old(dir.info.size))
    ensures dir.info == old(dir.info).(size := dir.info.size, validSize := dir.info.validSize)
    ensures dir.dirty || (dir.dirty == old(dir.dirty) && dir.info == old(dir.info))
  {
    hide *;
    ValidParts(h, dir);
    InsideIs(h, dir);
    var early, size := ShrunkSize(h, dir, deleted);
    if early || size == dir.info.size {
      return Volumes.OK, free;
    }
    rc, left := TruncateValid(h, dir, size, free);
    ResizedShrinks(old(dir.slots), size / 32);
    InsideFits(Items(dir), |dir.slots|);
  }

  /** The size to cut to, unless a child lies after the deleted set. */
  method ShrunkSize(h: Heap, dir: Node, deleted: nat) returns (early: bool, size: nat)
    requires Valid(h, dir)
    ensures h.clusterSize > 0
    ensures early <==> exists i | 0 <= i < |dir.kids| :: deleted < dir.kids[i].offset
    ensures !early ==>
              && size == Needed(h, LastNamed(Items(dir)))
              && 0 < size <= dir.info.size && size % h.clusterSize == 0 && size == 32 * (size / 32)
              && Clusters(h, size) <= Clusters(h, dir.info.size)
              && (AllNormal(Items(dir)) ==> LastEnd(Items(dir)) <= size / 32)
  {
    hide *;
    ValidParts(h, dir);
    var last;
    early, last := LastNode(dir, deleted);
    if early {
      return true, 0;
    }
    var entries := 0;
    if last != null {
      entries := last.offset / 32 + 2 + NameEntries(|last.info.name|);
    }
    LastEntries(h, dir, last, entries);
    size := RoundUp(32 * entries, h.clusterSize);
    if size == 0 {
      size := h.clusterSize;
    }
    NeededIs(h, entries, size);
    NormalEnds(h, dir.slots, Items(dir));
    NeededFits(h, entries, dir.info.size);
  }

  lemma InsideFits(items: seq<Item>, total: nat)
    ensures LastEnd(items) <= total ==> AllInside(items, total)
  {
  }

  lemma NeededIs(h: Heap, entries: nat, size: nat)
    requires h.clusterSize > 0
    requires var r := RoundUp(32 * entries, h.clusterSize); size == if r == 0 then h.clusterSize else r
    ensures size == Needed(h, entries)
  {
  }

  lemma ResizedShrinks(slots: seq<Entry>, n: nat)
    requires n <= |slots|
    ensures Resized(slots, n) <= slots
  {
  }

  lemma LastEntries(h: Heap, dir: Node, last: Node?, entries: nat)
    requires Valid(h, dir) && (last == null <==> dir.kids == [])
    requires last != null ==> last in dir.kids && forall i | 0 <= i < |dir.kids| :: dir.kids[i].offset <= last.offset
    requires entries == if last == null then 0 else last.offset / 32 + 2 + NameEntries(|last.info.name|)
    ensures entries == LastNamed(Items(dir))
  {
    hide Linked, Layout, NameEntries;
    var items := Items(dir);
    if last != null {
      var k :| 0 <= k < |dir.kids| && dir.kids[k] == last;
      assert Kept(dir.kids[k]);
      LastOnly(h, dir.slots, items, k);
    }
  }

  lemma NeededFits(h: Heap, entries: nat, limit: nat)
    requires h.clusterSize > 0 && h.clusterSize % 32 == 0
    requires 32 * entries <= limit && limit > 0 && limit % h.clusterSize == 0
    ensures var size := Needed(h, entries);
            && 0 < size <= limit && size % h.clusterSize == 0 && Clusters(h, size) <= Clusters(h, limit)
            && entries <= size / 32 && size == 32 * (size / 32)
  {
    hide RoundUp, Clusters, CeilDiv;
    var size := Needed(h, entries);
    RoundUpIs(32 * entries, h);
    HoldsIff(h, 32 * entries, limit);
    HoldsIff(h, 1, limit);
    OneHeld(h);
    HoldsIff(h, size, limit);
    MulMonotone(Clusters(h, size), Clusters(h, limit), h.clusterSize);
    HoldsIff(h, 0, size);
    Slots(h, size);
  }

  lemma OneHeld(h: Heap)
    requires h.clusterSize > 0
    ensures CeilDiv(1, h.clusterSize) == 1 && Clusters(h, h.clusterSize) == 1 && h.clusterSize % h.clusterSize == 0
    ensures CeilDiv(h.clusterSize, h.clusterSize) == 1
  {
    CeilDivWhole(1, h.clusterSize);
    CeilDivBounds(1, h.clusterSize, 1);
    CeilDivBounds(1, h.clusterSize, 0);
  }

  // ----- Deleting -----

  method EraseEntries(slots: seq<Entry>, a: nat, n: nat) returns (r: seq<Entry>)
    requires a + n <= |slots|
    ensures r == EraseAt(slots, a, n)
  {
    hide Erased;
    r := slots;
    for i := 0 to n
      invariant r == EraseAt(slots, a, i)
    {
      r := r[a + i := Erased(r[a + i])];
    }
  }

  lemma ItemsWithout(kids: seq<Node>, i: nat)
    requires i < |kids|
    ensures ItemsOf(Without(kids, i)) == Without(ItemsOf(kids), i)
  {
    hide ItemsOf, ItemOf;
    var a, b := ItemsOf(Without(kids, i)), Without(ItemsOf(kids), i);
    forall k | 0 <= k < |kids| - 1
      ensures a[k] == b[k]
    {
      assert Without(kids, i)[k] == kids[if k < i then k else k + 1];
    }
  }

  lemma WholeFrom(h: Heap, dir: Node)
    requires h.clusterSize > 0 && h.clusterSize % 32 == 0
    requires dir.info.size == 32 * |dir.slots| && dir.info.size > 0 && dir.info.size % h.clusterSize == 0
    ensures Whole(h, dir)
  {
  }

  lemma KeptWithout(kids: seq<Node>, i: nat)
    requires i < |kids| && forall k | 0 <= k < |kids| :: Kept(kids[k])
    ensures forall k | 0 <= k < |kids| - 1 :: Kept(Without(kids, i)[k])
  {
  }

  /** Takes child `i` off the disk and out of the list. */
  method RemoveChild(h: Heap, dir: Node, node: Node, ghost i: nat)
    requires Valid(h, dir) && i < |dir.kids| && dir.kids[i] == node
    modifies dir`slots, dir`child, dir`kids, dir.kids`prev, dir.kids`next, node`parent
    ensures Valid(h, dir) && dir.kids == Without(old(dir.kids), i) && Items(dir) == Without(old(Items(dir)), i)
    ensures dir.slots == EraseAt(old(dir.slots), old(Items(dir))[i].slot, old(Items(dir))[i].Length())
    ensures node.parent == null && node.prev == null && node.next == null
  {
    hide *;
    ValidParts(h, dir);
    ghost var items, was, kids := Items(dir), dir.slots, dir.kids;
    ListStep(dir, i);
    EraseKeeps(h, was, items, i);
    EraseTidies(was, items, i);
    ItemsIs(dir);
    dir.slots := EraseEntries(dir.slots, node.offset / 32, 1 + node.info.continuations);
    TreeDetach(dir, node, i);
    ItemsWithout(kids, i);
    ItemsIs(dir);
    WholeFrom(h, dir);
    KeptWithout(kids, i);
    ValidFrom(h, dir);
  }

  /** The size of the directory once child `i` is gone: as before if a child lies after it. */
  ghost function CutSize(h: Heap, items: seq<Item>, i: nat, size: nat): nat
    requires h.clusterSize > 0 && i < |items|
  {
    if exists k | 0 <= k < |items| :: items[i].slot < items[k].slot then size
    else Needed(h, LastNamed(Without(items, i)))
  }

  lemma CutSizeIs(h: Heap, dir: Node, i: nat, size: nat, early: bool)
    requires Valid(h, dir) && i < |dir.kids|
    requires early <==> exists k | 0 <= k < |dir.kids| - 1 :: dir.kids[i].offset < Without(dir.kids, i)[k].offset
    ensures |Items(dir)| == |dir.kids|
    ensures CutSize(h, Items(dir), i, size) ==
            if early then size else Needed(h, LastNamed(Without(Items(dir), i)))
  {
    hide Linked, Layout, Tidy, LastNamed, Needed;
    var items, rest := Items(dir), Without(dir.kids, i);
    assert forall k | 0 <= k < |dir.kids| :: Kept(dir.kids[k]) && items[k].slot == dir.kids[k].offset / 32;
    if k :| 0 <= k < |items| && items[i].slot < items[k].slot {
      assert rest[if k < i then k else k - 1] == dir.kids[k];
    }
    if early {
      var k :| 0 <= k < |rest| && dir.kids[i].offset < rest[k].offset;
      assert rest[k] == dir.kids[if k < i then k else k + 1];
    }
  }

  /** Deletes a child: its set is erased, it leaves the list, and the directory shrinks. */
  method Delete(h: Heap, dir: Node, node: Node, free: nat, ghost i: nat) returns (rc: Status, left: nat)
    requires Valid(h, dir) && i < |dir.kids| && dir.kids[i] == node
    modifies dir`slots, dir`info, dir`dirty, dir`child, dir`kids, dir.kids`prev, dir.kids`next
    modifies node`parent, node`unlinked
    ensures Linked(dir) && Whole(h, dir) && rc == Volumes.OK
    ensures Valid(h, dir) <==> AllInside(Items(dir), |dir.slots|)
    ensures AllNormal(Items(dir)) ==> Valid(h, dir)
    ensures dir.kids == Without(old(dir.kids), i) && Items(dir) == Without(old(Items(dir)), i)
    ensures dir.slots <= EraseAt(old(dir.slots), old(Items(dir))[i].slot, old(Items(dir))[i].Length())
    ensures node.unlinked && node.parent == null && node.prev == null && node.next == null
    ensures h.clusterSize > 0
    ensures dir.info.size == CutSize(h, old(Items(dir)), i, old(dir.info.size))
    ensures left + Clusters(h, dir.info.size) == free + Clusters(h, old(dir.info.size))
    ensures dir.info == old(dir.info).(size := dir.info.size, validSize := dir.info.validSize)
    ensures dir.dirty || (dir.dirty == old(dir.dirty) && dir.info == old(dir.info))
  {
    hide *;
    var deleted := node.offset;
    ValidParts(h, dir);
    LinkedDistinct(dir, i);
    CutSizeIs(h, dir, i, dir.info.size,
              exists k | 0 <= k < |dir.kids| - 1 :: node.offset < Without(dir.kids, i)[k].offset);
    RemoveChild(h, dir, node, i);
    rc, left := ShrinkDirectory(h, dir, deleted, free);
    node.unlinked := true;
  }

  // ----- Creating -----

  /** Writes a set over an open slot and puts its node first in the list. */
  method AddChild(h: Heap, dir: Node, node: Node, es: seq<Entry>)
    requires Valid(h, dir) && node !in dir.kids && node != dir && node.next == null && node.prev == null
    requires Kept(node) && Open(Items(dir), ItemOf(node).slot, ItemOf(node).Length())
             && ItemOf(node).End() <= |dir.slots|
    requires Sized(es) && |es| == ItemOf(node).Length() && Readable(h, es) && Described(es) == node.disk
    modifies dir`slots, dir`child, dir`kids, dir.kids`prev, node`parent, node`next
    ensures Valid(h, dir) && dir.kids == [node] + old(dir.kids) && Items(dir) == [ItemOf(node)] + old(Items(dir))
    ensures dir.slots == Patched(old(dir.slots), ItemOf(node).slot, es)
  {
    hide *;
    ValidParts(h, dir);
    ghost var was, items, kids, item := dir.slots, Items(dir), dir.kids, ItemOf(node);
    ItemsIs(dir);
    ItemIs(node);
    OpenIs(items, item);
    WriteKeeps(h, was, items, item, es);
    WriteTidies(was, items, item, es);
    dir.slots := Patched(dir.slots, node.offset / 32, es);
    TreeAttach(dir, node);
    ItemsWith(kids, node);
    ItemsIs(dir);
    WholeFrom(h, dir);
    ValidFrom(h, dir);
  }

  lemma OpenIs(items: seq<Item>, item: Item)
    requires Open(items, item.slot, item.Length())
    ensures forall p | item.Covers(p) :: !Covered(items, p)
  {
  }

  lemma ItemIs(n: Node)
    ensures ItemOf(n).slot == n.offset / 32 && ItemOf(n).info == n.disk
    ensures ItemOf(n).Length() == 1 + n.disk.continuations && ItemOf(n).End() == ItemOf(n).slot + ItemOf(n).Length()
  {
  }

  lemma ItemsWith(kids: seq<Node>, node: Node)
    ensures ItemsOf([node] + kids) == [ItemOf(node)] + ItemsOf(kids)
  {
    assert ([node] + kids)[1..] == kids;
  }

  /** Creates an empty file or directory node under `name`, with its entries `es` in the first
      open slots. */
  method Create(h: Heap, dir: Node, name: seq<nat>, attrib: nat, hash: nat, t: Times, free: nat)
      returns (rc: Status, left: nat, node: Node?, es: seq<Entry>)
    requires Valid(h, dir) && Nameable(name) && attrib < 0x1_0000
    modifies dir`slots, dir`info, dir`dirty, dir`child, dir`kids, dir.kids`prev
    ensures Valid(h, dir) && h.clusterSize > 0
    ensures rc == Volumes.ENOSPC <==>
              ClustersFor(h, old(Items(dir)), old(dir.info.size), 2 + NameEntries(|name|))
              > Clusters(h, old(dir.info.size)) + free
    ensures rc == Volumes.OK ==>
              && node != null && fresh(node) && dir.kids == [node] + old(dir.kids) && !node.dirty
              && node.info == Info(attrib, 1 + NameEntries(|name|), 0, 0, Chains.CLUSTER_FREE, false, name)
              && node.offset == 32 * FirstOpen(old(Items(dir)), 2 + NameEntries(|name|))
              && node.kids == [] && node.child == null
              && Items(dir) == [ItemOf(node)] + old(Items(dir))
              && Stores(Resized(old(dir.slots), |dir.slots|), dir.slots, node.offset / 32, es)
              && Clusters(h, dir.info.size)
                 == ClustersFor(h, old(Items(dir)), old(dir.info.size), 2 + NameEntries(|name|))
              && left + Clusters(h, dir.info.size) == free + Clusters(h, old(dir.info.size))
    ensures rc == Volumes.ENOSPC ==>
              dir.kids == old(dir.kids) && dir.slots == old(dir.slots) && dir.info == old(dir.info) && left == free
    ensures dir.info == old(dir.info).(size := dir.info.size, validSize := dir.info.validSize)
  {
    hide *;
    var n := 2 + NameEntries(|name|);
    var offset;
    rc, offset, left := FindSlotValid(h, dir, n, free);
    if rc != Volumes.OK {
      return rc, left, null, [];
    }
    HasName(name);
    es := CommitEntries(h, name, attrib, hash, t);
    var info := Info(attrib, 1 + NameEntries(|name|), 0, 0, Chains.CLUSTER_FREE, false, name);
    node := new Node(offset, info);
    StoredKeeps(info);
    NamedKept(node, name);
    FirstIsOpen(Items(dir), n);
    ghost var grown := dir.slots;
    AddChild(h, dir, node, es);
    StoresIs(grown, node.offset / 32, es);
  }

  /** `es` has been written over the slots from `at` on. */
  ghost predicate Stores(before: seq<Entry>, after: seq<Entry>, at: nat, es: seq<Entry>) {
    Sized(es) && es != [] && at + |es| <= |before| && after == Patched(before, at, es)
  }

  lemma StoresIs(before: seq<Entry>, at: nat, es: seq<Entry>)
    requires Sized(es) && es != [] && at + |es| <= |before|
    ensures Stores(before, Patched(before, at, es), at, es)
  {
  }

  lemma FirstIsOpen(items: seq<Item>, n: nat)
    ensures Open(items, FirstOpen(items, n), n)
  {
  }

  lemma HasName(name: seq<nat>)
    requires Nameable(name)
    ensures name != [] && NameFits(name)
  {
  }

  // ----- Renaming -----

  /** `n` slots from `o` on read back as `d`. */
  ghost predicate Holds(h: Heap, slots: seq<Entry>, o: nat, n: nat, d: Info) {
    && n >= 2 && o + n <= |slots| && h.clusterSize > 0
    && Sized(slots[o..o + n]) && Readable(h, slots[o..o + n]) && Described(slots[o..o + n]) == d
  }

  /** A child's set, as it lies in the parent. */
  lemma ChildSet(h: Heap, dir: Node, i: nat)
    requires Valid(h, dir) && i < |dir.kids|
    ensures Kept(dir.kids[i])
    ensures Holds(h, dir.slots, dir.kids[i].offset / 32, 1 + dir.kids[i].info.continuations, dir.kids[i].disk)
  {
    hide Layout, Linked, Tidy, Holds;
    assert Kept(dir.kids[i]);
    SetHolds(h, dir.slots, Items(dir), i);
  }

  /** The set a child is given under its new name. */
  method RenamedSet(h: Heap, slots: seq<Entry>, o: nat, name: seq<nat>, hash: nat, ghost n: nat, ghost d: Info)
      returns (es: seq<Entry>)
    requires Holds(h, slots, o, n, d) && Nameable(name)
    ensures o + 1 < |slots| && h.clusterSize > 0 && Sized(es) && |es| == 2 + NameEntries(|name|) && Readable(h, es)
    ensures Described(es) == d.(continuations := 1 + NameEntries(|name|), name := name)
  {
    hide Readable, Described, NameEntries;
    HasName(name);
    es := RenameEntries(h, slots[o], slots[o + 1], name, hash, slots[o..o + n]);
  }

  /** Gives an unlinked node its new place and name. */
  method Renew(node: Node, name: seq<nat>, offset: nat)
    requires Kept(node) && Nameable(name) && offset % 32 == 0
    modifies node`offset, node`info, node`disk
    ensures Kept(node) && node.offset == offset
    ensures node.info == old(node.info).(continuations := 1 + NameEntries(|name|), name := name)
    ensures node.disk == old(node.disk).(continuations := 1 + NameEntries(|name|), name := name)
    ensures ItemOf(node).slot == offset / 32 && ItemOf(node).Length() == 2 + NameEntries(|name|)
    ensures ItemOf(node).End() == offset / 32 + 2 + NameEntries(|name|)
  {
    node.offset := offset;
    node.info := node.info.(continuations := 1 + NameEntries(|name|), name := name);
    node.disk := node.disk.(continuations := 1 + NameEntries(|name|), name := name);
  }

  /** No node is a child in both lists. */
  ghost predicate Separate(a: seq<Node>, b: seq<Node>) {
    forall i, j | 0 <= i < |a| && 0 <= j < |b| :: a[i] != b[j]
  }

  method RenameWithin(h: Heap, dir: Node, node: Node, name: seq<nat>, hash: nat, offset: nat, ghost i: nat)
      returns (es: seq<Entry>)
    requires Valid(h, dir) && i < |dir.kids| && dir.kids[i] == node
    requires Nameable(name) && offset % 32 == 0 && offset / 32 + 2 + NameEntries(|name|) <= |dir.slots|
    requires Open(Items(dir), offset / 32, 2 + NameEntries(|name|))
    modifies dir`slots, dir`child, dir`kids, dir.kids`prev, dir.kids`next
    modifies node`parent, node`offset, node`info, node`disk
    ensures Valid(h, dir) && dir.kids == [node] + Without(old(dir.kids), i)
    ensures node.offset == offset
    ensures node.info == old(node.info).(continuations := 1 + NameEntries(|name|), name := name)
    ensures MovesSet(old(dir.slots), dir.slots, old(Items(dir)[i]), offset / 32, es)
  {
    hide *;
    ValidParts(h, dir);
    ChildSet(h, dir, i);
    ChildFits(h, dir, i);
    ghost var kids, was, item := dir.kids, dir.slots, Items(dir)[i];
    es := RenamedSet(h, dir.slots, node.offset / 32, name, hash, 1 + node.info.continuations, node.disk);
    OpenWithout(Items(dir), i, offset / 32, 2 + NameEntries(|name|));
    LinkedDistinct(dir, i);
    RemoveChild(h, dir, node, i);
    Renew(node, name, offset);
    assert forall a | 0 <= a < |dir.kids| :: dir.kids[a] == kids[if a < i then a else a + 1];
    ghost var erased := dir.slots;
    AddChild(h, dir, node, es);
    StoresIs(erased, offset / 32, es);
    MovesIs(was, erased, dir.slots, item, offset / 32, es);
  }

  method RenameAcross(h: Heap, parent: Node, dir: Node, node: Node, name: seq<nat>, hash: nat, offset: nat,
                      ghost i: nat) returns (es: seq<Entry>)
    requires Valid(h, parent) && Valid(h, dir) && i < |parent.kids| && parent.kids[i] == node
    requires parent != dir && node != dir && Separate(parent.kids, dir.kids)
    requires Nameable(name) && offset % 32 == 0 && offset / 32 + 2 + NameEntries(|name|) <= |dir.slots|
    requires Open(Items(dir), offset / 32, 2 + NameEntries(|name|))
    modifies parent`slots, parent`child, parent`kids, parent.kids`prev, parent.kids`next
    modifies dir`slots, dir`child, dir`kids, dir.kids`prev
    modifies node`parent, node`offset, node`info, node`disk
    ensures Valid(h, parent) && parent.kids == Without(old(parent.kids), i)
    ensures Valid(h, dir) && dir.kids == [node] + old(dir.kids)
    ensures node.offset == offset
    ensures node.info == old(node.info).(continuations := 1 + NameEntries(|name|), name := name)
    ensures Erases(old(parent.slots), parent.slots, old(Items(parent)[i]))
    ensures Stores(old(dir.slots), dir.slots, offset / 32, es)
  {
    hide *;
    ValidParts(h, parent);
    ChildSet(h, parent, i);
    ChildFits(h, parent, i);
    ghost var was, item := parent.slots, Items(parent)[i];
    es := RenamedSet(h, parent.slots, node.offset / 32, name, hash, 1 + node.info.continuations, node.disk);
    SeparateWithout(parent, dir, i);
    RemoveChild(h, parent, node, i);
    Renew(node, name, offset);
    ghost var before := dir.slots;
    AddChild(h, dir, node, es);
    StoresIs(before, offset / 32, es);
    ErasesIs(was, parent.slots, item);
  }

  /** Moves a child's set to `offset` of `dir`, under a new name. */
  method RenameEntry(h: Heap, parent: Node, dir: Node, node: Node, name: seq<nat>, hash: nat, offset: nat,
                     ghost i: nat) returns (es: seq<Entry>)
    requires Valid(h, parent) && Valid(h, dir) && i < |parent.kids| && parent.kids[i] == node && node != dir
    requires parent == dir || Separate(parent.kids, dir.kids)
    requires Nameable(name) && offset % 32 == 0 && offset / 32 + 2 + NameEntries(|name|) <= |dir.slots|
    requires Open(Items(dir), offset / 32, 2 + NameEntries(|name|))
    modifies parent`slots, parent`child, parent`kids, parent.kids`prev, parent.kids`next
    modifies dir`slots, dir`child, dir`kids, dir.kids`prev
    modifies node`parent, node`offset, node`info, node`disk
    ensures Valid(h, parent) && Valid(h, dir)
    ensures parent == dir ==> dir.kids == [node] + Without(old(dir.kids), i)
    ensures parent != dir ==> parent.kids == Without(old(parent.kids), i) && dir.kids == [node] + old(dir.kids)
    ensures node.offset == offset
    ensures node.info == old(node.info).(continuations := 1 + NameEntries(|name|), name := name)
    ensures parent == dir ==> MovesSet(old(dir.slots), dir.slots, old(Items(dir)[i]), offset / 32, es)
    ensures parent != dir ==>
              && Erases(old(parent.slots), parent.slots, old(Items(parent)[i]))
              && Stores(old(dir.slots), dir.slots, offset / 32, es)
  {
    hide *;
    if parent == dir {
      es := RenameWithin(h, dir, node, name, hash, offset, i);
    } else {
      es := RenameAcross(h, parent, dir, node, name, hash, offset, i);
    }
  }

  /** The slots of `item` have been erased. */
  ghost predicate Erases(before: seq<Entry>, after: seq<Entry>, item: Item) {
    item.slot + item.Length() <= |before| && after == EraseAt(before, item.slot, item.Length())
  }

  /** The slots of `item` have been erased, and then `es` written over those from `at` on. */
  ghost predicate MovesSet(before: seq<Entry>, after: seq<Entry>, item: Item, at: nat, es: seq<Entry>) {
    && item.slot + item.Length() <= |before|
    && Stores(EraseAt(before, item.slot, item.Length()), after, at, es)
  }

  lemma ErasesIs(before: seq<Entry>, after: seq<Entry>, item: Item)
    requires item.slot + item.Length() <= |before| && after == EraseAt(before, item.slot, item.Length())
    ensures Erases(before, after, item)
  {
  }

  lemma MovesIs(before: seq<Entry>, erased: seq<Entry>, after: seq<Entry>, item: Item, at: nat, es: seq<Entry>)
    requires item.slot + item.Length() <= |before| && erased == EraseAt(before, item.slot, item.Length())
    requires Stores(erased, after, at, es)
    ensures MovesSet(before, after, item, at, es)
  {
  }

  lemma ChildFits(h: Heap, dir: Node, i: nat)
    requires Valid(h, dir) && i < |dir.kids|
    ensures |Items(dir)| == |dir.kids| && Items(dir)[i].slot + Items(dir)[i].Length() <= |dir.slots|
  {
    hide Linked, Tidy, Readable, Described;
    assert Placed(h, dir.slots, Items(dir)[i]);
  }

  lemma SeparateWithout(parent: Node, dir: Node, i: nat)
    requires Linked(parent) && i < |parent.kids| && Separate(parent.kids, dir.kids)
    ensures forall a, b | 0 <= a < |parent.kids| && 0 <= b < |dir.kids| :: parent.kids[a] != dir.kids[b]
    ensures forall a | 0 <= a < |parent.kids| - 1 :: Without(parent.kids, i)[a] != parent.kids[i]
    ensures forall a, b | 0 <= a < |parent.kids| - 1 && 0 <= b < |dir.kids| :: Without(parent.kids, i)[a] != dir.kids[b]
    ensures parent.kids[i] !in dir.kids
  {
  }

  lemma LinkedDistinct(dir: Node, i: nat)
    requires Linked(dir) && i < |dir.kids|
    ensures dir.kids[i] !in Without(dir.kids, i) && dir.kids[i] != dir
    ensures forall a | 0 <= a < |dir.kids| - 1 :: Without(dir.kids, i)[a] == dir.kids[if a < i then a else a + 1]
  {
  }

  lemma OpenWithout(items: seq<Item>, i: nat, s: nat, n: nat)
    requires i < |items| && Open(items, s, n)
    ensures Open(Without(items, i), s, n)
  {
    hide Covered;
    forall p | s <= p < s + n
      ensures !Covered(Without(items, i), p)
    {
      CoveredWithout(items, i, p);
    }
  }

  lemma NamedKept(node: Node, name: seq<nat>)
    requires Nameable(name) && node.offset % 32 == 0 && node.disk.name == node.info.name == name
    requires node.info.continuations == node.disk.continuations == 1 + NameEntries(|name|)
    requires !node.dirty ==> node.disk == Stored(node.info)
    ensures Kept(node) && ItemOf(node).slot == node.offset / 32 && ItemOf(node).Length() == 2 + NameEntries(|name|)
    ensures ItemOf(node).End() == node.offset / 32 + 2 + NameEntries(|name|)
  {
  }

  /** Finds room for the new set, then moves the child there. */
  method Rename(h: Heap, parent: Node, dir: Node, node: Node, name: seq<nat>, hash: nat, free: nat, ghost i: nat)
      returns (rc: Status, left: nat, es: seq<Entry>)
    requires Valid(h, parent) && Valid(h, dir) && i < |parent.kids| && parent.kids[i] == node && node != dir
    requires parent == dir || Separate(parent.kids, dir.kids)
    requires Nameable(name)
    modifies parent`slots, parent`child, parent`kids, parent.kids`prev, parent.kids`next
    modifies dir`slots, dir`info, dir`dirty, dir`child, dir`kids, dir.kids`prev
    modifies node`parent, node`offset, node`info, node`disk
    ensures Valid(h, parent) && Valid(h, dir) && h.clusterSize > 0
    ensures rc == Volumes.ENOSPC <==>
              ClustersFor(h, old(Items(dir)), old(dir.info.size), 2 + NameEntries(|name|))
              > Clusters(h, old(dir.info.size)) + free
    ensures rc == Volumes.ENOSPC ==>
              && parent.kids == old(parent.kids) && parent.slots == old(parent.slots)
              && dir.kids == old(dir.kids) && dir.slots == old(dir.slots) && dir.info == old(dir.info)
              && node.info == old(node.info) && node.offset == old(node.offset) && left == free
    ensures rc == Volumes.OK ==>
              && (parent == dir ==> dir.kids == [node] + Without(old(dir.kids), i))
              && (parent != dir ==> parent.kids == Without(old(parent.kids), i) && dir.kids == [node] + old(dir.kids))
              && node.info == old(node.info).(continuations := 1 + NameEntries(|name|), name := name)
              && node.offset == 32 * FirstOpen(old(Items(dir)), 2 + NameEntries(|name|))
              && Clusters(h, dir.info.size)
                 == ClustersFor(h, old(Items(dir)), old(dir.info.size), 2 + NameEntries(|name|))
              && left + Clusters(h, dir.info.size) == free + Clusters(h, old(dir.info.size))
    ensures rc == Volumes.OK && parent == dir ==>
              MovesSet(Resized(old(dir.slots), |dir.slots|), dir.slots, old(Items(dir)[i]), node.offset / 32, es)
    ensures rc == Volumes.OK && parent != dir ==>
              && Erases(old(parent.slots), parent.slots, old(Items(parent)[i]))
              && Stores(Resized(old(dir.slots), |dir.slots|), dir.slots, node.offset / 32, es)
    ensures dir.info == old(dir.info).(size := dir.info.size, validSize := dir.info.validSize)
  {
    hide *;
    ValidParts(h, parent);
    es := [];
    var offset;
    rc, offset, left := FindSlotValid(h, dir, 2 + NameEntries(|name|), free);
    if parent != dir {
      forall k | 0 <= k < |parent.kids|
        ensures Kept(parent.kids[k])
      {
        StillKept(parent.kids[k]);
      }
      ValidFrom(h, parent);
    }
    if rc == Volumes.OK {
      FirstIsOpen(Items(dir), 2 + NameEntries(|name|));
      ghost var grown, item := dir.slots, Items(parent)[i];
      es := RenameEntry(h, parent, dir, node, name, hash, offset, i);
      SameTotal(grown, dir.slots, item, offset / 32, es);
    }
  }

  lemma SameTotal(before: seq<Entry>, after: seq<Entry>, item: Item, at: nat, es: seq<Entry>)
    ensures Stores(before, after, at, es) || MovesSet(before, after, item, at, es) ==> |after| == |before|
  {
  }

  /** Deletes the child that a rename replaces and frees its clusters; `k` is where the renamed
      child now is. */
  method RemoveTarget(h: Heap, parent: Node, dir: Node, existing: Node, free: nat, ghost i: nat, ghost j: nat)
      returns (left: nat, ghost k: nat)
    requires Valid(h, parent) && Valid(h, dir) && i < |parent.kids|
    requires j < |dir.kids| && dir.kids[j] == existing && existing != parent.kids[i] && existing != parent
    requires parent == dir || Separate(parent.kids, dir.kids)
    requires AllNormal(Items(dir))
    modifies dir`slots, dir`info, dir`dirty, dir`child, dir`kids, dir.kids`prev, dir.kids`next
    modifies existing`parent, existing`unlinked
    ensures Valid(h, parent) && Valid(h, dir) && existing.unlinked && h.clusterSize > 0
    ensures dir.kids == Without(old(dir.kids), j) && Items(dir) == Without(old(Items(dir)), j)
    ensures dir.info.size == CutSize(h, old(Items(dir)), j, old(dir.info.size))
    ensures left + Clusters(h, dir.info.size)
            == free + Clusters(h, old(dir.info.size)) + CeilDiv(existing.info.size, h.clusterSize)
    ensures parent != dir ==> parent.kids == old(parent.kids) && parent.slots == old(parent.slots) && k == i
    ensures k < |parent.kids| && parent.kids[k] == old(parent.kids[i])
    ensures parent == dir ==> k == if i < j then i else i - 1
    ensures parent == dir || Separate(parent.kids, dir.kids)
    ensures dir.info == old(dir.info).(size := dir.info.size, validSize := dir.info.validSize)
  {
    hide *;
    ValidParts(h, parent);
    ValidParts(h, dir);
    LinkedDistinct(dir, j);
    if parent != dir {
      Swapped(parent.kids, dir.kids);
      SeparateWithout(dir, parent, j);
      StillSeparate(parent, dir, j);
    }
    NormalWithout(Items(dir), j);
    var clusters := CeilDiv(existing.info.size, h.clusterSize);
    var rc;
    rc, left := Delete(h, dir, existing, free, j);
    left := left + clusters;
    if parent == dir {
      k := if i < j then i else i - 1;
    } else {
      k := i;
      forall m | 0 <= m < |parent.kids|
        ensures Kept(parent.kids[m])
      {
        StillKept(parent.kids[m]);
      }
      ValidFrom(h, parent);
    }
  }

  lemma NormalWithout(items: seq<Item>, j: nat)
    requires AllNormal(items) && j < |items|
    ensures AllNormal(Without(items, j))
  {
  }

  lemma Swapped(a: seq<Node>, b: seq<Node>)
    requires Separate(a, b)
    ensures Separate(b, a)
  {
  }

  lemma StillSeparate(parent: Node, dir: Node, j: nat)
    requires Separate(parent.kids, dir.kids) && j < |dir.kids|
    ensures Separate(parent.kids, Without(dir.kids, j))
  {
  }

  datatype RenameStatus = Renamed | NoSpace | NotDirectory | IsADirectory | NotEmpty

  /** Why a child may not be replaced: `kind` and `other` say which of the two are directories. */
  function Refusal(kind: bool, other: bool, empty: bool): (why: RenameStatus)
    ensures why != NoSpace
  {
    if other && !kind then NotDirectory
    else if !other && kind then IsADirectory
    else if other && !empty then NotEmpty
    else Renamed
  }

  /** The clusters a set of `n` entries needs once child `j` is gone. */
  ghost function ReplacedClusters(h: Heap, items: seq<Item>, j: nat, n: nat): nat
    requires h.clusterSize > 0 && j < |items|
  {
    CeilDiv(32 * (FirstOpen(Without(items, j), n) + n), h.clusterSize)
  }

  ghost predicate AllApart(items: seq<Item>) {
    forall i, k | 0 <= i < k < |items| :: Apart(items[i], items[k])
  }

  /** A set that is no longer than the one it replaces fits where that one was. */
  lemma ReplacementFits(h: Heap, size: nat, items: seq<Item>, j: nat, n: nat)
    requires AllApart(items) && j < |items| && n <= items[j].Length() && 32 * items[j].End() <= size
    requires h.clusterSize > 0 && size % h.clusterSize == 0
    ensures ReplacedClusters(h, items, j, n) <= Clusters(h, size)
  {
    hide Clusters, CeilDiv, FirstOpen;
    var s := items[j].slot;
    forall p | s <= p < s + n
      ensures !Covered(Without(items, j), p)
    {
      FreedSlot(items, j, p);
    }
    assert Open(Without(items, j), s, n);
    HoldsIff(h, 32 * (FirstOpen(Without(items, j), n) + n), size);
  }

  lemma FreedSlot(items: seq<Item>, j: nat, p: int)
    requires AllApart(items) && j < |items| && items[j].Covers(p)
    ensures !Covered(Without(items, j), p)
  {
    var rest := Without(items, j);
    forall k | 0 <= k < |rest|
      ensures !rest[k].Covers(p)
    {
      var was := if k < j then k else k + 1;
      assert rest[k] == items[was];
      assert was < j ==> Apart(items[was], items[j]);
      assert j < was ==> Apart(items[j], items[was]);
    }
  }

  lemma ReplacedRoom(h: Heap, items: seq<Item>, j: nat, size: nat, n: nat, room: nat)
    requires h.clusterSize > 0 && j < |items| && Clusters(h, size) <= room
    ensures ClustersFor(h, Without(items, j), size, n) > room <==> ReplacedClusters(h, items, j, n) > room
  {
  }

  /** Renames over an existing child of the target directory, which is deleted first if its
      kind allows. There is no room for the new name exactly when it needs more clusters than
      the directory, the replaced file and the free ones make up, so never when it needs no
      more entries than the old one. */
  method RenameOver(h: Heap, parent: Node, dir: Node, node: Node, existing: Node, name: seq<nat>, hash: nat, free: nat,
                    ghost i: nat, ghost j: nat) returns (rc: RenameStatus, left: nat)
    requires Valid(h, parent) && Valid(h, dir) && i < |parent.kids| && parent.kids[i] == node && node != dir
    requires j < |dir.kids| && dir.kids[j] == existing && existing != node
    requires existing == parent ==> IsDirectory(parent.info.attrib)
    requires parent == dir || Separate(parent.kids, dir.kids)
    requires Nameable(name) && AllNormal(Items(dir))
    modifies parent`slots, parent`child, parent`kids, parent.kids`prev, parent.kids`next
    modifies dir`slots, dir`info, dir`dirty, dir`child, dir`kids, dir.kids`prev, dir.kids`next
    modifies node`parent, node`offset, node`info, node`disk, existing`parent, existing`unlinked
    ensures Valid(h, parent) && Valid(h, dir) && h.clusterSize > 0
    ensures var why := Refusal(IsDirectory(old(node.info.attrib)), IsDirectory(old(existing.info.attrib)),
                               old(existing.child) == null);
            && (why != Renamed ==>
                  && rc == why && left == free && parent.kids == old(parent.kids) && parent.slots == old(parent.slots)
                  && dir.kids == old(dir.kids) && dir.slots == old(dir.slots) && dir.info == old(dir.info)
                  && node.info == old(node.info) && node.offset == old(node.offset))
            && (why == Renamed ==>
                  rc == if ReplacedClusters(h, old(Items(dir)), j, 2 + NameEntries(|name|))
                           > Clusters(h, old(dir.info.size)) + free + CeilDiv(existing.info.size, h.clusterSize)
                        then NoSpace else Renamed)
    ensures rc == NoSpace ==>
              && existing.unlinked && dir.kids == Without(old(dir.kids), j)
              && node.info == old(node.info) && node.offset == old(node.offset)
    ensures rc == NoSpace ==> NameEntries(|name|) > NameEntries(|existing.info.name|)
    ensures rc == Renamed ==>
              && existing.unlinked
              && (parent == dir ==>
                    dir.kids == [node] + Without(Without(old(dir.kids), j), if i < j then i else i - 1))
              && (parent != dir ==>
                    parent.kids == Without(old(parent.kids), i) && dir.kids == [node] + Without(old(dir.kids), j))
              && node.info == old(node.info).(continuations := 1 + NameEntries(|name|), name := name)
              && node.offset == 32 * FirstOpen(Without(old(Items(dir)), j), 2 + NameEntries(|name|))
    ensures rc == NoSpace ==> dir.info.size == CutSize(h, old(Items(dir)), j, old(dir.info.size))
    ensures rc == Renamed ==>
              Clusters(h, dir.info.size) ==
              ClustersFor(h, Without(old(Items(dir)), j), CutSize(h, old(Items(dir)), j, old(dir.info.size)),
                          2 + NameEntries(|name|))
    ensures rc == Renamed || rc == NoSpace ==>
              left + Clusters(h, dir.info.size)
              == free + Clusters(h, old(dir.info.size)) + CeilDiv(existing.info.size, h.clusterSize)
    ensures dir.info == old(dir.info).(size := dir.info.size, validSize := dir.info.validSize)
  {
    hide *;
    var why := Refusal(IsDirectory(node.info.attrib), IsDirectory(existing.info.attrib), existing.child == null);
    ValidParts(h, dir);
    if why != Renamed {
      return why, free;
    }
    ValidParts(h, parent);
    ParentIsRefused(parent, i, IsDirectory(node.info.attrib));
    LinkedDistinct(dir, j);
    TargetLength(h, dir, j);
    var n := 2 + NameEntries(|name|);
    ghost var items := Items(dir);
    if n <= items[j].Length() {
      ReplacementFits(h, dir.info.size, items, j, n);
    }
    ghost var k;
    left, k := RemoveTarget(h, parent, dir, existing, free, i, j);
    if parent == dir {
      WithoutIn(dir.kids, k);
    }
    ReplacedRoom(h, items, j, dir.info.size, n, Clusters(h, dir.info.size) + left);
    var status, es;
    status, left, es := Rename(h, parent, dir, node, name, hash, left, k);
    rc := if status == Volumes.OK then Renamed else NoSpace;
  }

  /** A directory that holds the renamed node cannot be replaced by it. */
  lemma ParentIsRefused(parent: Node, i: nat, kind: bool)
    requires Linked(parent) && i < |parent.kids|
    ensures parent.child != null && Refusal(kind, true, false) != Renamed
  {
  }

  lemma TargetLength(h: Heap, dir: Node, j: nat)
    requires Valid(h, dir) && j < |dir.kids|
    ensures |Items(dir)| == |dir.kids| && Items(dir)[j].Length() >= 2 + NameEntries(|dir.kids[j].info.name|)
    ensures AllApart(Items(dir)) && Items(dir)[j].End() <= |dir.slots|
    ensures NameFits(dir.kids[j].info.name)
  {
    hide Linked, Tidy, Readable, Described, NameEntries;
    assert Kept(dir.kids[j]);
    var item := Items(dir)[j];
    assert Placed(h, dir.slots, item);
    NameInSet(h, dir.slots[item.slot..item.End()]);
  }

  /** A child whose size changes with the dirty flag set still agrees with its entry set. */
  twostate lemma StillKept(n: Node)
    requires old(Kept(n)) && n.offset == old(n.offset) && n.disk == old(n.disk)
    requires n.info == old(n.info).(size := n.info.size, validSize := n.info.validSize)
    requires n.dirty || (n.dirty == old(n.dirty) && n.info == old(n.info))
    ensures Kept(n)
  {
  }

  // ----- Flushing -----

  /** Writes a dirty node's fields into its entry set, number `i` of those the directory holds;
      the set passes the check of its types. */
  method FlushSet(h: Heap, dir: Node, node: Node, t: Times, ghost items: seq<Item>, ghost i: nat)
      returns (shaped: bool, es: seq<Entry>)
    requires Layout(h, dir.slots, items) && Tidy(dir.slots, items) && i < |items| && items[i] == ItemOf(node)
    requires Kept(node) && dir != node && Sound(h, Stored(node.info)) && Storable(node.info)
    modifies dir`slots, node`dirty, node`disk
    ensures shaped && Kept(node) && !node.dirty && node.disk == Stored(node.info)
    ensures Layout(h, dir.slots, items[i := ItemOf(node)]) && Tidy(dir.slots, items[i := ItemOf(node)])
    ensures if old(node.dirty) then Stores(old(dir.slots), dir.slots, node.offset / 32, es)
            else dir.slots == old(dir.slots)
    ensures |dir.slots| == |old(dir.slots)|
  {
    hide *;
    KeptIs(node);
    ItemIs(node);
    if !node.dirty {
      assert items[i := ItemOf(node)] == items;
      return true, [];
    }
    ghost var was := dir.slots;
    var o, n := node.offset / 32, 1 + node.info.continuations;
    SetHolds(h, was, items, i);
    HoldsIs(h, dir.slots, o, n, node.disk);
    ReadableFields(h, dir.slots[o..o + n]);
    shaped := CheckEntries(dir.slots[o..o + n]);
    es := FlushEntries(h, dir.slots[o..o + n], node.info, t);
    StoredKeeps(node.info);
    LengthIs(items[i], Item(o, Stored(node.info)));
    RewriteKeeps(h, was, items, i, es, Item(o, Stored(node.info)));
    RewriteTidies(was, items, i, es, Item(o, Stored(node.info)));
    dir.slots := Patched(dir.slots, o, es);
    StoresIs(was, o, es);
    node.dirty := false;
    node.disk := Stored(node.info);
    FlushedKept(node);
    ItemIs(node);
    ItemFrom(node, o);
  }

  lemma ItemFrom(node: Node, o: nat)
    requires node.offset / 32 == o
    ensures ItemOf(node) == Item(o, node.disk)
  {
  }

  /** The set of item `i`, as it lies among the slots. */
  lemma SetHolds(h: Heap, slots: seq<Entry>, items: seq<Item>, i: nat)
    requires Layout(h, slots, items) && i < |items|
    ensures Holds(h, slots, items[i].slot, items[i].Length(), items[i].info)
  {
    hide Readable, Described;
    var item := items[i];
    assert Placed(h, slots, item);
    NameInSet(h, slots[item.slot..item.End()]);
  }

  /** Flushes a child of a directory. */
  method FlushNode(h: Heap, dir: Node, node: Node, t: Times, ghost i: nat) returns (shaped: bool, es: seq<Entry>)
    requires Valid(h, dir) && i < |dir.kids| && dir.kids[i] == node
    requires Sound(h, Stored(node.info)) && Storable(node.info)
    modifies dir`slots, node`dirty, node`disk
    ensures shaped && Valid(h, dir) && !node.dirty && node.disk == Stored(node.info)
    ensures Items(dir) == old(Items(dir))[i := ItemOf(node)]
    ensures if old(node.dirty) then Stores(old(dir.slots), dir.slots, node.offset / 32, es)
            else dir.slots == old(dir.slots)
    ensures |dir.slots| == |old(dir.slots)|
  {
    hide *;
    ValidParts(h, dir);
    Others(dir, i);
    ghost var items := Items(dir);
    shaped, es := FlushSet(h, dir, node, t, items, i);
    ItemsReplaced(dir, items, i);
    WholeFrom(h, dir);
    assert forall k | 0 <= k < |dir.kids| :: Kept(dir.kids[k]);
    ValidFrom(h, dir);
  }

  lemma StoredKeeps(i: Info)
    ensures Stored(i).continuations == i.continuations && Stored(i).name == i.name
    ensures !i.contiguous ==> Stored(i) == i
  {
  }

  lemma LengthIs(a: Item, b: Item)
    requires a.info.continuations == b.info.continuations
    ensures a.Length() == b.Length()
  {
  }

  lemma KeptIs(n: Node)
    requires Kept(n)
    ensures n.disk.name == n.info.name && n.disk.continuations == n.info.continuations
    ensures !n.dirty ==> n.disk == Stored(n.info)
  {
  }

  lemma HoldsIs(h: Heap, slots: seq<Entry>, o: nat, n: nat, d: Info)
    requires Holds(h, slots, o, n, d)
    ensures n >= 2 && o + n <= |slots| && h.clusterSize > 0
    ensures Sized(slots[o..o + n]) && Readable(h, slots[o..o + n]) && Described(slots[o..o + n]) == d
  {
  }

  lemma Others(dir: Node, i: nat)
    requires Linked(dir) && i < |dir.kids|
    ensures forall k | 0 <= k < |dir.kids| && k != i :: dir.kids[k] != dir.kids[i]
    ensures |Items(dir)| == |dir.kids| && forall k | 0 <= k < |dir.kids| :: Items(dir)[k] == ItemOf(dir.kids[k])
  {
  }

  lemma ItemsReplaced(dir: Node, items: seq<Item>, i: nat)
    requires |items| == |dir.kids| && i < |items|
    requires forall k | 0 <= k < |items| && k != i :: items[k] == ItemOf(dir.kids[k])
    ensures Items(dir) == items[i := ItemOf(dir.kids[i])]
  {
    hide ItemsOf;
  }

  twostate lemma FlushedKept(n: Node)
    requires old(Kept(n)) && n.offset == old(n.offset) && n.info == old(n.info) && n.disk == Stored(n.info)
    ensures Kept(n)
  {
  }

  // ----- Making a directory -----

  /** Creates a directory with one blank cluster, `start` being the cluster it is given. */
  method MakeDirectory(h: Heap, dir: Node, name: seq<nat>, hash: nat, t: Times, free: nat, start: nat)
      returns (rc: Status, left: nat, node: Node?)
    requires Valid(h, dir) && Nameable(name) && Chains.ValidCluster(h.count, start)
    requires start < 0x1_0000_0000 && h.clusterSize < 0x1_0000_0000_0000_0000
    modifies dir`slots, dir`info, dir`dirty, dir`child, dir`kids, dir.kids`prev, dir.kids`next
    ensures h.clusterSize > 0
    ensures rc == Volumes.ENOSPC <==>
              ClustersFor(h, old(Items(dir)), old(dir.info.size), 2 + NameEntries(|name|)) + 1
              > Clusters(h, old(dir.info.size)) + free
    ensures rc == Volumes.OK ==>
              && Valid(h, dir) && node != null && fresh(node) && dir.kids == [node] + old(dir.kids)
              && Valid(h, node) && node.kids == [] && !node.dirty
              && node.info == Info(ATTRIB_DIR, 1 + NameEntries(|name|), h.clusterSize, h.clusterSize, start, true, name)
              && node.offset == 32 * FirstOpen(old(Items(dir)), 2 + NameEntries(|name|))
              && Clusters(h, dir.info.size)
                 == ClustersFor(h, old(Items(dir)), old(dir.info.size), 2 + NameEntries(|name|))
              && left + 1 + Clusters(h, dir.info.size) == free + Clusters(h, old(dir.info.size))
    ensures rc == Volumes.ENOSPC ==>
              && dir.kids == old(dir.kids) && Items(dir) == old(Items(dir)) && Linked(dir) && Whole(h, dir)
              && left + Clusters(h, dir.info.size) == free + Clusters(h, old(dir.info.size))
              && (AllNormal(Items(dir)) ==> Valid(h, dir))
  {
    hide *;
    ValidParts(h, dir);
    ghost var kids, items := dir.kids, Items(dir);
    DirectoryAttribute();
    var es;
    rc, left, node, es := Create(h, dir, name, ATTRIB_DIR, hash, t, free);
    ValidParts(h, dir);
    if rc != Volumes.OK {
      return;
    }
    assert dir.kids[0] == node;
    if left == 0 {
      FirstItemGone(ItemOf(node), items);
      rc, left := Delete(h, dir, node, left, 0);
      FirstNodeGone(node, kids);
      return Volumes.ENOSPC, left, null;
    }
    left := left - 1;
    ValidParts(h, dir);
    LinkedDistinct(dir, 0);
    node.slots := Resized([], h.clusterSize / 32);
    Update(h, dir, node, h.clusterSize, h.clusterSize, start, true, 0);
    OneCluster(h, node);
    var shaped;
    shaped, es := FlushNode(h, dir, node, t, 0);
    EmptyDirectory(h, node);
  }

  lemma DirectoryAttribute()
    ensures 0 <= ATTRIB_DIR < 0x1_0000 && IsDirectory(ATTRIB_DIR)
  {
  }

  lemma FirstNodeGone(node: Node, kids: seq<Node>)
    ensures Without([node] + kids, 0) == kids
  {
  }

  lemma FirstItemGone(item: Item, items: seq<Item>)
    ensures Without([item] + items, 0) == items
  {
  }

  lemma OneCluster(h: Heap, node: Node)
    requires h.clusterSize > 0 && h.clusterSize % 32 == 0 && h.clusterSize < 0x1_0000_0000_0000_0000
    requires node.info.size == node.info.validSize == h.clusterSize && node.info.attrib == ATTRIB_DIR
             && node.info.contiguous
    requires Chains.ValidCluster(h.count, node.info.start) && node.info.start < 0x1_0000_0000
    ensures Sound(h, Stored(node.info)) && Storable(node.info)
  {
    MulMonotone(1, h.count, h.clusterSize);
  }

  lemma EmptyDirectory(h: Heap, node: Node)
    requires h.clusterSize > 0 && h.clusterSize % 32 == 0 && node.kids == [] && node.child == null
    requires node.slots == Resized([], h.clusterSize / 32) && node.info.size == h.clusterSize
    ensures Valid(h, node)
  {
    Slots(h, h.clusterSize);
    assert forall p | 0 <= p < |node.slots| :: node.slots[p] == BLANK;
  }

  // ----- Where the slot and size computations need care -----

  lemma RoundUpExact(k: nat, d: nat)
    requires d > 0
    ensures RoundUp(k * d, d) == k * d
  {
    QuotientUnique(d, (k * d + d - 1) / d, k, (k * d + d - 1) % d, d - 1);
  }

  /** Cutting the directory by the length of its last child's name keeps that child's whole
      set, wherever it lies, exactly when the set has no entries beyond those of the name. */
  lemma ShrinkKeepsSetIff(h: Heap, continuations: nat, length: nat)
    requires h.clusterSize > 0 && h.clusterSize % 32 == 0
    ensures (forall s: nat :: CutKeeps(h, s, continuations, length)) <==> continuations <= 1 + NameEntries(length)
  {
    hide RoundUp, NameEntries;
    var k, m := 2 + NameEntries(length), h.clusterSize / 32;
    forall s: nat | continuations <= 1 + NameEntries(length)
      ensures CutKeeps(h, s, continuations, length)
    {
      RoundUpIs(32 * (s + k), h);
    }
    MulMonotone(1, m, k);
    var s := m * k - k;
    assert 32 * (s + k) == k * h.clusterSize;
    RoundUpExact(k, h.clusterSize);
    assert CutKeeps(h, s, continuations, length) <==> continuations <= 1 + NameEntries(length);
  }

  /** A set at slot `s` lies inside the size its name asks for. */
  ghost predicate CutKeeps(h: Heap, s: nat, continuations: nat, length: nat)
    requires h.clusterSize > 0
  {
    32 * (s + 1 + continuations) <= Needed(h, s + 2 + NameEntries(length))
  }

  // ----- Any sequence of operations -----

  /** Changes a child's size and clusters, as truncating or writing the file does. */
  method Update(h: Heap, dir: Node, node: Node, size: nat, validSize: nat, start: nat, contiguous: bool, ghost i: nat)
    requires Valid(h, dir) && i < |dir.kids| && dir.kids[i] == node
    modifies node`info, node`dirty
    ensures Valid(h, dir) && Items(dir) == old(Items(dir))
    ensures node.info == old(node.info).(size := size, validSize := validSize, start := start, contiguous := contiguous)
  {
    hide *;
    ValidParts(h, dir);
    Others(dir, i);
    node.info := node.info.(size := size, validSize := validSize, start := start, contiguous := contiguous);
    node.dirty := true;
    StaysKept(node);
    assert forall k | 0 <= k < |dir.kids| :: Kept(dir.kids[k]);
    ValidFrom(h, dir);
  }

  twostate lemma StaysKept(n: Node)
    requires old(Kept(n)) && n.offset == old(n.offset) && n.disk == old(n.disk) && n.dirty
    requires n.info.name == old(n.info.name) && n.info.continuations == old(n.info.continuations)
    ensures Kept(n)
  {
  }

  lemma WithoutIn(kids: seq<Node>, i: nat)
    requires i < |kids|
    ensures kids[i] in kids && forall n | n in Without(kids, i) :: n in kids
  {
  }

  /** Child number `i` in list order, if there is one. */
  method Nth(dir: Node, i: nat) returns (n: Node?)
    requires Linked(dir)
    ensures n == At(dir.kids, i)
    ensures n != null ==> i < |dir.kids| && dir.kids[i] == n && n != dir
  {
    n := dir.child;
    var k := 0;
    while n != null && k < i
      invariant n == At(dir.kids, k) && k <= i
      invariant n == null ==> |dir.kids| <= k
    {
      assert LinkedAt(dir, dir.kids, k);
      n, k := n.next, k + 1;
    }
  }
}
