/** Reading a directory from its slots: the loop that finds the entry sets and builds the
    list of children, and the proof that it finds exactly the children of a valid directory. */
module DirReading {
  import opened Arithmetic
  import opened Basics
  import opened DirEntries
  import opened DirLayout
  import opened DirNodes
  import opened DirSlots
  import opened Directories
  import Chains
  import Utf

  const ENTRY_BITMAP := 0x81
  const ENTRY_UPCASE := 0x82
  const ENTRY_LABEL := 0x83

  /** The bitmap entry names a cluster of the heap and enough bytes for a bit per cluster. */
  predicate BitmapOk(h: Heap, e: Entry)
    requires |e| == 32
  {
    Chains.ValidCluster(h.count, Get(e, 20, 4)) && Get(e, 24, 8) >= CeilDiv(h.count, 8)
  }

  /** An upper case table is loaded once: from a cluster of the heap, with at most 65536 units. */
  predicate UpcaseOk(h: Heap, loaded: bool, e: Entry)
    requires |e| == 32
  {
    || loaded
    || (&& Chains.ValidCluster(h.count, Get(e, 20, 4))
        && 0 < Get(e, 24, 8) <= 0x2_0000 && Get(e, 24, 8) % 2 == 0)
  }

  /** The label has at most 15 units and converts to UTF-8. */
  predicate LabelOk(e: Entry)
    requires |e| == 32
  {
    Get(e, 1, 1) <= ENAME_MAX && Utf.Units(Units(e)) && Utf.To8(Units(e)).Some?
  }

  /** An entry that is no file's: accepted or not, when the upper case table is loaded or not. */
  predicate Skipped(h: Heap, loaded: bool, e: Entry)
    requires |e| == 32
  {
    if Type(e) == ENTRY_BITMAP then BitmapOk(h, e)
    else if Type(e) == ENTRY_UPCASE then UpcaseOk(h, loaded, e)
    else if Type(e) == ENTRY_LABEL then LabelOk(e)
    else Type(e) < ENTRY_VALID
  }

  /** The entry sets from slot `p` on; none at all if something cannot be read. */
  ghost function ReadFrom(h: Heap, loaded: bool, slots: seq<Entry>, p: nat): Option<seq<Item>>
    requires Sized(slots) && h.clusterSize > 0 && p <= |slots|
    decreases |slots| - p
  {
    if p == |slots| then Some([])
    else if Type(slots[p]) == ENTRY_FILE then
      var n := 1 + Get(slots[p], 1, 1);
      if p + n > |slots| || !Readable(h, slots[p..p + n]) then None
      else
        match ReadFrom(h, loaded, slots, p + n)
        case Some(rest) => Some([Item(p, Described(slots[p..p + n]))] + rest)
        case None => None
    else if Skipped(h, loaded, slots[p]) then
      ReadFrom(h, loaded || Type(slots[p]) == ENTRY_UPCASE, slots, p + 1)
    else None
  }

  /** Slot `p` is not inside any set, except perhaps as its first slot. */
  ghost predicate Boundary(items: seq<Item>, p: nat) {
    forall i | 0 <= i < |items| :: items[i].End() <= p || p <= items[i].slot
  }

  ghost predicate Sorted(items: seq<Item>) {
    forall i, j | 0 <= i < j < |items| :: items[i].End() <= items[j].slot
  }

  /** What reading from `p` finds in a directory laid out as `items`. */
  ghost predicate FindsFrom(h: Heap, loaded: bool, slots: seq<Entry>, items: seq<Item>, p: nat)
    requires Sized(slots) && h.clusterSize > 0 && p <= |slots|
  {
    var r := ReadFrom(h, loaded, slots, p);
    && r.Some? && Sorted(r.value)
    && (forall x | x in r.value :: x in items && p <= x.slot)
    && (forall x | x in items && p <= x.slot :: x in r.value)
  }

  lemma FirstSlot(h: Heap, slots: seq<Entry>, item: Item)
    requires Sized(slots) && h.clusterSize > 0 && Placed(h, slots, item)
    ensures item.slot < |slots| && item.End() <= |slots| && Live(slots[item.slot])
    ensures Type(slots[item.slot]) == ENTRY_FILE && 1 + Get(slots[item.slot], 1, 1) == item.Length()
  {
    hide Get, Described, Checksum, Sound;
    ReadableFields(h, slots[item.slot..item.End()]);
    TypeIsGet(slots[item.slot]);
  }

  lemma {:induction false} ReadsOn(h: Heap, loaded: bool, slots: seq<Entry>, items: seq<Item>, p: nat)
    requires Layout(h, slots, items) && Tidy(slots, items) && p <= |slots| && Boundary(items, p)
    ensures FindsFrom(h, loaded, slots, items, p)
    decreases |slots| - p
  {
    hide Readable, Described, Placed, Get, Skipped;
    if p == |slots| {
      forall x | x in items
        ensures x.slot < p
      {
        FirstSlot(h, slots, x);
      }
    } else if Live(slots[p]) {
      ReadsSet(h, loaded, slots, items, p);
    } else {
      forall i | 0 <= i < |items|
        ensures items[i].slot != p
      {
        FirstSlot(h, slots, items[i]);
      }
      BlankSkipped(h, loaded, slots[p]);
      ReadsOn(h, loaded, slots, items, p + 1);
    }
  }

  lemma BlankSkipped(h: Heap, loaded: bool, e: Entry)
    requires |e| == 32 && !Live(e)
    ensures Type(e) != ENTRY_FILE && Type(e) != ENTRY_UPCASE && Skipped(h, loaded, e)
  {
  }

  lemma {:induction false} ReadsSet(h: Heap, loaded: bool, slots: seq<Entry>, items: seq<Item>, p: nat)
    requires Layout(h, slots, items) && Tidy(slots, items) && p < |slots| && Boundary(items, p) && Live(slots[p])
    ensures FindsFrom(h, loaded, slots, items, p)
    decreases |slots| - p, 0
  {
    hide Readable, Described, Get;
    assert Covered(items, p);
    var k :| 0 <= k < |items| && items[k].Covers(p);
    assert Placed(h, slots, items[k]);
    FirstSlot(h, slots, items[k]);
    SetAhead(items, p, k);
    var next := items[k].End();
    hide Layout, Tidy, Placed, Boundary, Covered;
    ReadsOn(h, loaded, slots, items, next);
  }

  /** At a boundary inside set `k` that set starts, and its end is the next boundary. */
  lemma SetAhead(items: seq<Item>, p: nat, k: nat)
    requires Boundary(items, p) && k < |items| && items[k].Covers(p)
    requires forall i, j | 0 <= i < j < |items| :: Apart(items[i], items[j])
    ensures items[k].slot == p && Boundary(items, items[k].End())
    ensures forall i | 0 <= i < |items| && i != k && p <= items[i].slot :: items[k].End() <= items[i].slot
  {
    forall i | 0 <= i < |items| && i != k
      ensures items[i].End() <= p || items[k].End() <= items[i].slot
    {
      assert Apart(items[if i < k then i else k], items[if i < k then k else i]);
    }
  }

  /** Reading a valid directory finds exactly its children, in slot order. */
  lemma RereadFinds(h: Heap, loaded: bool, dir: Node)
    requires Valid(h, dir)
    ensures h.clusterSize > 0 && Sized(dir.slots) && ReadFrom(h, loaded, dir.slots, 0).Some?
    ensures Sorted(ReadFrom(h, loaded, dir.slots, 0).value)
    ensures forall x :: x in ReadFrom(h, loaded, dir.slots, 0).value <==> x in Items(dir)
  {
    hide Readable, Described, Linked, ReadFrom;
    ReadsOn(h, loaded, dir.slots, Items(dir), 0);
  }

  // ----- The reading loop -----

  /** Links a node after the last child, or as the first one. */
  method AppendChild(dir: Node, last: Node?, node: Node)
    requires Linked(dir) && node !in dir.kids && node != dir && node.next == null && node.prev == null
    requires last == At(dir.kids, |dir.kids| - 1)
    modifies dir`child, dir`kids, dir.kids`next, node`parent, node`prev
    ensures dir.kids == old(dir.kids) + [node]
    ensures Linked(dir)
  {
    ghost var was := dir.kids;
    node.parent := dir;
    if last != null {
      last.next := node;
      node.prev := last;
    } else {
      dir.child := node;
    }
    dir.kids := dir.kids + [node];
    forall i | 0 <= i < |dir.kids|
      ensures LinkedAt(dir, dir.kids, i)
    {
      if i < |was| {
        assert old(LinkedAt(dir, was, i));
      }
    }
  }

  /** The sets found so far, followed by those from slot `p` on. */
  ghost predicate ReadTo(h: Heap, first: bool, loaded: bool, slots: seq<Entry>, found: seq<Item>, p: nat)
    requires Sized(slots) && h.clusterSize > 0 && p <= |slots|
  {
    var all, rest := ReadFrom(h, first, slots, 0), ReadFrom(h, loaded, slots, p);
    && (all.Some? <==> rest.Some?)
    && (all.Some? ==> all.value == found + rest.value)
  }

  lemma SkipOne(h: Heap, first: bool, loaded: bool, slots: seq<Entry>, found: seq<Item>, p: nat)
    requires Sized(slots) && h.clusterSize > 0 && p < |slots| && ReadTo(h, first, loaded, slots, found, p)
    requires Type(slots[p]) != ENTRY_FILE
    ensures Skipped(h, loaded, slots[p]) ==>
              ReadTo(h, first, loaded || Type(slots[p]) == ENTRY_UPCASE, slots, found, p + 1)
    ensures !Skipped(h, loaded, slots[p]) ==> ReadFrom(h, first, slots, 0).None?
  {
    hide Skipped;
  }

  lemma TakeSet(h: Heap, first: bool, loaded: bool, slots: seq<Entry>, found: seq<Item>, p: nat, n: nat)
    requires Sized(slots) && h.clusterSize > 0 && p < |slots| && ReadTo(h, first, loaded, slots, found, p)
    requires Type(slots[p]) == ENTRY_FILE && n == 1 + Get(slots[p], 1, 1)
    ensures p + n > |slots| || !Readable(h, slots[p..p + n]) ==> ReadFrom(h, first, slots, 0).None?
    ensures p + n <= |slots| && Readable(h, slots[p..p + n]) ==>
              |slots[p..p + n]| >= 2 && |slots[p..p + n]| >= 2 + NameEntries(Get(slots[p..p + n][1], 3, 1)) &&
              ReadTo(h, first, loaded, slots, found + [Item(p, Described(slots[p..p + n]))], p + n)
  {
    hide Readable, Described, Get, Skipped;
    if p + n <= |slots| && Readable(h, slots[p..p + n]) {
      ReadableFields(h, slots[p..p + n]);
      var x := Item(p, Described(slots[p..p + n]));
      var rest := ReadFrom(h, loaded, slots, p + n);
      if rest.Some? {
        assert found + ([x] + rest.value) == found + [x] + rest.value;
      }
    }
  }

  /** Reads the entry set at slot `p` into a new last child. */
  method ReadChild(h: Heap, dir: Node, last: Node?, p: nat, n: nat) returns (node: Node?)
    requires Sized(dir.slots) && h.clusterSize > 0 && p < |dir.slots| && |dir.slots[p]| == 32
    requires n == 1 + Get(dir.slots[p], 1, 1)
    requires Linked(dir) && last == At(dir.kids, |dir.kids| - 1)
    modifies dir`child, dir`kids, dir.kids`next
    ensures node == null <==> p + n > |dir.slots| || !Readable(h, dir.slots[p..p + n])
    ensures node == null ==> dir.kids == old(dir.kids) && Linked(dir)
    ensures node != null ==>
              && fresh(node) && AsRead(node) && Linked(dir) && dir.kids == old(dir.kids) + [node]
              && |dir.slots[p..p + n]| >= 2
              && |dir.slots[p..p + n]| >= 2 + NameEntries(Get(dir.slots[p..p + n][1], 3, 1))
              && Items(dir) == old(Items(dir)) + [Item(p, Described(dir.slots[p..p + n]))]
              && node == At(dir.kids, |dir.kids| - 1)
  {
    hide *;
    if p + n > |dir.slots| {
      return null;
    }
    SetSized(dir.slots, p, n);
    var r := ParseFileEntries(h, dir.slots[p..p + n]);
    if r.None? {
      return null;
    }
    ReadableFields(h, dir.slots[p..p + n]);
    node := new Node(32 * p, r.value);
    NewRead(node, p);
    ghost var kids := dir.kids;
    ItemsIs(dir);
    AppendChild(dir, last, node);
    Appended(dir, kids, node, p);
  }

  /** Looks at an entry that belongs to no file; the upper case table may get loaded. */
  method SkipEntry(h: Heap, loaded: bool, e: Entry) returns (ok: bool)
    requires |e| == 32
    ensures ok <==> Skipped(h, loaded, e)
  {
    hide Utf.To8, Get;
    if Type(e) == ENTRY_BITMAP {
      return BitmapOk(h, e);
    }
    if Type(e) == ENTRY_UPCASE {
      return UpcaseOk(h, loaded, e);
    }
    if Type(e) == ENTRY_LABEL {
      if Get(e, 1, 1) > ENAME_MAX {
        return false;
      }
      UnitsBelow(e);
      if Utf.To8(Units(e)).Some? {
        Utf.To8Bound(Units(e));
      }
      var r := Utf.Utf16ToUtf8(Units(e), 3 * ENAME_MAX + 1);
      return r.Done?;
    }
    return Type(e) < ENTRY_VALID;
  }

  /** Builds the children of a directory from its slots, or none if something cannot be read;
      `loaded` says whether the upper case table has been read before. */
  method CacheDirectory(h: Heap, loaded: bool, dir: Node) returns (ok: bool)
    requires dir.kids == [] && dir.child == null && Sized(dir.slots) && h.clusterSize > 0
    modifies dir`child, dir`kids
    ensures ok <==> ReadFrom(h, loaded, dir.slots, 0).Some?
    ensures ok ==> Linked(dir) && Items(dir) == ReadFrom(h, loaded, dir.slots, 0).value
    ensures ok ==> forall k | 0 <= k < |dir.kids| :: fresh(dir.kids[k]) && AsRead(dir.kids[k])
    ensures !ok ==> dir.kids == [] && dir.child == null
  {
    hide *;
    var slots := dir.slots;
    var p := 0;
    var last: Node? := null;
    var upcase := loaded;
    Begins(h, loaded, dir);
    while p < |slots|
      invariant p <= |slots| && Linked(dir) && last == At(dir.kids, |dir.kids| - 1)
      invariant forall k | 0 <= k < |dir.kids| :: fresh(dir.kids[k]) && AsRead(dir.kids[k])
      invariant ReadTo(h, loaded, upcase, slots, Items(dir), p)
    {
      SizedAt(slots, p);
      var ok;
      if Type(slots[p]) == ENTRY_FILE {
        var n := 1 + Get(slots[p], 1, 1);
        TakeSet(h, loaded, upcase, slots, Items(dir), p, n);
        last := ReadChild(h, dir, last, p, n);
        ok, p := last != null, p + n;
      } else {
        SkipOne(h, loaded, upcase, slots, Items(dir), p);
        ok := SkipEntry(h, upcase, slots[p]);
        upcase, p := upcase || Type(slots[p]) == ENTRY_UPCASE, p + 1;
      }
      if !ok {
        dir.child, dir.kids := null, [];
        return false;
      }
    }
    Ends(h, loaded, upcase, slots, Items(dir));
    return true;
  }

  /** A node just read: clean, and where and what its set says. */
  ghost predicate AsRead(n: Node)
    reads n`dirty, n`info, n`disk, n`offset
  {
    !n.dirty && n.info == n.disk && n.offset % 32 == 0
  }

  lemma NewRead(n: Node, p: nat)
    requires !n.dirty && n.info == n.disk && n.offset == 32 * p
    ensures AsRead(n)
  {
  }

  lemma Begins(h: Heap, loaded: bool, dir: Node)
    requires dir.kids == [] && dir.child == null && Sized(dir.slots) && h.clusterSize > 0
    ensures Linked(dir) && At(dir.kids, |dir.kids| - 1) == null && ReadTo(h, loaded, loaded, dir.slots, Items(dir), 0)
  {
  }

  lemma SizedAt(slots: seq<Entry>, p: nat)
    requires Sized(slots) && p < |slots|
    ensures |slots[p]| == 32
  {
  }

  lemma SetSized(slots: seq<Entry>, p: nat, n: nat)
    requires Sized(slots) && n > 0 && p + n <= |slots|
    ensures Sized(slots[p..p + n]) && slots[p..p + n][0] == slots[p]
  {
  }

  lemma Appended(dir: Node, kids: seq<Node>, node: Node, p: nat)
    requires dir.kids == kids + [node] && node.offset == 32 * p && AsRead(node)
    ensures Items(dir) == ItemsOf(kids) + [Item(p, node.info)]
    ensures At(dir.kids, |dir.kids| - 1) == node
  {
    hide ItemsOf;
    var items := ItemsOf(kids) + [Item(p, node.info)];
    assert |Items(dir)| == |items| && forall i | 0 <= i < |items| :: Items(dir)[i] == items[i];
  }

  lemma Ends(h: Heap, first: bool, loaded: bool, slots: seq<Entry>, found: seq<Item>)
    requires Sized(slots) && h.clusterSize > 0 && ReadTo(h, first, loaded, slots, found, |slots|)
    ensures ReadFrom(h, first, slots, 0) == Some(found)
  {
    assert found + [] == found;
  }

  // ----- Dropping the cached children and reading them again -----

  /** What the set of each child holds once the child is flushed. */
  ghost function FlushedItems(kids: seq<Node>): (items: seq<Item>)
    reads kids`offset, kids`info
    ensures |items| == |kids|
    ensures forall i | 0 <= i < |kids| :: items[i] == Item(kids[i].offset / 32, Stored(kids[i].info))
  {
    if kids == [] then [] else [Item(kids[0].offset / 32, Stored(kids[0].info))] + FlushedItems(kids[1..])
  }

  ghost predicate Flushable(h: Heap, n: Node)
    requires h.clusterSize > 0
    reads n`info
  {
    Sound(h, Stored(n.info)) && Storable(n.info)
  }

  /** Flushes and detaches the children, first to last. */
  method ResetCache(h: Heap, dir: Node, t: Times)
    requires Valid(h, dir) && forall i | 0 <= i < |dir.kids| :: Flushable(h, dir.kids[i])
    modifies dir`child, dir`kids, dir`slots
    modifies dir.kids`prev, dir.kids`next, dir.kids`parent, dir.kids`dirty, dir.kids`disk
    ensures dir.kids == [] && dir.child == null && |dir.slots| == |old(dir.slots)|
    ensures Layout(h, dir.slots, FlushedItems(old(dir.kids))) && Tidy(dir.slots, FlushedItems(old(dir.kids)))
  {
    hide *;
    ValidParts(h, dir);
    ghost var all, items, k := dir.kids, Items(dir), 0;
    ghost var flushed := FlushedItems(all);
    AllDifferent(dir);
    ItemsIs(dir);
    ListStart(dir);
    while dir.child != null
      invariant k <= |all| && dir.kids == all[k..] && Linked(dir) && dir.child == At(all, k)
      invariant |items| == |all| && |dir.slots| == |old(dir.slots)|
      invariant Layout(h, dir.slots, items) && Tidy(dir.slots, items)
      invariant forall j | 0 <= j < k :: items[j] == flushed[j]
      invariant forall j | k <= j < |all| :: items[j] == ItemOf(all[j]) && Kept(all[j])
      decreases |all| - k
    {
      AtIs(all, k);
      FlushableIs(h, all[k]);
      assert dir.kids[0] == all[k];
      var shaped, es := FlushSet(h, dir, dir.child, t, items, k);
      items := items[k := ItemOf(all[k])];
      ItemFrom(all[k], all[k].offset / 32);
      TreeDetach(dir, dir.child, 0);
      RestOf(all, k);
      ListStart(dir);
      k := k + 1;
    }
    AtIs(all, k);
    assert items == flushed;
  }

  lemma RestOf(all: seq<Node>, k: nat)
    requires k < |all|
    ensures Without(all[k..], 0) == all[k + 1..] && At(all[k + 1..], 0) == At(all, k + 1)
  {
  }

  lemma AllDifferent(dir: Node)
    requires Linked(dir)
    ensures forall i, j | 0 <= i < j < |dir.kids| :: dir.kids[i] != dir.kids[j]
    ensures forall i | 0 <= i < |dir.kids| :: dir.kids[i] != dir
    ensures forall i | 0 <= i < |dir.kids| :: Items(dir)[i] == ItemOf(dir.kids[i])
  {
  }

  lemma FlushableIs(h: Heap, n: Node)
    requires h.clusterSize > 0 && Flushable(h, n)
    ensures Sound(h, Stored(n.info)) && Storable(n.info)
  {
  }

  ghost predicate SameItems(a: seq<Item>, b: seq<Item>) {
    forall x :: x in a <==> x in b
  }

  lemma SortedLayout(h: Heap, slots: seq<Entry>, items: seq<Item>, read: seq<Item>)
    requires Layout(h, slots, items) && Tidy(slots, items) && Sorted(read) && SameItems(read, items)
    ensures Layout(h, slots, read) && Tidy(slots, read)
  {
    hide Readable, Described, Placed;
    forall i | 0 <= i < |read|
      ensures Placed(h, slots, read[i])
    {
      assert read[i] in items;
      var k :| 0 <= k < |items| && items[k] == read[i];
    }
    forall p | 0 <= p < |slots| && Live(slots[p])
      ensures Covered(read, p)
    {
      assert Covered(items, p);
      var k :| 0 <= k < |items| && items[k].Covers(p);
      assert items[k] in read;
      var i :| 0 <= i < |read| && read[i] == items[k];
      assert read[i].Covers(p);
    }
  }

  /** A directory dropped from the cache and read back is valid and has the same children, each
      as its node described it, whether or not it had been flushed before. */
  method Reread(h: Heap, loaded: bool, dir: Node, t: Times)
    requires Valid(h, dir) && forall i | 0 <= i < |dir.kids| :: Flushable(h, dir.kids[i])
    modifies dir`child, dir`kids, dir`slots
    modifies dir.kids`prev, dir.kids`next, dir.kids`parent, dir.kids`dirty, dir.kids`disk
    ensures Valid(h, dir) && SameItems(Items(dir), FlushedItems(old(dir.kids))) && Sorted(Items(dir))
    ensures forall k | 0 <= k < |dir.kids| :: !dir.kids[k].dirty && dir.kids[k].info == dir.kids[k].disk
  {
    hide *;
    ValidParts(h, dir);
    ghost var items := FlushedItems(dir.kids);
    ResetCache(h, dir, t);
    FoundItems(h, loaded, dir.slots, items);
    StoredItems(h, dir.slots, items);
    LayoutSized(h, dir.slots, items);
    var ok := CacheDirectory(h, loaded, dir);
    SortedLayout(h, dir.slots, items, Items(dir));
    ReadKept(dir, items);
    WholeFrom(h, dir);
    ValidFrom(h, dir);
  }

  lemma LayoutSized(h: Heap, slots: seq<Entry>, items: seq<Item>)
    requires Layout(h, slots, items)
    ensures Sized(slots) && h.clusterSize > 0
  {
  }

  lemma FoundItems(h: Heap, loaded: bool, slots: seq<Entry>, items: seq<Item>)
    requires Layout(h, slots, items) && Tidy(slots, items)
    ensures h.clusterSize > 0 && Sized(slots) && ReadFrom(h, loaded, slots, 0).Some?
    ensures Sorted(ReadFrom(h, loaded, slots, 0).value) && SameItems(ReadFrom(h, loaded, slots, 0).value, items)
  {
    hide Readable, Described, ReadFrom;
    ReadsOn(h, loaded, slots, items, 0);
  }

  lemma StoredItems(h: Heap, slots: seq<Entry>, items: seq<Item>)
    requires Layout(h, slots, items)
    ensures forall x | x in items :: Stored(x.info) == x.info
  {
    hide Described, Shaped, Checksum;
    forall x | x in items
      ensures Stored(x.info) == x.info
    {
      var i :| 0 <= i < |items| && items[i] == x;
      assert Placed(h, slots, items[i]);
    }
  }

  lemma ReadKept(dir: Node, items: seq<Item>)
    requires SameItems(Items(dir), items) && forall x | x in items :: Stored(x.info) == x.info
    requires forall k | 0 <= k < |dir.kids| :: AsRead(dir.kids[k])
    ensures forall k | 0 <= k < |dir.kids| :: Kept(dir.kids[k])
    ensures forall k | 0 <= k < |dir.kids| :: !dir.kids[k].dirty && dir.kids[k].info == dir.kids[k].disk
  {
    hide ItemsOf;
    forall k | 0 <= k < |dir.kids|
      ensures Kept(dir.kids[k])
    {
      assert AsRead(dir.kids[k]) && Items(dir)[k] in items;
    }
  }
}
