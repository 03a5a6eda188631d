/** Cached directories and the search for a slot: the map of slots that children use, the
    lowest run that fits, and the growth of the directory when there is none. */
module DirSlots {
  import opened Arithmetic
  import opened DirEntries
  import opened DirLayout
  import opened DirNodes
  import Volumes

  type Status = Volumes.Status

  // ----- The state of a directory -----

  ghost function ItemOf(n: Node): Item
    reads n`offset, n`disk
  {
    Item(n.offset / 32, n.disk)
  }

  ghost function ItemsOf(kids: seq<Node>): (items: seq<Item>)
    reads kids`offset, kids`disk
    ensures |items| == |kids|
    ensures forall i | 0 <= i < |items| :: items[i] == ItemOf(kids[i])
  {
    if kids == [] then [] else [ItemOf(kids[0])] + ItemsOf(kids[1..])
  }

  ghost function Items(dir: Node): seq<Item>
    reads dir`kids, dir.kids`offset, dir.kids`disk
  {
    ItemsOf(dir.kids)
  }

  /** A child agrees with its entry set; only a dirty one may be ahead of the disk. */
  ghost predicate Kept(n: Node)
    reads n`offset, n`info, n`dirty, n`disk
  {
    && n.offset % 32 == 0
    && n.disk.name == n.info.name && n.disk.continuations == n.info.continuations
    && (!n.dirty ==> n.disk == Stored(n.info))
  }

  ghost predicate Whole(h: Heap, dir: Node)
    reads dir`slots, dir`info
  {
    && h.clusterSize > 0 && h.clusterSize % 32 == 0
    && dir.info.size == 32 * |dir.slots| && dir.info.size > 0 && dir.info.size % h.clusterSize == 0
  }

  /** A cached directory other than the root. */
  ghost predicate Valid(h: Heap, dir: Node)
    reads dir`child, dir`kids, dir`slots, dir`info
    reads dir.kids`next, dir.kids`prev, dir.kids`parent, dir.kids`offset, dir.kids`info, dir.kids`dirty, dir.kids`disk
  {
    && Linked(dir) && Whole(h, dir)
    && Layout(h, dir.slots, Items(dir)) && Tidy(dir.slots, Items(dir))
    && forall i | 0 <= i < |dir.kids| :: Kept(dir.kids[i])
  }

  // ----- The map of slots the children use -----

  method Mark(dmap: array<bool>, a: nat, n: nat)
    requires a + n <= dmap.Length
    modifies dmap
    ensures forall p | 0 <= p < dmap.Length :: dmap[p] == (old(dmap[p]) || a <= p < a + n)
  {
    for i := 0 to n
      invariant forall p | 0 <= p < dmap.Length :: dmap[p] == (old(dmap[p]) || a <= p < a + i)
    {
      dmap[a + i] := true;
    }
  }

  lemma CoveredNext(items: seq<Item>, i: nat, p: int)
    requires i < |items|
    ensures Covered(items[..i + 1], p) <==> Covered(items[..i], p) || items[i].slot <= p < items[i].End()
  {
    if Covered(items[..i], p) {
      var k :| 0 <= k < i && items[..i][k].Covers(p);
      assert items[..i + 1][k].Covers(p);
    }
    if items[i].Covers(p) {
      assert items[..i + 1][i].Covers(p);
    }
  }

  lemma ListStart(dir: Node)
    requires Linked(dir)
    ensures dir.child == At(dir.kids, 0) && forall p: int :: !Covered(Items(dir)[..0], p)
  {
  }

  /** Child `i` leads to the next one, and marking its range covers one more item. */
  lemma ListStep(dir: Node, i: nat)
    requires Linked(dir) && i < |dir.kids| && Kept(dir.kids[i])
    ensures dir.kids[i].next == At(dir.kids, i + 1)
    ensures Items(dir)[i] == ItemOf(dir.kids[i])
    ensures Items(dir)[i].slot == dir.kids[i].offset / 32
    ensures Items(dir)[i].Length() == 1 + dir.kids[i].info.continuations
    ensures Items(dir)[i].End() == Items(dir)[i].slot + Items(dir)[i].Length()
  {
    assert LinkedAt(dir, dir.kids, i);
  }

  lemma AtIs(kids: seq<Node>, i: nat)
    requires i <= |kids|
    ensures At(kids, i) == null <==> i == |kids|
    ensures i < |kids| ==> At(kids, i) == kids[i]
  {
  }

  method BuildMap(dir: Node) returns (dmap: array<bool>)
    requires Linked(dir)
    requires forall i | 0 <= i < |dir.kids| :: Kept(dir.kids[i]) && ItemOf(dir.kids[i]).End() <= |dir.slots|
    ensures fresh(dmap) && dmap.Length == |dir.slots|
    ensures forall p | 0 <= p < dmap.Length :: dmap[p] == Covered(Items(dir), p)
  {
    hide *;
    ListStart(dir);
    ItemsIs(dir);
    dmap := new bool[|dir.slots|](_ => false);
    ghost var items, i := Items(dir), 0;
    var p := dir.child;
    while p != null
      invariant i <= |dir.kids| && p == At(dir.kids, i)
      invariant forall q | 0 <= q < dmap.Length :: dmap[q] == Covered(items[..i], q)
      decreases |dir.kids| - i
    {
      AtIs(dir.kids, i);
      ListStep(dir, i);
      Mark(dmap, p.offset / 32, 1 + p.info.continuations);
      forall q | 0 <= q < dmap.Length
        ensures Covered(items[..i + 1], q) == dmap[q]
      {
        CoveredNext(items, i, q);
      }
      assert forall q | 0 <= q < dmap.Length :: dmap[q] == Covered(items[..i + 1], q);
      p, i := p.next, i + 1;
    }
    AtIs(dir.kids, i);
    assert items[..i] == items;
  }

  // ----- Finding a slot -----

  /** `n` slots from `s` on that no child uses and, in the root, that hold nothing in use. */
  ghost predicate Suitable(slots: seq<Entry>, used: seq<bool>, root: bool, s: nat, n: nat)
    requires |slots| == |used|
  {
    && s + n <= |used|
    && (forall p | s <= p < s + n :: !used[p])
    && (root ==> forall p | s <= p < s + n :: !Live(slots[p]))
  }

  method CheckSlot(slots: seq<Entry>, root: bool, s: nat, n: nat) returns (ok: bool)
    requires s + n <= |slots|
    ensures ok <==> (root ==> forall p | s <= p < s + n :: !Live(slots[p]))
  {
    if !root {
      return true;
    }
    for i := 0 to n
      invariant forall p | s <= p < s + i :: !Live(slots[p])
    {
      if Live(slots[s + i]) {
        return false;
      }
    }
    return true;
  }

  /** The search has gone back to `b` after a slot of `n` unused entries that starts before it. */
  ghost predicate Retried(used: seq<bool>, b: nat, n: nat) {
    b + n - 1 <= |used| && forall p | b <= p < b + n - 1 :: !used[p]
  }

  /** The lowest suitable slot, or the length of the unused run at the end. */
  method Scan(dmap: array<bool>, slots: seq<Entry>, root: bool, n: nat) returns (found: bool, start: nat, run: nat)
    requires |slots| == dmap.Length && n > 0
    ensures found ==> Suitable(slots, dmap[..], root, start, n)
    ensures found ==> forall s: nat | s < start :: !Suitable(slots, dmap[..], root, s, n)
    ensures !found ==> forall s: nat :: !Suitable(slots, dmap[..], root, s, n)
    ensures !found ==> run < n && run <= dmap.Length && (run > 0 ==> start == dmap.Length - run)
    ensures !found ==> forall p | dmap.Length - run <= p < dmap.Length :: !dmap[p]
    ensures !found ==> run == n - 1 || run == dmap.Length || dmap[dmap.Length - run - 1]
  {
    hide Suitable, Retried;
    ghost var used := dmap[..];
    var i, contiguous := 0, 0;
    start := 0;
    while i < dmap.Length
      invariant 0 <= contiguous <= i <= dmap.Length && contiguous < n
      invariant contiguous > 0 ==> start == i - contiguous
      invariant forall p | i - contiguous <= p < i :: !dmap[p]
      invariant contiguous == i || dmap[i - contiguous - 1] || Retried(used, i - contiguous, n)
      invariant forall s: nat | s < i - contiguous :: !Suitable(slots, used, root, s, n)
      decreases dmap.Length - (i - contiguous), dmap.Length - i
    {
      if !dmap[i] {
        if contiguous == 0 {
          start := i;
        }
        contiguous := contiguous + 1;
        if contiguous == n {
          var ok := CheckSlot(slots, root, start, n);
          Examined(slots, used, root, start, n);
          if ok {
            return true, start, contiguous;
          }
          i := i - (contiguous - 1);
          contiguous := 0;
        }
      } else {
        Blocked(slots, used, root, n, i);
        contiguous := 0;
      }
      i := i + 1;
    }
    Ending(slots, used, root, n, contiguous);
    return false, start, contiguous;
  }

  /** A used slot spoils every run of `n` slots that reaches it. */
  lemma Blocked(slots: seq<Entry>, used: seq<bool>, root: bool, n: nat, i: nat)
    requires |slots| == |used| && i < |used| && used[i]
    ensures forall s: nat | s <= i < s + n :: !Suitable(slots, used, root, s, n)
  {
  }

  lemma Examined(slots: seq<Entry>, used: seq<bool>, root: bool, s: nat, n: nat)
    requires |slots| == |used| && n > 0 && s + n <= |used| && forall p | s <= p < s + n :: !used[p]
    ensures Suitable(slots, used, root, s, n) <==> (root ==> forall p | s <= p < s + n :: !Live(slots[p]))
    ensures Retried(used, s + 1, n)
  {
  }

  lemma Ending(slots: seq<Entry>, used: seq<bool>, root: bool, n: nat, run: nat)
    requires |slots| == |used| && run < n && run <= |used|
    ensures forall s: nat | s >= |used| - run :: !Suitable(slots, used, root, s, n)
    ensures Retried(used, |used| - run, n) ==> run == n - 1
  {
  }

  // ----- Resizing -----

  /** The clusters of a directory of `size` bytes. */
  function Clusters(h: Heap, size: nat): nat
    requires h.clusterSize > 0
  {
    size / h.clusterSize
  }

  function RoundUp(x: nat, d: nat): nat
    requires d > 0
  {
    CeilDiv(x, d) * d
  }

  lemma RoundUpIs(x: nat, h: Heap)
    requires h.clusterSize > 0
    ensures x <= RoundUp(x, h.clusterSize) < x + h.clusterSize && RoundUp(x, h.clusterSize) % h.clusterSize == 0
    ensures Clusters(h, RoundUp(x, h.clusterSize)) == CeilDiv(x, h.clusterSize)
  {
    var q := CeilDiv(x, h.clusterSize);
    CeilDivBounds(x, h.clusterSize, q);
    if q > 0 {
      CeilDivBounds(x, h.clusterSize, q - 1);
    }
    CeilDivWhole(q, h.clusterSize);
  }

  /** A directory of `clusters` clusters holds `x` bytes exactly when it has as many as they need. */
  lemma HoldsIff(h: Heap, x: nat, size: nat)
    requires h.clusterSize > 0 && size % h.clusterSize == 0
    ensures x <= size <==> CeilDiv(x, h.clusterSize) <= Clusters(h, size)
    ensures size == Clusters(h, size) * h.clusterSize
  {
    CeilDivBounds(x, h.clusterSize, Clusters(h, size));
  }

  lemma Slots(h: Heap, size: nat)
    requires h.clusterSize > 0 && h.clusterSize % 32 == 0 && size % h.clusterSize == 0
    ensures size == 32 * (size / 32)
  {
    var q, m := size / h.clusterSize, h.clusterSize / 32;
    assert size == q * h.clusterSize && h.clusterSize == 32 * m;
    assert q * (32 * m) == 32 * (q * m);
  }

  /** Truncation of a directory to whole clusters, new space zeroed: what the file layer
      gives, with `free` clusters left on the volume. */
  method Truncate(h: Heap, dir: Node, size: nat, free: nat) returns (rc: Status, left: nat)
    requires Whole(h, dir) && size > 0 && size % h.clusterSize == 0
    modifies dir`slots, dir`info, dir`dirty
    ensures rc == Volumes.ENOSPC <==> Clusters(h, size) > Clusters(h, old(dir.info.size)) + free
    ensures rc == Volumes.ENOSPC ==> left == free && dir.slots == old(dir.slots) && dir.info == old(dir.info)
    ensures rc == Volumes.OK ==> Whole(h, dir) && dir.slots == Resized(old(dir.slots), size / 32)
    ensures rc == Volumes.OK ==> dir.info == old(dir.info).(size := size, validSize := size)
    ensures dir.dirty || (dir.dirty == old(dir.dirty) && dir.info == old(dir.info))
    ensures rc == Volumes.OK ==> left + Clusters(h, size) == free + Clusters(h, old(dir.info.size))
  {
    var clusters, current := Clusters(h, size), Clusters(h, dir.info.size);
    if clusters > current + free {
      return Volumes.ENOSPC, free;
    }
    Slots(h, size);
    dir.slots := Resized(dir.slots, size / 32);
    dir.info := dir.info.(size := size, validSize := size);
    dir.dirty := true;
    return Volumes.OK, free + current - clusters;
  }

  // ----- The place for a new entry set -----

  /** The slots children use, as the map records them. */
  ghost function Used(slots: seq<Entry>, items: seq<Item>): (used: seq<bool>)
    ensures |used| == |slots|
    ensures forall p | 0 <= p < |used| :: used[p] == Covered(items, p)
  {
    seq(|slots|, p => Covered(items, p))
  }

  ghost predicate Open(items: seq<Item>, s: nat, n: nat) {
    forall p | s <= p < s + n :: !Covered(items, p)
  }

  ghost predicate NoneSuitable(slots: seq<Entry>, items: seq<Item>, root: bool, n: nat) {
    forall s: nat :: !Suitable(slots, Used(slots, items), root, s, n)
  }

  /** Where the last child's set ends. */
  ghost function LastEnd(items: seq<Item>): (e: nat)
    ensures forall i | 0 <= i < |items| :: items[i].End() <= e
    ensures e == 0 || exists i | 0 <= i < |items| :: items[i].End() == e
  {
    if items == [] then 0
    else
      var e, last := LastEnd(items[..|items| - 1]), items[|items| - 1].End();
      if e < last then last else e
  }

  lemma LastEndIs(items: seq<Item>, e: nat)
    requires forall i | 0 <= i < |items| :: items[i].End() <= e
    requires e == 0 || exists i | 0 <= i < |items| :: items[i].End() == e
    ensures LastEnd(items) == e
  {
  }

  /** The slots from the last end on are open, and the one before it is not. */
  lemma AroundLastEnd(items: seq<Item>, n: nat)
    ensures forall p | p >= LastEnd(items) :: !Covered(items, p)
    ensures Open(items, LastEnd(items), n) && (LastEnd(items) > 0 ==> Covered(items, LastEnd(items) - 1))
  {
    if LastEnd(items) > 0 {
      var i :| 0 <= i < |items| && items[i].End() == LastEnd(items);
      assert items[i].Covers(LastEnd(items) - 1);
    }
  }

  /** The run at the end of the directory that a search for `n` slots ends with starts here. */
  ghost function TailStart(items: seq<Item>, total: nat, n: nat): nat {
    if LastEnd(items) + n > total then LastEnd(items) else total - n + 1
  }

  ghost function FirstOpenFrom(items: seq<Item>, n: nat, s: nat): (f: nat)
    requires s <= LastEnd(items) && forall r: nat | r < s :: !Open(items, r, n)
    ensures f <= LastEnd(items) && Open(items, f, n) && forall r: nat | r < f :: !Open(items, r, n)
    decreases LastEnd(items) - s
  {
    AroundLastEnd(items, n);
    if Open(items, s, n) then s else FirstOpenFrom(items, n, s + 1)
  }

  /** The lowest `n` slots in a row that no child uses, inside the directory or past its end. */
  ghost function FirstOpen(items: seq<Item>, n: nat): (f: nat)
    ensures f <= LastEnd(items) && Open(items, f, n) && forall r: nat | r < f :: !Open(items, r, n)
  {
    FirstOpenFrom(items, n, 0)
  }

  /** The clusters of the directory once it holds `n` slots more. */
  ghost function ClustersFor(h: Heap, items: seq<Item>, size: nat, n: nat): (c: nat)
    requires h.clusterSize > 0
    ensures c >= Clusters(h, size)
  {
    var c := CeilDiv(32 * (FirstOpen(items, n) + n), h.clusterSize);
    if c > Clusters(h, size) then c else Clusters(h, size)
  }

  /** Finds `n` slots, extending the directory when none are suitable. It runs out of space
      exactly when the slots at the end need more clusters than there are. */
  method FindSlot(h: Heap, dir: Node, root: bool, n: nat, free: nat) returns (rc: Status, offset: nat, left: nat)
    requires n > 0 && Linked(dir) && Whole(h, dir) && Layout(h, dir.slots, Items(dir))
    requires forall i | 0 <= i < |dir.kids| :: Kept(dir.kids[i])
    modifies dir`slots, dir`info, dir`dirty
    ensures Whole(h, dir) && Items(dir) == old(Items(dir)) && h.clusterSize > 0
    ensures dir.dirty || (dir.dirty == old(dir.dirty) && dir.info == old(dir.info))
    ensures dir.info == old(dir.info).(size := dir.info.size, validSize := dir.info.validSize)
    ensures rc == Volumes.ENOSPC <==>
              && NoneSuitable(old(dir.slots), Items(dir), root, n)
              && CeilDiv(32 * (TailStart(Items(dir), |old(dir.slots)|, n) + n), h.clusterSize)
                 > Clusters(h, old(dir.info.size)) + free
    ensures rc == Volumes.ENOSPC ==> dir.slots == old(dir.slots) && dir.info == old(dir.info) && left == free
    ensures rc == Volumes.OK ==>
              offset % 32 == 0 && offset / 32 + n <= |dir.slots| && Open(Items(dir), offset / 32, n)
    ensures rc == Volumes.OK && !NoneSuitable(old(dir.slots), Items(dir), root, n) ==>
              && dir.slots == old(dir.slots) && dir.info == old(dir.info) && left == free
              && Suitable(dir.slots, Used(dir.slots, Items(dir)), root, offset / 32, n)
              && forall s: nat | s < offset / 32 :: !Suitable(dir.slots, Used(dir.slots, Items(dir)), root, s, n)
    ensures rc == Volumes.OK && NoneSuitable(old(dir.slots), Items(dir), root, n) ==>
              && offset == 32 * TailStart(Items(dir), |old(dir.slots)|, n)
              && dir.info.size == RoundUp(offset + 32 * n, h.clusterSize)
              && dir.slots == Resized(old(dir.slots), |dir.slots|) && |dir.slots| > |old(dir.slots)|
              && left + Clusters(h, dir.info.size) == free + Clusters(h, old(dir.info.size))
  {
    hide *;
    WholeSize(h, dir);
    ghost var items, was := Items(dir), dir.slots;
    EndsInside(h, dir);
    var dmap := BuildMap(dir);
    ghost var used := dmap[..];
    assert used == Used(was, items);
    var found, start, run := Scan(dmap, dir.slots, root, n);
    assert dmap[..] == used;
    if found {
      SomeSuitable(was, items, root, n, start);
      return Volumes.OK, 32 * start, free;
    }
    NothingSuitable(was, items, root, n);
    TailIs(items, |was|, run, n);
    rc, offset, left := Extend(h, dir, 32 * start, run, n, free);
  }

  /** Extends the directory so that `n` slots fit from the start of its last `run` slots on. */
  method Extend(h: Heap, dir: Node, at: nat, run: nat, n: nat, free: nat) returns (rc: Status, offset: nat, left: nat)
    requires Whole(h, dir) && run < n && run <= |dir.slots| && (run > 0 ==> at == 32 * (|dir.slots| - run))
    requires LastEnd(Items(dir)) <= |dir.slots|
    requires forall p | |dir.slots| - run <= p < |dir.slots| :: !Covered(Items(dir), p)
    modifies dir`slots, dir`info, dir`dirty
    ensures Whole(h, dir) && Items(dir) == old(Items(dir)) && h.clusterSize > 0
    ensures rc == Volumes.ENOSPC <==>
              CeilDiv(32 * (|old(dir.slots)| - run + n), h.clusterSize) > Clusters(h, old(dir.info.size)) + free
    ensures rc == Volumes.ENOSPC ==> dir.slots == old(dir.slots) && dir.info == old(dir.info) && left == free
    ensures rc == Volumes.OK ==>
              && offset == 32 * (|old(dir.slots)| - run) && dir.info.size == RoundUp(offset + 32 * n, h.clusterSize)
              && offset % 32 == 0 && offset / 32 + n <= |dir.slots| && Open(Items(dir), offset / 32, n)
              && dir.slots == Resized(old(dir.slots), |dir.slots|) && |dir.slots| > |old(dir.slots)|
              && left + Clusters(h, dir.info.size) == free + Clusters(h, old(dir.info.size))
    ensures dir.info == old(dir.info).(size := dir.info.size, validSize := dir.info.validSize)
    ensures dir.dirty || (dir.dirty == old(dir.dirty) && dir.info == old(dir.info))
  {
    hide *;
    WholeSize(h, dir);
    ghost var items, was := Items(dir), dir.slots;
    offset := if run == 0 then dir.info.size else at;
    var size := RoundUp(dir.info.size + 32 * (n - run), h.clusterSize);
    Extension(h, |was|, run, n);
    EndsOpen(items, was, run, n);
    rc, left := Truncate(h, dir, size, free);
    WholeSize(h, dir);
    assert size == RoundUp(offset + 32 * n, h.clusterSize);
  }

  lemma NothingSuitable(slots: seq<Entry>, items: seq<Item>, root: bool, n: nat)
    requires forall s: nat :: !Suitable(slots, Used(slots, items), root, s, n)
    ensures NoneSuitable(slots, items, root, n)
  {
  }

  lemma SomeSuitable(slots: seq<Entry>, items: seq<Item>, root: bool, n: nat, s: nat)
    requires Suitable(slots, Used(slots, items), root, s, n)
    ensures !NoneSuitable(slots, items, root, n) && s + n <= |slots| && Open(items, s, n)
  {
  }

  /** The unused run the search ends with is the one at the end, cut to less than `n` slots. */
  lemma TailIs(items: seq<Item>, total: nat, run: nat, n: nat)
    requires run < n && run <= total && LastEnd(items) <= total
    requires forall p | total - run <= p < total :: !Covered(items, p)
    requires run == n - 1 || run == total || Covered(items, total - run - 1)
    ensures TailStart(items, total, n) == total - run
  {
    hide Covered;
    AroundLastEnd(items, n);
  }

  lemma WholeSize(h: Heap, dir: Node)
    requires Whole(h, dir)
    ensures h.clusterSize > 0 && h.clusterSize % 32 == 0
    ensures dir.info.size == 32 * |dir.slots| && dir.info.size > 0 && dir.info.size % h.clusterSize == 0
  {
  }

  /** The extended size holds the run at the end and the missing slots after it. */
  lemma Extension(h: Heap, count: nat, run: nat, n: nat)
    requires h.clusterSize > 0 && h.clusterSize % 32 == 0 && run < n && run <= count
    ensures var size := RoundUp(32 * count + 32 * (n - run), h.clusterSize);
            && size % h.clusterSize == 0 && size == 32 * (size / 32) && size / 32 > count
            && count - run + n <= size / 32
            && Clusters(h, size) == CeilDiv(32 * (count - run + n), h.clusterSize)
  {
    hide RoundUp, CeilDiv, Clusters;
    var size := RoundUp(32 * count + 32 * (n - run), h.clusterSize);
    RoundUpIs(32 * count + 32 * (n - run), h);
    Slots(h, size);
  }

  lemma EndsInside(h: Heap, dir: Node)
    requires Layout(h, dir.slots, Items(dir))
    ensures forall i | 0 <= i < |dir.kids| :: ItemOf(dir.kids[i]).End() <= |dir.slots|
    ensures LastEnd(Items(dir)) <= |dir.slots|
    ensures forall p: nat | p >= |dir.slots| :: !Covered(Items(dir), p)
  {
    hide Readable, Described;
    forall i | 0 <= i < |dir.kids|
      ensures ItemOf(dir.kids[i]).End() <= |dir.slots|
    {
      assert Placed(h, dir.slots, Items(dir)[i]);
    }
  }

  /** The run at the end, and the slots added after it, are open. */
  lemma EndsOpen(items: seq<Item>, slots: seq<Entry>, run: nat, n: nat)
    requires run <= |slots| && LastEnd(items) <= |slots|
    requires forall p | |slots| - run <= p < |slots| :: !Covered(items, p)
    ensures Open(items, |slots| - run, n)
  {
    hide Covered;
    AroundLastEnd(items, n);
  }

  /** In a directory other than the root the search takes the first open slots, wherever they
      are, and grows the directory as far as they need. */
  lemma TakesFirstOpen(h: Heap, slots: seq<Entry>, items: seq<Item>, n: nat)
    requires h.clusterSize > 0 && 32 * |slots| % h.clusterSize == 0 && LastEnd(items) <= |slots|
    ensures NoneSuitable(slots, items, false, n) ==>
              && FirstOpen(items, n) == TailStart(items, |slots|, n)
              && ClustersFor(h, items, 32 * |slots|, n) == CeilDiv(32 * (FirstOpen(items, n) + n), h.clusterSize)
              && ClustersFor(h, items, 32 * |slots|, n) > Clusters(h, 32 * |slots|)
    ensures !NoneSuitable(slots, items, false, n) ==>
              && Suitable(slots, Used(slots, items), false, FirstOpen(items, n), n)
              && ClustersFor(h, items, 32 * |slots|, n) == Clusters(h, 32 * |slots|)
  {
    hide Clusters, CeilDiv, Covered, FirstOpen, LastEnd;
    var f := FirstOpen(items, n);
    AroundLastEnd(items, n);
    HoldsIff(h, 32 * (f + n), 32 * |slots|);
    if NoneSuitable(slots, items, false, n) {
      assert !Suitable(slots, Used(slots, items), false, f, n);
      assert f + n > |slots|;
      assert f < LastEnd(items) ==> f <= LastEnd(items) - 1 < f + n;
    } else {
      var s: nat :| Suitable(slots, Used(slots, items), false, s, n);
      assert Open(items, s, n);
    }
  }

  /** `FindSlot` in a directory other than the root, determined by the children alone. */
  method FindSlotValid(h: Heap, dir: Node, n: nat, free: nat) returns (rc: Status, offset: nat, left: nat)
    requires n > 0 && Valid(h, dir)
    modifies dir`slots, dir`info, dir`dirty
    ensures Valid(h, dir) && Items(dir) == old(Items(dir)) && h.clusterSize > 0
    ensures rc == Volumes.ENOSPC <==>
              ClustersFor(h, Items(dir), old(dir.info.size), n) > Clusters(h, old(dir.info.size)) + free
    ensures rc == Volumes.ENOSPC ==> left == free && dir.slots == old(dir.slots) && dir.info == old(dir.info)
    ensures rc == Volumes.OK ==>
              && offset == 32 * FirstOpen(Items(dir), n) && FirstOpen(Items(dir), n) + n <= |dir.slots|
              && Clusters(h, dir.info.size) == ClustersFor(h, Items(dir), old(dir.info.size), n)
              && left + Clusters(h, dir.info.size) == free + Clusters(h, old(dir.info.size))
              && dir.slots == Resized(old(dir.slots), |dir.slots|)
    ensures dir.info == old(dir.info).(size := dir.info.size, validSize := dir.info.validSize)
    ensures dir.dirty || (dir.dirty == old(dir.dirty) && dir.info == old(dir.info))
  {
    hide *;
    ValidParts(h, dir);
    ghost var was, items := dir.slots, Items(dir);
    EndsInside(h, dir);
    TakesFirstOpen(h, was, items, n);
    rc, offset, left := FindSlot(h, dir, false, n, free);
    if rc == Volumes.OK {
      LeastIsFirst(was, items, n, offset / 32);
      RoundUpIs(offset + 32 * n, h);
      ResizedSame(was);
      LaterEnds(items, |was|, |dir.slots|);
      ResizeKeeps(h, was, items, |dir.slots|);
      ResizeTidies(was, items, |dir.slots|);
    }
    ValidFrom(h, dir);
  }

  lemma LeastIsFirst(slots: seq<Entry>, items: seq<Item>, n: nat, s: nat)
    requires Open(items, s, n)
    ensures s >= FirstOpen(items, n)
    ensures s > FirstOpen(items, n) && s + n <= |slots| ==>
              Suitable(slots, Used(slots, items), false, FirstOpen(items, n), n)
  {
    hide Covered, FirstOpen;
  }

  lemma ResizedSame(slots: seq<Entry>)
    ensures Resized(slots, |slots|) == slots
  {
  }

  lemma LaterEnds(items: seq<Item>, n: nat, m: nat)
    requires n <= m && LastEnd(items) <= n
    ensures forall i | 0 <= i < |items| :: items[i].End() <= m
  {
  }

  lemma ValidParts(h: Heap, dir: Node)
    requires Valid(h, dir)
    ensures Linked(dir) && dir !in dir.kids && Whole(h, dir) && h.clusterSize > 0 && h.clusterSize % 32 == 0
    ensures dir.info.size > 0 && dir.info.size % h.clusterSize == 0 && dir.info.size == 32 * |dir.slots|
    ensures Layout(h, dir.slots, Items(dir)) && Tidy(dir.slots, Items(dir)) && |Items(dir)| == |dir.kids|
    ensures forall i | 0 <= i < |dir.kids| :: Kept(dir.kids[i])
  {
  }

  lemma ValidFrom(h: Heap, dir: Node)
    requires Linked(dir) && Whole(h, dir)
    requires Layout(h, dir.slots, Items(dir)) && Tidy(dir.slots, Items(dir))
    requires forall i | 0 <= i < |dir.kids| :: Kept(dir.kids[i])
    ensures Valid(h, dir)
  {
  }

  lemma ItemsIs(dir: Node)
    ensures Items(dir) == ItemsOf(dir.kids) && |Items(dir)| == |dir.kids|
  {
  }

  // ----- The slot at the end of the root -----

  /** A slot that reaches past the end is clear on disk exactly when its part inside is. */
  lemma ExtendedClearIff(slots: seq<Entry>, size: nat, s: nat, n: nat)
    requires s <= |slots| < s + n <= size
    ensures (forall p | s <= p < s + n :: !Live(Resized(slots, size)[p]))
            <==> (forall p | s <= p < |slots| :: !Live(slots[p]))
  {
    var r := Resized(slots, size);
    assert forall p | 0 <= p < |slots| :: r[p] == slots[p];
    assert forall p | |slots| <= p < size :: r[p] == BLANK;
    assert !Live(BLANK);
  }

  /** A root directory of one 512-byte cluster in which every third entry is a label. */
  function LabelRoot(): (slots: seq<Entry>)
    ensures |slots| == 16
  {
    seq(16, p => if p % 3 == 2 then [0x83] + seq(31, _ => 0) else BLANK)
  }

  /** The slot past the end of the root is taken without looking at the entries on disk: in
      this root three slots are found that start on a label. */
  method RootSlotMayBeLive() returns (dir: Node, rc: Status, offset: nat)
    ensures rc == Volumes.OK && offset / 32 < |dir.slots| && Live(dir.slots[offset / 32])
  {
    hide *;
    var h := Heap(16, 512);
    dir := new Node(0, Info(ATTRIB_DIR, 0, 512, 512, 2, true, []));
    dir.slots := LabelRoot();
    LabelsEverywhere(h, dir);
    var left;
    rc, offset, left := FindSlot(h, dir, true, 3, 1);
    StaysAtFourteen(dir.slots);
  }

  lemma LabelsEverywhere(h: Heap, dir: Node)
    requires h == Heap(16, 512) && dir.kids == [] && dir.child == null
    requires dir.slots == LabelRoot() && dir.info.size == 512
    ensures Linked(dir) && Whole(h, dir) && Layout(h, dir.slots, Items(dir)) && Items(dir) == []
    ensures NoneSuitable(LabelRoot(), [], true, 3) && TailStart([], 16, 3) == 14
    ensures CeilDiv(32 * (14 + 3), 512) <= Clusters(h, 512) + 1
  {
    forall s: nat
      ensures !Suitable(LabelRoot(), Used(LabelRoot(), []), true, s, 3)
    {
      if s + 3 <= 16 {
        var p := s + (2 - s % 3);
        assert p % 3 == 2;
        assert Live(LabelRoot()[p]);
      }
    }
  }

  lemma StaysAtFourteen(slots: seq<Entry>)
    ensures |slots| > 16 && slots == Resized(LabelRoot(), |slots|) ==> Live(slots[14])
  {
    if |slots| > 16 && slots == Resized(LabelRoot(), |slots|) {
      assert slots[14] == LabelRoot()[14];
    }
  }
}
