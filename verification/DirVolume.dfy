/** Directories on a volume: creating, deleting, renaming and flushing run the entry operations
    of the file layer, and the entries on the volume stay those of the cached directory. */
module DirVolume {
  import opened Arithmetic
  import opened Basics
  import opened Content
  import opened DirEntries
  import opened DirLayout
  import opened DirSlots
  import opened DirStore
  import opened Directories
  import opened Volumes
  import Chains
  import DirNodes
  import DirReading
  import FileIO

  /** The file `f` holds exactly the slots of the cached directory. */
  ghost predicate Mirrors(v: Volume, f: Node, h: Heap, dir: DirNodes.Node)
    reads v, v.cmap.chunk, v.chains.Keys, f, dir`slots, dir`info
  {
    && IsDirectoryFile(v, f) && h == Heap(v.geo.count, v.geo.size) && v.cmap.Valid()
    && DirStore.Slots(v, f) == dir.slots && f.size == dir.info.size
  }

  lemma MirrorsIs(v: Volume, f: Node, h: Heap, dir: DirNodes.Node)
    requires Mirrors(v, f, h, dir)
    ensures IsDirectoryFile(v, f) && h == Heap(v.geo.count, v.geo.size) && v.cmap.Valid()
    ensures DirStore.Slots(v, f) == dir.slots && f.size == dir.info.size
    ensures FileIO.Valid(v) && v.Allocated() && f in v.chains
  {
  }

  lemma MirrorsFrom(v: Volume, f: Node, h: Heap, dir: DirNodes.Node)
    requires IsDirectoryFile(v, f) && h == Heap(v.geo.count, v.geo.size) && v.cmap.Valid()
    requires DirStore.Slots(v, f) == dir.slots && f.size == dir.info.size
    ensures Mirrors(v, f, h, dir)
  {
  }

  /** The chains and the bytes of all files but `f`. */
  ghost function Rest(v: Volume, f: Node): map<Node, (seq<nat>, seq<byte>)>
    reads v, v.chains.Keys
  {
    map m | m in v.chains && m != f :: (v.chains[m], FileIO.View(v, m))
  }

  /** A file and the free clusters together are no more than the heap. */
  lemma RoomBound(v: Volume, f: Node, h: Heap, size: nat)
    requires FileIO.Valid(v) && f in v.chains && h == Heap(v.geo.count, v.geo.size) && h.clusterSize > 0
    requires f.size % v.geo.size == 0 && size % v.geo.size == 0 && v.cmap.Valid()
    requires Clusters(h, size) <= Clusters(h, f.size) + FileIO.FreeCount(v)
    ensures size <= 0xffff_ffff * v.geo.size
  {
    hide Chains.Partition, Chains.RecordedAs, CeilDiv;
    FileIO.ChainCount(v, f);
    Exact(f.size, v.geo.size);
    Exact(size, v.geo.size);
    Chains.Conservation(v.cmap.Bits(), v.chains, v.reserved);
    Chains.PartOfTotal(v.chains, f);
    MulMonotone(Clusters(h, size), 0xffff_ffff, v.geo.size);
  }

  /** Gives the directory's file `size` bytes, for which there is room. */
  method ResizeFile(v: Volume, f: Node, h: Heap, size: nat)
    requires IsDirectoryFile(v, f) && h == Heap(v.geo.count, v.geo.size) && v.cmap.Valid()
    requires h.clusterSize > 0 && h.clusterSize % 32 == 0
    requires f.size % h.clusterSize == 0 && size % h.clusterSize == 0
    requires Clusters(h, size) <= Clusters(h, f.size) + FileIO.FreeCount(v)
    modifies v`fat, v`heap, v`chains, v`cmapDirty, v.cmap.chunk, f
    ensures IsDirectoryFile(v, f) && Rest(v, f) == old(Rest(v, f)) && f.size == size && v.cmap.Valid()
    ensures DirStore.Slots(v, f) == Resized(old(DirStore.Slots(v, f)), size / 32)
    ensures Clusters(h, size) + FileIO.FreeCount(v) == old(Clusters(h, f.size)) + old(FileIO.FreeCount(v))
  {
    hide IsDirectoryFile, DirStore.Slots, FileIO.FreeCount, FileIO.Valid, FileIO.View;
    Opened(v, f);
    if size == f.size {
      ResizedSame(DirStore.Slots(v, f));
      return;
    }
    RoomBound(v, f, h, size);
    var r := TruncateEntries(v, f, size);
  }

  /** Writes entries over those from slot `at` on. */
  method StoreEntries(v: Volume, f: Node, es: seq<Entry>, at: nat)
    requires IsDirectoryFile(v, f) && Sized(es) && es != [] && at + |es| <= |DirStore.Slots(v, f)|
    modifies v`fat, v`heap, v`chains, v`cmapDirty, v.cmap.chunk, f
    ensures IsDirectoryFile(v, f) && Rest(v, f) == old(Rest(v, f)) && f.size == old(f.size)
    ensures DirStore.Slots(v, f) == Patched(old(DirStore.Slots(v, f)), at, es)
    ensures v.cmap.Valid() && FileIO.FreeCount(v) == old(FileIO.FreeCount(v))
  {
    hide FileIO.FreeCount, FileIO.Valid, IsDirectoryFile, FileIO.View, DirStore.Slots;
    WriteEntries(v, f, es, 32 * at);
  }

  /** Reads a set of `n` entries, clears the bit that marks them as in use, and writes them back. */
  method EraseSet(v: Volume, f: Node, at: nat, n: nat)
    requires IsDirectoryFile(v, f) && n > 0 && at + n <= |DirStore.Slots(v, f)|
    modifies v`fat, v`heap, v`chains, v`cmapDirty, v.cmap.chunk, f
    ensures IsDirectoryFile(v, f) && Rest(v, f) == old(Rest(v, f)) && f.size == old(f.size)
    ensures DirStore.Slots(v, f) == EraseAt(old(DirStore.Slots(v, f)), at, n)
    ensures v.cmap.Valid() && FileIO.FreeCount(v) == old(FileIO.FreeCount(v))
  {
    hide FileIO.FreeCount, FileIO.Valid, FileIO.View, IsDirectoryFile, EraseAt, Patched, DirStore.Slots;
    ghost var was := DirStore.Slots(v, f);
    SmallFile(v, f);
    var r := ReadEntries(v, f, n, 32 * at);
    var es := EraseEntries(r.value, 0, n);
    ErasedPart(was, at, n);
    StoreEntries(v, f, es, at);
  }

  lemma ErasedPart(slots: seq<Entry>, at: nat, n: nat)
    requires Sized(slots) && at + n <= |slots|
    ensures var es := EraseAt(slots[at..at + n], 0, n);
            Sized(es) && |es| == n && Patched(slots, at, es) == EraseAt(slots, at, n)
  {
    var es := EraseAt(slots[at..at + n], 0, n);
    var a, b := Patched(slots, at, es), EraseAt(slots, at, n);
    assert forall p | 0 <= p < |slots| :: a[p] == b[p];
  }

  lemma SmallFile(v: Volume, f: Node)
    requires IsDirectoryFile(v, f)
    ensures f.size == 32 * |DirStore.Slots(v, f)| < 0x8000_0000_0000_0000
  {
    hide FileIO.Valid, SlotsOf, FileIO.View;
    FileIO.ChainSize(v, f);
    SmallSize(v);
    MulMonotone(v.geo.size, 0x200_0000, 0xffff_ffff);
  }

  lemma SmallSize(v: Volume)
    requires FileIO.Valid(v)
    ensures 0 < v.geo.size <= 0x200_0000
  {
  }

  /** Gives the directory's file `size` bytes, then writes entries over those from `at` on. */
  method WriteSet(v: Volume, f: Node, h: Heap, size: nat, es: seq<Entry>, at: nat)
    requires IsDirectoryFile(v, f) && h == Heap(v.geo.count, v.geo.size) && v.cmap.Valid()
    requires h.clusterSize > 0 && h.clusterSize % 32 == 0
    requires f.size % h.clusterSize == 0 && size % h.clusterSize == 0
    requires Clusters(h, size) <= Clusters(h, f.size) + FileIO.FreeCount(v)
    requires Sized(es) && es != [] && 32 * (at + |es|) <= size
    modifies v`fat, v`heap, v`chains, v`cmapDirty, v.cmap.chunk, f
    ensures IsDirectoryFile(v, f) && Rest(v, f) == old(Rest(v, f)) && f.size == size && v.cmap.Valid()
    ensures DirStore.Slots(v, f) == Patched(Resized(old(DirStore.Slots(v, f)), size / 32), at, es)
    ensures Clusters(h, size) + FileIO.FreeCount(v) == old(Clusters(h, f.size)) + old(FileIO.FreeCount(v))
  {
    hide *;
    ResizeFile(v, f, h, size);
    StoreEntries(v, f, es, at);
  }

  lemma StoredSet(before: seq<Entry>, after: seq<Entry>, at: nat, es: seq<Entry>)
    requires Stores(Resized(before, |after|), after, at, es)
    ensures Sized(es) && es != [] && at + |es| <= |after| && after == Patched(Resized(before, |after|), at, es)
  {
  }

  // ----- The operations -----

  method CreateOnVolume(v: Volume, f: Node, h: Heap, dir: DirNodes.Node, name: seq<nat>, attrib: nat, hash: nat,
                        t: Times)
      returns (rc: Status, node: DirNodes.Node?)
    requires Mirrors(v, f, h, dir) && Valid(h, dir) && Nameable(name) && attrib < 0x1_0000
    modifies v`fat, v`heap, v`chains, v`cmapDirty, v.cmap.chunk, f
    modifies dir`slots, dir`info, dir`dirty, dir`child, dir`kids, dir.kids`prev
    ensures Mirrors(v, f, h, dir) && Valid(h, dir) && Rest(v, f) == old(Rest(v, f)) && h.clusterSize > 0
    ensures rc == ENOSPC <==>
              ClustersFor(h, old(Items(dir)), old(dir.info.size), 2 + NameEntries(|name|))
              > Clusters(h, old(dir.info.size)) + old(FileIO.FreeCount(v))
    ensures rc == ENOSPC ==> dir.kids == old(dir.kids)
    ensures rc == OK ==>
              && node != null && fresh(node) && dir.kids == [node] + old(dir.kids)
              && node.info == Info(attrib, 1 + NameEntries(|name|), 0, 0, Chains.CLUSTER_FREE, false, name)
    ensures Clusters(h, dir.info.size) + FileIO.FreeCount(v)
            == Clusters(h, old(dir.info.size)) + old(FileIO.FreeCount(v))
  {
    hide *;
    MirrorsIs(v, f, h, dir);
    ValidParts(h, dir);
    var free := FileIO.CountFreeClusters(v);
    ghost var was, rest := dir.slots, Rest(v, f);
    var left, es;
    rc, left, node, es := Create(h, dir, name, attrib, hash, t, free);
    assert IsDirectoryFile(v, f) && DirStore.Slots(v, f) == was && FileIO.FreeCount(v) == free && Rest(v, f) == rest;
    if rc != OK {
      MirrorsFrom(v, f, h, dir);
      return;
    }
    ValidParts(h, dir);
    StoredSet(was, dir.slots, node.offset / 32, es);
    WriteSet(v, f, h, dir.info.size, es, node.offset / 32);
    MirrorsFrom(v, f, h, dir);
  }

  /** Erases a set, then gives the directory's file `size` bytes. */
  method CutSet(v: Volume, f: Node, h: Heap, at: nat, n: nat, size: nat)
    requires IsDirectoryFile(v, f) && h == Heap(v.geo.count, v.geo.size) && v.cmap.Valid()
    requires h.clusterSize > 0 && h.clusterSize % 32 == 0 && n > 0 && at + n <= |DirStore.Slots(v, f)|
    requires f.size % h.clusterSize == 0 && size % h.clusterSize == 0
    requires Clusters(h, size) <= Clusters(h, f.size) + FileIO.FreeCount(v)
    modifies v`fat, v`heap, v`chains, v`cmapDirty, v.cmap.chunk, f
    ensures IsDirectoryFile(v, f) && Rest(v, f) == old(Rest(v, f)) && f.size == size && v.cmap.Valid()
    ensures DirStore.Slots(v, f) == Resized(EraseAt(old(DirStore.Slots(v, f)), at, n), size / 32)
    ensures Clusters(h, size) + FileIO.FreeCount(v) == old(Clusters(h, f.size)) + old(FileIO.FreeCount(v))
  {
    hide *;
    EraseSet(v, f, at, n);
    ResizeFile(v, f, h, size);
  }

  lemma PrefixIsResized(a: seq<Entry>, b: seq<Entry>)
    requires a <= b
    ensures a == Resized(b, |a|)
  {
  }

  /** Deletes child `i`: its set is erased on the volume and the directory is cut. */
  method DeleteOnVolume(v: Volume, f: Node, h: Heap, dir: DirNodes.Node, node: DirNodes.Node, ghost i: nat)
    requires Mirrors(v, f, h, dir) && Valid(h, dir) && AllNormal(Items(dir))
    requires i < |dir.kids| && dir.kids[i] == node
    modifies v`fat, v`heap, v`chains, v`cmapDirty, v.cmap.chunk, f
    modifies dir`slots, dir`info, dir`dirty, dir`child, dir`kids, dir.kids`prev, dir.kids`next
    modifies node`parent, node`unlinked
    ensures Mirrors(v, f, h, dir) && Valid(h, dir) && Rest(v, f) == old(Rest(v, f)) && h.clusterSize > 0
    ensures dir.kids == Without(old(dir.kids), i) && Items(dir) == Without(old(Items(dir)), i) && node.unlinked
    ensures dir.info.size == CutSize(h, old(Items(dir)), i, old(dir.info.size))
    ensures Clusters(h, dir.info.size) + FileIO.FreeCount(v)
            == Clusters(h, old(dir.info.size)) + old(FileIO.FreeCount(v))
  {
    hide *;
    MirrorsIs(v, f, h, dir);
    ValidParts(h, dir);
    ChildFits(h, dir, i);
    ListStep(dir, i);
    NormalWithout(Items(dir), i);
    var free := FileIO.CountFreeClusters(v);
    ghost var slot, length := Items(dir)[i].slot, Items(dir)[i].Length();
    ghost var was, rest := dir.slots, Rest(v, f);
    var rc, left := Delete(h, dir, node, free, i);
    assert IsDirectoryFile(v, f) && DirStore.Slots(v, f) == was && FileIO.FreeCount(v) == free && Rest(v, f) == rest;
    ValidParts(h, dir);
    PrefixIsResized(dir.slots, EraseAt(was, slot, length));
    CutSet(v, f, h, node.offset / 32, 1 + node.info.continuations, dir.info.size);
    MirrorsFrom(v, f, h, dir);
  }

  /** Gives the directory's file `size` bytes, erases a set and writes another one. */
  method MoveSet(v: Volume, f: Node, h: Heap, size: nat, from: nat, n: nat, es: seq<Entry>, at: nat)
    requires IsDirectoryFile(v, f) && h == Heap(v.geo.count, v.geo.size) && v.cmap.Valid()
    requires h.clusterSize > 0 && h.clusterSize % 32 == 0 && n > 0 && 32 * (from + n) <= size
    requires f.size % h.clusterSize == 0 && size % h.clusterSize == 0
    requires Clusters(h, size) <= Clusters(h, f.size) + FileIO.FreeCount(v)
    requires Sized(es) && es != [] && 32 * (at + |es|) <= size
    modifies v`fat, v`heap, v`chains, v`cmapDirty, v.cmap.chunk, f
    ensures IsDirectoryFile(v, f) && Rest(v, f) == old(Rest(v, f)) && f.size == size && v.cmap.Valid()
    ensures DirStore.Slots(v, f)
            == Patched(EraseAt(Resized(old(DirStore.Slots(v, f)), size / 32), from, n), at, es)
    ensures Clusters(h, size) + FileIO.FreeCount(v) == old(Clusters(h, f.size)) + old(FileIO.FreeCount(v))
  {
    hide *;
    ResizeFile(v, f, h, size);
    EraseSet(v, f, from, n);
    StoreEntries(v, f, es, at);
  }

  lemma MovedSet(before: seq<Entry>, after: seq<Entry>, item: Item, at: nat, es: seq<Entry>)
    requires MovesSet(Resized(before, |after|), after, item, at, es)
    ensures Sized(es) && es != [] && at + |es| <= |after| && item.slot + item.Length() <= |after|
    ensures after == Patched(EraseAt(Resized(before, |after|), item.slot, item.Length()), at, es)
  {
  }

  /** Renames child `i` within the directory. */
  method RenameOnVolume(v: Volume, f: Node, h: Heap, dir: DirNodes.Node, node: DirNodes.Node, name: seq<nat>, hash: nat,
                        ghost i: nat) returns (rc: Status)
    requires Mirrors(v, f, h, dir) && Valid(h, dir) && i < |dir.kids| && dir.kids[i] == node && Nameable(name)
    modifies v`fat, v`heap, v`chains, v`cmapDirty, v.cmap.chunk, f
    modifies dir`slots, dir`info, dir`dirty, dir`child, dir`kids, dir.kids`prev, dir.kids`next
    modifies node`parent, node`offset, node`info, node`disk
    ensures Mirrors(v, f, h, dir) && Valid(h, dir) && Rest(v, f) == old(Rest(v, f)) && h.clusterSize > 0
    ensures rc == ENOSPC <==>
              ClustersFor(h, old(Items(dir)), old(dir.info.size), 2 + NameEntries(|name|))
              > Clusters(h, old(dir.info.size)) + old(FileIO.FreeCount(v))
    ensures rc == ENOSPC ==> dir.kids == old(dir.kids) && node.info == old(node.info)
    ensures rc == OK ==>
              && dir.kids == [node] + Without(old(dir.kids), i)
              && node.info == old(node.info).(continuations := 1 + NameEntries(|name|), name := name)
    ensures Clusters(h, dir.info.size) + FileIO.FreeCount(v)
            == Clusters(h, old(dir.info.size)) + old(FileIO.FreeCount(v))
  {
    hide *;
    MirrorsIs(v, f, h, dir);
    ValidParts(h, dir);
    LinkedDistinct(dir, i);
    ListStep(dir, i);
    var free := FileIO.CountFreeClusters(v);
    ghost var was, item := dir.slots, Items(dir)[i];
    var from, n := node.offset / 32, 1 + node.info.continuations;
    var left, es;
    ghost var rest := Rest(v, f);
    rc, left, es := Rename(h, dir, dir, node, name, hash, free, i);
    assert IsDirectoryFile(v, f) && DirStore.Slots(v, f) == was && FileIO.FreeCount(v) == free && Rest(v, f) == rest;
    if rc != OK {
      MirrorsFrom(v, f, h, dir);
      return;
    }
    ValidParts(h, dir);
    MovedSet(was, dir.slots, item, node.offset / 32, es);
    MoveSet(v, f, h, dir.info.size, from, n, es, node.offset / 32);
    MirrorsFrom(v, f, h, dir);
  }

  /** Frees the clusters of another file. */
  method ReleaseFile(v: Volume, f: Node, g: Node, h: Heap, dir: DirNodes.Node)
    requires Mirrors(v, f, h, dir) && g in v.chains && g != f && h.clusterSize > 0
    modifies v`fat, v`heap, v`chains, v`cmapDirty, v.cmap.chunk, g
    ensures Mirrors(v, f, h, dir) && v.chains.Keys == old(v.chains.Keys) && g.size == 0
    ensures FileIO.FreeCount(v) == old(FileIO.FreeCount(v)) + CeilDiv(old(g.size), h.clusterSize)
    ensures forall m | m in v.chains && m != g :: FileIO.View(v, m) == old(FileIO.View(v, m))
  {
    hide FileIO.Valid, FileIO.FreeCount, CeilDiv, SlotsOf, Geometry.View;
    FileIO.ChainCount(v, g);
    ghost var free := FileIO.FreeCount(v);
    MulMonotone(0, 0xffff_ffff, v.geo.size);
    NoClusters(v.geo.size);
    var r := FileIO.Truncate(v, g, 0, true);
    FileIO.ChainCount(v, g);
    Closed(v, f);
  }

  lemma RestKeys(v: Volume, f: Node, g: Node)
    requires g != f
    ensures g in v.chains <==> g in Rest(v, f)
  {
  }

  lemma NoClusters(size: nat)
    requires size > 0
    ensures CeilDiv(0, size) == 0
  {
    CeilDivWhole(0, size);
  }

  /** Deletes child `j` and frees the clusters of its file `g`. */
  method ClearTarget(v: Volume, f: Node, g: Node, h: Heap, dir: DirNodes.Node, existing: DirNodes.Node, ghost j: nat)
    requires Mirrors(v, f, h, dir) && Valid(h, dir) && AllNormal(Items(dir))
    requires j < |dir.kids| && dir.kids[j] == existing && g in v.chains && g != f
    modifies v`fat, v`heap, v`chains, v`cmapDirty, v.cmap.chunk, f, g
    modifies dir`slots, dir`info, dir`dirty, dir`child, dir`kids, dir.kids`prev, dir.kids`next
    modifies existing`parent, existing`unlinked
    ensures Mirrors(v, f, h, dir) && Valid(h, dir) && h.clusterSize > 0 && g.size == 0
    ensures dir.kids == Without(old(dir.kids), j) && Items(dir) == Without(old(Items(dir)), j)
    ensures Clusters(h, dir.info.size) + FileIO.FreeCount(v)
            == Clusters(h, old(dir.info.size)) + old(FileIO.FreeCount(v)) + CeilDiv(old(g.size), h.clusterSize)
  {
    hide *;
    MirrorsIs(v, f, h, dir);
    RestKeys(v, f, g);
    DeleteOnVolume(v, f, h, dir, existing, j);
    RestKeys(v, f, g);
    ReleaseFile(v, f, g, h, dir);
  }

  /** Renames child `i` over child `j`, whose file is `g`: when the new name needs no more entries
      than the old one, as for two names that compare equal, there is always room for it. */
  method ReplaceOnVolume(v: Volume, f: Node, g: Node, h: Heap, dir: DirNodes.Node, node: DirNodes.Node,
                         existing: DirNodes.Node, name: seq<nat>, hash: nat, ghost i: nat, ghost j: nat)
      returns (rc: RenameStatus)
    requires Mirrors(v, f, h, dir) && Valid(h, dir) && AllNormal(Items(dir)) && Nameable(name)
    requires i < |dir.kids| && dir.kids[i] == node && j < |dir.kids| && dir.kids[j] == existing && existing != node
    requires g in v.chains && g != f && g.size == existing.info.size
    requires NameEntries(|name|) <= NameEntries(|existing.info.name|)
    modifies v`fat, v`heap, v`chains, v`cmapDirty, v.cmap.chunk, f, g
    modifies dir`slots, dir`info, dir`dirty, dir`child, dir`kids, dir.kids`prev, dir.kids`next
    modifies node`parent, node`offset, node`info, node`disk, existing`parent, existing`unlinked
    ensures Mirrors(v, f, h, dir) && Valid(h, dir) && h.clusterSize > 0
    ensures rc == Refusal(IsDirectory(old(node.info.attrib)), IsDirectory(old(existing.info.attrib)),
                          old(existing.child) == null)
    ensures rc != Renamed ==> dir.kids == old(dir.kids) && FileIO.FreeCount(v) == old(FileIO.FreeCount(v))
    ensures rc == Renamed ==>
              && dir.kids == [node] + Without(Without(old(dir.kids), j), if i < j then i else i - 1)
              && node.info == old(node.info).(continuations := 1 + NameEntries(|name|), name := name)
              && g.size == 0
              && Clusters(h, dir.info.size) + FileIO.FreeCount(v)
                 == Clusters(h, old(dir.info.size)) + old(FileIO.FreeCount(v))
                    + CeilDiv(old(existing.info.size), h.clusterSize)
  {
    hide *;
    ValidParts(h, dir);
    MirrorsIs(v, f, h, dir);
    rc := Refusal(IsDirectory(node.info.attrib), IsDirectory(existing.info.attrib), existing.child == null);
    if rc != Renamed {
      return;
    }
    var n := 2 + NameEntries(|name|);
    ghost var items, size, k := Items(dir), dir.info.size, if i < j then i else i - 1;
    TargetLength(h, dir, j);
    ReplacementFits(h, size, items, j, n);
    LinkedDistinct(dir, j);
    ClearTarget(v, f, g, h, dir, existing, j);
    ReplacedRoom(h, items, j, dir.info.size, n, Clusters(h, dir.info.size) + FileIO.FreeCount(v));
    var status := RenameOnVolume(v, f, h, dir, node, name, hash, k);
  }

  /** Writes a child's fields into its set on the volume. */
  method FlushOnVolume(v: Volume, f: Node, h: Heap, dir: DirNodes.Node, node: DirNodes.Node, t: Times, ghost i: nat)
    requires Mirrors(v, f, h, dir) && Valid(h, dir) && i < |dir.kids| && dir.kids[i] == node
    requires h.clusterSize > 0 && Sound(h, Stored(node.info)) && Storable(node.info)
    modifies v`fat, v`heap, v`chains, v`cmapDirty, v.cmap.chunk, f
    modifies dir`slots, node`dirty, node`disk
    ensures Mirrors(v, f, h, dir) && Valid(h, dir) && Rest(v, f) == old(Rest(v, f))
    ensures !node.dirty && node.disk == Stored(node.info) && Items(dir) == old(Items(dir))[i := ItemOf(node)]
    ensures FileIO.FreeCount(v) == old(FileIO.FreeCount(v))
  {
    hide *;
    MirrorsIs(v, f, h, dir);
    var dirty := node.dirty;
    var shaped, es := FlushNode(h, dir, node, t, i);
    if dirty {
      StoresWhat(old(dir.slots), dir.slots, node.offset / 32, es);
      StoreEntries(v, f, es, node.offset / 32);
    }
    MirrorsFrom(v, f, h, dir);
  }

  lemma StoresWhat(before: seq<Entry>, after: seq<Entry>, at: nat, es: seq<Entry>)
    requires Stores(before, after, at, es)
    ensures Sized(es) && es != [] && at + |es| <= |before| && after == Patched(before, at, es)
  {
  }

  /** The bytes of the directory's file read back as exactly its children, in slot order. */
  lemma VolumeFinds(v: Volume, f: Node, h: Heap, dir: DirNodes.Node, loaded: bool)
    requires Mirrors(v, f, h, dir) && Valid(h, dir)
    ensures h.clusterSize > 0 && DirReading.ReadFrom(h, loaded, SlotsOf(FileIO.View(v, f)), 0).Some?
    ensures var found := DirReading.ReadFrom(h, loaded, SlotsOf(FileIO.View(v, f)), 0).value;
            DirReading.Sorted(found) && forall x :: x in found <==> x in Items(dir)
  {
    hide Valid, FileIO.Valid, SlotsOf, FileIO.View, Items;
    DirReading.RereadFinds(h, loaded, dir);
  }
}
