/** Directories on the volume: reading, writing and truncating entries through the file layer
    does to the entries what the directory layer takes for granted. */
module DirStore {
  import opened Arithmetic
  import opened Basics
  import opened Chains
  import opened Content
  import opened DirEntries
  import opened DirLayout
  import opened Volumes
  import FileIO

  /** The entries a directory's bytes hold. */
  function SlotsOf(bytes: seq<byte>): (slots: seq<Entry>)
    requires |bytes| % 32 == 0
    ensures |slots| == |bytes| / 32 && Sized(slots)
  {
    seq(|bytes| / 32, i requires 0 <= i < |bytes| / 32 => bytes[32 * i..32 * i + 32])
  }

  function BytesOf(es: seq<Entry>): (s: seq<byte>)
    requires Sized(es)
    ensures |s| == 32 * |es|
  {
    if es == [] then [] else es[0] + BytesOf(es[1..])
  }

  lemma {:induction false} BytesAt(es: seq<Entry>, i: nat)
    requires Sized(es) && i < |es|
    ensures BytesOf(es)[32 * i..32 * i + 32] == es[i]
    decreases i
  {
    if i > 0 {
      BytesAt(es[1..], i - 1);
      assert BytesOf(es)[32..] == BytesOf(es[1..]);
      assert BytesOf(es)[32 * i..32 * i + 32] == BytesOf(es)[32..][32 * (i - 1)..32 * (i - 1) + 32];
    }
  }

  /** Resizing the bytes by whole entries resizes the entries, with blank ones at the end. */
  lemma ResizeSlots(bytes: seq<byte>, n: nat)
    requires |bytes| % 32 == 0
    ensures 32 * n % 32 == 0 && SlotsOf(FileIO.Resize(bytes, 32 * n)) == Resized(SlotsOf(bytes), n)
  {
    var r := FileIO.Resize(bytes, 32 * n);
    var s := Resized(SlotsOf(bytes), n);
    forall i | 0 <= i < n
      ensures r[32 * i..32 * i + 32] == s[i]
    {
      ResizeSlot(bytes, n, i);
    }
  }

  lemma ResizeSlot(bytes: seq<byte>, n: nat, i: nat)
    requires |bytes| % 32 == 0 && i < n
    ensures var r := FileIO.Resize(bytes, 32 * n);
            && |r| == 32 * n
            && r[32 * i..32 * i + 32] == if i < |bytes| / 32 then bytes[32 * i..32 * i + 32] else BLANK
  {
    var r := FileIO.Resize(bytes, 32 * n);
    if i >= |bytes| / 32 {
      assert forall j | 32 * i <= j < 32 * i + 32 :: r[j] == 0;
    }
  }

  lemma SliceOfPatch(s: seq<byte>, p: nat, d: seq<byte>, x: nat, y: nat)
    requires p + |d| <= |s| && x <= y <= |s|
    ensures y <= p || p + |d| <= x ==> Patched(s, p, d)[x..y] == s[x..y]
    ensures p <= x && y <= p + |d| ==> Patched(s, p, d)[x..y] == d[x - p..y - p]
  {
    hide Patched;
    forall k | x <= k < y
      ensures Patched(s, p, d)[k] == if p <= k < p + |d| then d[k - p] else s[k]
    {
      PatchedAt(s, p, d, k);
    }
  }

  /** Overwriting bytes by whole entries writes those entries. */
  lemma WriteSlots(bytes: seq<byte>, a: nat, es: seq<Entry>)
    requires |bytes| % 32 == 0 && Sized(es) && 32 * a + 32 * |es| <= |bytes|
    ensures var w := FileIO.Overwritten(bytes, 32 * a, BytesOf(es));
            |w| == |bytes| && SlotsOf(w) == Patched(SlotsOf(bytes), a, es)
  {
    hide BytesOf;
    var d := BytesOf(es);
    var w := FileIO.Overwritten(bytes, 32 * a, d);
    assert w == Patched(bytes, 32 * a, d);
    var s := Patched(SlotsOf(bytes), a, es);
    forall i | 0 <= i < |bytes| / 32
      ensures w[32 * i..32 * i + 32] == s[i]
    {
      SliceOfPatch(bytes, 32 * a, d, 32 * i, 32 * i + 32);
      if a <= i < a + |es| {
        BytesAt(es, i - a);
      }
    }
  }

  /** Part of the bytes, cut at entries, holds part of the entries. */
  lemma ReadSlots(bytes: seq<byte>, a: nat, n: nat)
    requires |bytes| % 32 == 0 && 32 * a + 32 * n <= |bytes|
    ensures SlotsOf(bytes[32 * a..32 * a + 32 * n]) == SlotsOf(bytes)[a..a + n]
  {
    var t := bytes[32 * a..32 * a + 32 * n];
    forall i | 0 <= i < n
      ensures t[32 * i..32 * i + 32] == bytes[32 * (a + i)..32 * (a + i) + 32]
    {
      SliceOfSlice(bytes, 32 * a, 32 * a + 32 * n, 32 * i, 32 * i + 32);
    }
  }

  // ----- The operations, on the volume -----

  /** A directory's file: whole entries, all of them initialised. */
  ghost predicate IsDirectoryFile(v: Volume, n: Node)
    reads v, v.cmap.chunk, v.chains.Keys, n
  {
    FileIO.Valid(v) && n in v.chains && n.size % 32 == 0 && n.validSize == n.size
  }

  ghost function Slots(v: Volume, n: Node): (slots: seq<Entry>)
    requires IsDirectoryFile(v, n)
    reads v, v.cmap.chunk, v.chains.Keys, n
    ensures 32 * |slots| == n.size && Sized(slots)
  {
    SlotsOf(FileIO.View(v, n))
  }

  lemma Opened(v: Volume, n: Node)
    requires IsDirectoryFile(v, n)
    ensures FileIO.Valid(v) && n in v.chains && n.size % 32 == 0 && n.validSize == n.size
    ensures Slots(v, n) == SlotsOf(FileIO.View(v, n)) && 0 < v.geo.size
  {
  }

  lemma Closed(v: Volume, n: Node)
    requires FileIO.Valid(v) && n in v.chains && n.size % 32 == 0 && n.validSize == n.size
    ensures IsDirectoryFile(v, n) && Slots(v, n) == SlotsOf(FileIO.View(v, n))
  {
  }

  /** Reads `count` entries, if there are that many from the offset on. */
  method ReadEntries(v: Volume, n: Node, count: nat, offset: nat) returns (r: Option<seq<Entry>>)
    requires IsDirectoryFile(v, n) && offset % 32 == 0 && count > 0
    requires offset < 0x8000_0000_0000_0000 && 32 * count < 0x8000_0000_0000_0000
    modifies n`fptrIndex, n`fptrCluster
    ensures IsDirectoryFile(v, n) && Slots(v, n) == old(Slots(v, n))
    ensures r.Some? <==> offset / 32 + count <= |Slots(v, n)|
    ensures r.Some? ==> r.value == Slots(v, n)[offset / 32..offset / 32 + count]
  {
    hide Geometry.View, SlotsOf, FileIO.Valid, IsDirectoryFile, Slots;
    Opened(v, n);
    var buffer := new byte[32 * count];
    var size := FileIO.Read(v, n, buffer, 32 * count, offset);
    Closed(v, n);
    if size != 32 * count {
      return None;
    }
    ReadSlots(FileIO.View(v, n), offset / 32, count);
    assert buffer[..size] == buffer[..];
    return Some(SlotsOf(buffer[..]));
  }

  /** An initialised file shows no stale bytes, wherever inside it a write starts. */
  lemma WriteHasPlainMeaning(bytes: seq<byte>, disk: seq<byte>, offset: nat, buf: seq<byte>)
    requires |disk| == |bytes| && offset <= |bytes|
    ensures FileIO.AfterWrite(bytes, |bytes|, disk, offset, buf) == FileIO.Overwritten(bytes, offset, buf)
  {
  }

  /** Writes entries inside the directory. */
  method WriteEntries(v: Volume, n: Node, es: seq<Entry>, offset: nat)
    requires IsDirectoryFile(v, n) && Sized(es) && es != [] && offset % 32 == 0 && offset + 32 * |es| <= n.size
    modifies v`fat, v`heap, v`chains, v`cmapDirty, v.cmap.chunk, n
    ensures IsDirectoryFile(v, n) && FileIO.OthersUntouched(v, n)
    ensures Slots(v, n) == Patched(old(Slots(v, n)), offset / 32, es) && n.size == old(n.size)
    ensures v.cmap.Valid() && FileIO.FreeCount(v) == old(FileIO.FreeCount(v))
  {
    hide FileIO.View, SlotsOf, FileIO.Valid, IsDirectoryFile, Slots, BytesOf, Patched;
    hide FileIO.AfterWrite, FileIO.Overwritten, CeilDiv, FileIO.DiskOf, FileIO.Covered, FileIO.Positions;
    hide FileIO.OthersUntouched, FileIO.FreeCount;
    Opened(v, n);
    FileIO.ChainSize(v, n);
    ghost var was, disk := FileIO.View(v, n), FileIO.DiskOf(v, n);
    CeilDivBounds(n.size, v.geo.size, |v.chains[n]|);
    FileIO.ChainCount(v, n);
    WriteHasPlainMeaning(was, disk, offset, BytesOf(es));
    WriteSlots(was, offset / 32, es);
    var r, runs := FileIO.Write(v, n, BytesOf(es), offset);
    FileIO.ChainCount(v, n);
    Closed(v, n);
  }

  /** Truncates the directory to whole clusters, blank entries in the new ones. */
  method TruncateEntries(v: Volume, n: Node, size: nat) returns (r: Status)
    requires IsDirectoryFile(v, n) && v.geo.size % 32 == 0
    requires n.size % v.geo.size == 0 && size % v.geo.size == 0 && size <= 0xffff_ffff * v.geo.size
    modifies v`fat, v`heap, v`chains, v`cmapDirty, v.cmap.chunk, n
    ensures IsDirectoryFile(v, n) && FileIO.OthersUntouched(v, n)
    ensures r.ENOSPC? <==> size / v.geo.size > old(n.size) / v.geo.size + old(FileIO.FreeCount(v))
    ensures r.ENOSPC? ==> Slots(v, n) == old(Slots(v, n)) && n.size == old(n.size)
    ensures r.OK? ==> n.size == size && Slots(v, n) == Resized(old(Slots(v, n)), size / 32)
    ensures v.cmap.Valid() && v.geo.size > 0
    ensures n.size / v.geo.size + FileIO.FreeCount(v) == old(n.size) / v.geo.size + old(FileIO.FreeCount(v))
  {
    hide Geometry.View, SlotsOf, FileIO.Valid, IsDirectoryFile, Slots;
    hide CeilDiv, FileIO.OthersUntouched, FileIO.FreeCount, FileIO.Resize;
    Opened(v, n);
    WholeClusters(v, n, size);
    ghost var was := FileIO.View(v, n);
    ResizeSlots(was, size / 32);
    FileIO.ChainCount(v, n);
    r := FileIO.Truncate(v, n, size, true);
    WholeClusters(v, n, size);
    FileIO.ChainCount(v, n);
    Closed(v, n);
  }

  /** Whole clusters are whole entries, and their number is a plain quotient. */
  lemma WholeClusters(v: Volume, n: Node, size: nat)
    requires FileIO.Valid(v) && n in v.chains && v.geo.size % 32 == 0
    requires n.size % v.geo.size == 0 && size % v.geo.size == 0
    ensures 0 < v.geo.size && size == 32 * (size / 32) && size % 32 == 0
    ensures CeilDiv(size, v.geo.size) == size / v.geo.size && |v.chains[n]| == n.size / v.geo.size
  {
    hide CeilDiv, Partition, RecordedAs;
    assert FileIO.Sized(v, n);
    Exact(size, v.geo.size);
    Exact(n.size, v.geo.size);
    var q, m := size / v.geo.size, v.geo.size / 32;
    Remainder(size, q * m, 32, 0);
  }

  lemma Exact(x: nat, d: nat)
    requires d > 0 && x % d == 0
    ensures CeilDiv(x, d) == x / d && x == x / d * d
  {
    hide CeilDiv;
    var k := x / d;
    CeilDivBounds(x, d, k);
    if k > 0 {
      CeilDivBounds(x, d, k - 1);
    }
  }
}
