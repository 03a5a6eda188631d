/** The file layer and the directory layer meet: whatever truncating and writing make of a
    file on a valid volume, its node can be flushed and read back. */
module NodeState {
  import opened Arithmetic
  import opened Basics
  import opened Chains
  import opened DirEntries
  import FileIO
  import Utf
  import Volumes

  /** A file of the volume as its directory entry describes it. */
  ghost function Recorded(n: Volumes.Node, attrib: nat, continuations: nat, name: seq<nat>): Info
    reads n
  {
    Info(attrib, continuations, n.validSize, n.size, n.startCluster, n.isContiguous, name)
  }

  lemma FileIsSound(v: Volumes.Volume, n: Volumes.Node, attrib: nat, continuations: nat, name: seq<nat>)
    requires FileIO.Valid(v) && n in v.chains && attrib < 0x1_0000
    requires IsDirectory(attrib) ==> n.size % v.geo.size == 0
    ensures v.geo.size > 0
    ensures Sound(Heap(v.geo.count, v.geo.size), Stored(Recorded(n, attrib, continuations, name)))
    ensures Storable(Recorded(n, attrib, continuations, name))
  {
    hide Walkable, Terminated, Partition;
    assert v.Recorded(n) && FileIO.Sized(v, n);
    var s := v.chains[n];
    ChainFacts(v.cmap.Bits(), v.chains, v.reserved, n);
    NoMoreThan(v.geo.count, s);
    CeilDivBounds(n.size, v.geo.size, v.geo.count);
    CeilDivBounds(n.size, v.geo.size, 0);
    assert s != [] ==> ValidCluster(v.geo.count, s[0]);
    Bounded(v.geo.count, v.geo.size);
  }

  lemma Bounded(count: nat, size: nat)
    requires count <= 0xffff_fff5 && size <= 0x200_0000
    ensures count * size < 0x1_0000_0000_0000_0000
  {
    assert count * size <= 0xffff_fff5 * 0x200_0000 by {
      assert count * size <= 0xffff_fff5 * size;
    }
  }

  /** A path component that converts to UTF-16 without a zero, in the room there is, is a name
      that can be stored. */
  lemma ComponentIsNameable(s: seq<byte>)
    requires s != [] && Utf.To16(s).Some? && Utf.NulFree(Utf.To16(s).value) && |Utf.To16(s).value| <= NAME_MAX
    ensures Nameable(Utf.To16(s).value)
  {
    hide Utf.To16;
    Utf.To16Units(s);
  }
}
