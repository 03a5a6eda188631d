/** A mounted exFAT volume: the allocation bitmap, the FAT and the cluster heap, changed in
    place by growing, shrinking, reading and writing the files on it. */
module Volumes {
  import opened Arithmetic
  import opened Basics
  import opened Bitmaps
  import opened Chains
  import opened Content

  datatype Status = OK | ENOSPC

  /** The in-core node of one file or directory. */
  class Node {
    var startCluster: nat
    var isContiguous: bool
    var isDirty: bool
    var size: nat
    var validSize: nat
    /** Cached file pointer: cluster number `fptrIndex` of the file is `fptrCluster`. */
    var fptrIndex: nat
    var fptrCluster: nat

    /** An empty file. */
    constructor ()
      ensures startCluster == CLUSTER_FREE && !isContiguous && !isDirty && size == 0 && validSize == 0
      ensures fptrIndex == 0 && fptrCluster == CLUSTER_FREE
    {
      startCluster, isContiguous, isDirty, size, validSize := CLUSTER_FREE, false, false, 0, 0;
      fptrIndex, fptrCluster := 0, CLUSTER_FREE;
    }
  }

  class Volume {
    const geo: Geometry
    const cmap: Bitmap
    var cmapDirty: bool
    var fat: seq<nat>
    var heap: seq<byte>

    /** The clusters of every file, in file order. */
    ghost var chains: map<Node, seq<nat>>
    /** Clusters in use by no node: the bitmap itself, the upper case table, bad clusters. */
    ghost const reserved: set<nat>

    constructor (geo: Geometry, cmap: Bitmap, fat: seq<nat>, heap: seq<byte>,
                 ghost chains: map<Node, seq<nat>>, ghost reserved: set<nat>)
      ensures this.geo == geo && this.cmap == cmap && this.fat == fat && this.heap == heap
      ensures this.chains == chains && this.reserved == reserved && !cmapDirty
    {
      this.geo := geo;
      this.cmap := cmap;
      this.cmapDirty := false;
      this.fat := fat;
      this.heap := heap;
      this.chains := chains;
      this.reserved := reserved;
    }

    ghost predicate Shape()
      reads `fat, `heap
    {
      && 0 < geo.size && geo.count <= MAX_CLUSTER_COUNT
      && cmap.Valid() && cmap.size == geo.count
      && |fat| == geo.count + FIRST_DATA_CLUSTER
      && geo.Fits(heap)
    }

    ghost predicate Attached(n: Node)
      reads `fat, `chains, n`isContiguous, n`startCluster, n`fptrIndex, n`fptrCluster
    {
      n in chains && AttachedAs(fat, chains[n], n.isContiguous, n.startCluster, n.fptrIndex, n.fptrCluster)
    }

    ghost predicate Recorded(n: Node)
      reads `fat, `chains, n`isContiguous, n`startCluster, n`fptrIndex, n`fptrCluster
    {
      n in chains && RecordedAs(fat, chains[n], n.isContiguous, n.startCluster, n.fptrIndex, n.fptrCluster)
    }

    ghost predicate Allocated()
      reads `fat, `heap, `chains, cmap.chunk
    {
      Shape() && Partition(cmap.Bits(), chains, reserved)
    }

    /** Every file but `n` is recorded. */
    ghost predicate OthersRecorded(n: Node)
      reads `fat, `chains, chains.Keys`isContiguous, chains.Keys`startCluster, chains.Keys`fptrIndex,
        chains.Keys`fptrCluster
    {
      forall m | m in chains && m != n :: Recorded(m)
    }

    ghost predicate AllRecorded()
      reads `fat, `chains, chains.Keys`isContiguous, chains.Keys`startCluster, chains.Keys`fptrIndex,
        chains.Keys`fptrCluster
    {
      forall m | m in chains :: Recorded(m)
    }

    /** The cluster level of the volume is consistent. */
    ghost predicate ClustersValid()
      reads `fat, `heap, `chains, cmap.chunk, chains.Keys`isContiguous, chains.Keys`startCluster, chains.Keys`fptrIndex,
        chains.Keys`fptrCluster
    {
      Allocated() && AllRecorded()
    }

    /** The cluster that follows `c` in file `n`. */
    function NextCluster(n: Node, c: nat): (next: nat)
      requires ValidCluster(geo.count, c) && Shape()
      reads this, n
    {
      if n.isContiguous then c + 1 else fat[c]
    }

    /** Moves the cached file pointer to cluster number `count` of the file, going back to
        the start only when it is already past it. */
    method AdvanceCluster(n: Node, count: nat) returns (c: nat)
      requires Shape() && Attached(n) && InRange(geo.count, chains[n]) && count < |chains[n]|
      modifies n`fptrIndex, n`fptrCluster
      ensures c == chains[n][count] && Attached(n) && n.fptrIndex == count && n.fptrCluster == c
      ensures old(Recorded(n)) ==> Recorded(n)
    {
      if n.fptrIndex > count {
        n.fptrIndex := 0;
        n.fptrCluster := n.startCluster;
      }
      var i := n.fptrIndex;
      ghost var s := chains[n];
      while i < count
        invariant n.fptrIndex <= i <= count
        invariant n.fptrCluster == s[i]
      {
        assert ValidCluster(geo.count, s[i]);
        n.fptrCluster := NextCluster(n, n.fptrCluster);
        i := i + 1;
      }
      n.fptrIndex := count;
      c := n.fptrCluster;
    }

    /** Takes the first free cluster at or after `hint`, wrapping around once. */
    method AllocateCluster(hint: nat) returns (c: nat)
      requires Shape() && hint < 0x1_0000_0000
      modifies cmap.chunk, this`cmapDirty
      ensures c == CLUSTER_END <==> FreeClusters(old(cmap.Bits())) == {}
      ensures c == CLUSTER_END ==> cmap.Bits() == old(cmap.Bits())
      ensures c != CLUSTER_END ==>
                && FreeBit(old(cmap.Bits()), c)
                && cmap.Bits() == old(cmap.Bits())[c - FIRST_DATA_CLUSTER := true]
                && NearestFree(old(cmap.Bits()), hint, c) && cmapDirty
    {
      hide FreeBit, FreeClusters, NearestFree;
      var start := (hint + 0x1_0000_0000 - FIRST_DATA_CLUSTER) % 0x1_0000_0000;
      if start >= cmap.size {
        start := 0;
      }
      ghost var bits := cmap.Bits();
      StartOfSearch(hint, cmap.size);
      c := cmap.FindBitAndSet(start, cmap.size);
      if c == CLUSTER_END {
        c := cmap.FindBitAndSet(0, start);
      }
      if c == CLUSTER_END {
        NothingFree(bits, start);
        return;
      }
      FirstFit(bits, hint, start, c);
      cmapDirty := true;
    }

    /** Cluster `c` is on no other file's chain. */
    ghost predicate NotOnOthers(n: Node, c: nat)
      reads this
    {
      forall m | m in chains && m != n :: c !in chains[m]
    }

    /** Writes one FAT entry unless the file is contiguous. */
    method SetNextCluster(contiguous: bool, current: nat, next: nat)
      requires Shape() && ValidCluster(geo.count, current)
      modifies this`fat
      ensures fat == if contiguous then old(fat) else old(fat)[current := next]
      ensures Shape()
      ensures forall m | m in chains && current !in chains[m] && old(Recorded(m)) :: Recorded(m)
    {
      hide RecordedAs;
      if contiguous {
        return;
      }
      fat := fat[current := next];
      forall m | m in chains && current !in chains[m] && old(Recorded(m))
        ensures Recorded(m)
      {
        FatElsewhere(old(fat), current, next, chains[m], m.isContiguous, m.startCluster, m.fptrIndex, m.fptrCluster);
      }
    }

    /** Records a contiguous file's clusters in the FAT. */
    method MakeNoncontiguous(ghost n: Node, ghost s: seq<nat>, first: nat, last: nat)
      requires Shape() && OthersRecorded(n)
      requires s != [] && Consecutive(s) && InRange(geo.count, s)
      requires forall i | 0 <= i < |s| :: NotOnOthers(n, s[i])
      requires first == s[0] && last == s[|s| - 1]
      modifies this`fat
      ensures Shape() && OthersRecorded(n) && Linked(fat, s)
    {
      hide RecordedAs;
      var c := first;
      while c < last
        invariant first <= c <= last
        invariant Shape() && OthersRecorded(n)
        invariant forall i | 0 <= i < c - first :: fat[s[i]] == s[i + 1]
      {
        assert s[c - first] == c && s[c - first + 1] == c + 1;
        SetNextCluster(false, c, c + 1);
        c := c + 1;
      }
    }

    /** Frees one cluster that is on no chain any more and returns the one that followed it. */
    method ReleaseCluster(n: Node, c: nat, ghost pending: set<nat>) returns (next: nat)
      requires Shape() && n in chains && AllRecorded()
      requires Partition(cmap.Bits(), chains, pending) && c in pending && ValidCluster(geo.count, c)
      modifies this`fat, this`cmapDirty, cmap.chunk
      ensures Shape() && AllRecorded() && Partition(cmap.Bits(), chains, pending - {c}) && cmapDirty
      ensures next == if n.isContiguous then c + 1 else old(fat)[c]
      ensures fat == if n.isContiguous then old(fat) else old(fat)[c := CLUSTER_FREE]
    {
      hide Partition;
      hide RecordedAs;
      PendingIsUnused(cmap.Bits(), chains, pending, c);
      next := NextCluster(n, c);
      SetNextCluster(n.isContiguous, c, CLUSTER_FREE);
      FreeKeepsPartition(cmap.Bits(), chains, pending, c);
      cmap.Clear(c - FIRST_DATA_CLUSTER);
      cmapDirty := true;
    }

    /** Frees the clusters `tail`, which are on no chain any more, starting from the first. */
    method FreeTail(n: Node, ghost tail: seq<nat>, first: nat, difference: nat)
      requires Shape() && n in chains && AllRecorded()
      requires Partition(cmap.Bits(), chains, reserved + ToSet(tail)) && NoDuplicates(tail)
      requires forall i | 0 <= i < |tail| :: tail[i] !in reserved
      requires TailWalkable(fat, tail, 0, n.isContiguous)
      requires difference == |tail| && (tail != [] ==> first == tail[0])
      modifies this`fat, this`cmapDirty, cmap.chunk
      ensures ClustersValid() && (tail != [] ==> cmapDirty)
      ensures !n.isContiguous ==> Released(fat, tail, |tail|)
    {
      hide Partition;
      hide RecordedAs;
      hide TailWalkable;
      hide Released;
      var previous := first;
      var left := difference;
      ghost var i := 0;
      ghost var pending := reserved + ToSet(tail);
      assert tail[0..] == tail;
      NoneReleased(fat, tail);
      while left > 0
        invariant 0 <= i <= |tail| && left == |tail| - i
        invariant i < |tail| ==> previous == tail[i]
        invariant TailWalkable(fat, tail, i, n.isContiguous)
        invariant !n.isContiguous ==> Released(fat, tail, i)
        invariant Shape() && AllRecorded() && (i > 0 ==> cmapDirty)
        invariant pending == reserved + ToSet(tail[i..])
        invariant Partition(cmap.Bits(), chains, pending)
      {
        left := left - 1;
        TailSet(tail, i);
        PendingIsUnused(cmap.Bits(), chains, pending, previous);
        TailStep(fat, tail, i, n.isContiguous, CLUSTER_FREE);
        OneMoreReleased(fat, tail, i);
        previous := ReleaseCluster(n, previous, pending);
        pending := pending - {tail[i]};
        i := i + 1;
      }
      assert pending == reserved;
    }

    /** Cuts a file after its first `keep` clusters and returns the first cluster cut off. */
    method CropFile(n: Node, current: nat, keep: nat) returns (previous: nat)
      requires Shape() && OthersRecorded(n) && Attached(n)
      requires current == |chains[n]| && keep < current
      requires InRange(geo.count, chains[n]) && NoDuplicates(chains[n])
      requires forall i | 0 <= i < |chains[n]| :: NotOnOthers(n, chains[n][i])
      modifies this`fat, this`chains
      modifies n`startCluster, n`fptrIndex, n`fptrCluster, n`isDirty
      ensures Shape() && AllRecorded()
      ensures chains == old(chains)[n := old(chains)[n][..keep]]
      ensures previous == old(chains)[n][keep] && TailWalkable(fat, old(chains)[n][keep..], 0, n.isContiguous)
    {
      hide RecordedAs;
      hide AttachedAs;
      hide TailWalkable;
      ghost var s := chains[n];
      WalkStep(fat, s, n.isContiguous, n.startCluster, n.fptrIndex, n.fptrCluster, if keep == 0 then 0 else keep - 1);
      CropRecords(fat, s, n.isContiguous, n.startCluster, n.fptrIndex, n.fptrCluster, keep);
      if keep > 0 {
        var last := AdvanceCluster(n, keep - 1);
        previous := NextCluster(n, last);
        SetNextCluster(n.isContiguous, last, CLUSTER_END);
      } else {
        previous := n.startCluster;
        n.startCluster := CLUSTER_FREE;
        n.isDirty := true;
      }
      n.fptrIndex := 0;
      n.fptrCluster := n.startCluster;
      chains := chains[n := s[..keep]];
    }

    /** Cuts the last `difference` of a file's `current` clusters and frees them. */
    method ShrinkFile(n: Node, current: nat, difference: nat)
      requires Allocated() && OthersRecorded(n) && Attached(n)
      requires current == |chains[n]| && 0 < difference <= current
      modifies this`fat, this`chains, this`cmapDirty, cmap.chunk
      modifies n`startCluster, n`fptrIndex, n`fptrCluster, n`isDirty
      ensures ClustersValid() && cmapDirty
      ensures chains == old(chains)[n := old(chains)[n][..current - difference]]
      ensures !n.isContiguous ==> Released(fat, old(chains)[n][current - difference..], difference)
    {
      hide Partition;
      hide RecordedAs;
      hide AttachedAs;
      ghost var s := chains[n];
      ghost var keep := current - difference;
      ChainFacts(cmap.Bits(), chains, reserved, n);
      CutKeepsPartition(cmap.Bits(), chains, reserved, n, keep);
      var previous := CropFile(n, current, current - difference);
      FreeTail(n, s[keep..], previous, difference);
    }
  
    /** Appends one cluster to a non-empty file, giving up contiguity when the cluster does
        not follow the last one; `next` is the end marker when the volume is full. */
    method ExtendFile(n: Node, previous: nat) returns (next: nat)
      requires Allocated() && OthersRecorded(n) && Attached(n)
      requires chains[n] != [] && previous == chains[n][|chains[n]| - 1]
      modifies this`fat, this`chains, this`cmapDirty, cmap.chunk, n`isContiguous, n`isDirty
      ensures Allocated() && OthersRecorded(n) && Attached(n)
      ensures next == CLUSTER_END <==> FreeClusters(old(cmap.Bits())) == {}
      ensures next == CLUSTER_END ==>
                && chains == old(chains) && fat == old(fat) && n.isContiguous == old(n.isContiguous)
                && cmap.Bits() == old(cmap.Bits())
      ensures next != CLUSTER_END ==>
                && chains == old(chains)[n := old(chains)[n] + [next]]
                && |FreeClusters(cmap.Bits())| == |FreeClusters(old(cmap.Bits()))| - 1
    {
      hide Partition;
      hide RecordedAs;
      hide AttachedAs;
      hide FreeClusters, NearestFree;
      ghost var s := chains[n];
      ghost var bits := cmap.Bits();
      ChainFacts(bits, chains, reserved, n);
      next := AllocateCluster(previous + 1);
      if next == CLUSTER_END {
        return;
      }
      TakeOne(bits, next);
      AppendKeepsPartition(bits, chains, reserved, n, next);
      chains := chains[n := s + [next]];
      WalkStep(fat, s, n.isContiguous, n.startCluster, n.fptrIndex, n.fptrCluster, 0);
      if next != previous + 1 && n.isContiguous {
        WalkIsConsecutive(fat, s, n.startCluster, n.fptrIndex, n.fptrCluster);
        ghost var before := fat;
        MakeNoncontiguous(n, s, n.startCluster, previous);
        n.isContiguous := false;
        n.isDirty := true;
        RelinkAttaches(before, fat, s, n.startCluster, n.fptrIndex, n.fptrCluster);
      }
      AppendAttaches(fat, s, n.isContiguous, n.startCluster, n.fptrIndex, n.fptrCluster, next);
      SetNextCluster(n.isContiguous, previous, next);
    }

    /** Gives an empty file its first cluster; `c` is the end marker when the volume is full. */
    method StartFile(n: Node) returns (c: nat)
      requires ClustersValid() && n in chains && chains[n] == []
      modifies this`chains, this`cmapDirty, cmap.chunk
      modifies n`startCluster, n`isContiguous, n`fptrCluster
      ensures Allocated() && OthersRecorded(n) && Attached(n)
      ensures c == CLUSTER_END <==> FreeClusters(old(cmap.Bits())) == {}
      ensures c == CLUSTER_END ==> ClustersValid() && chains == old(chains) && cmap.Bits() == old(cmap.Bits())
      ensures c != CLUSTER_END ==>
                && chains == old(chains)[n := [c]]
                && |FreeClusters(cmap.Bits())| == |FreeClusters(old(cmap.Bits()))| - 1
    {
      hide Partition, FreeClusters, NearestFree;
      c := AllocateCluster(0);
      if c == CLUSTER_END {
        return;
      }
      TakeOne(old(cmap.Bits()), c);
      AppendKeepsPartition(old(cmap.Bits()), chains, reserved, n, c);
      assert chains[n] + [c] == [c];
      chains := chains[n := [c]];
      n.startCluster := c;
      n.fptrCluster := c;
      n.isContiguous := true;
    }

    /** Gives back the `taken` clusters just added to a file of `current` clusters. */
    method RollBack(n: Node, current: nat, taken: nat)
      requires Allocated() && OthersRecorded(n) && Attached(n) && (taken == 0 ==> Recorded(n))
      requires |chains[n]| == current + taken
      modifies this`fat, this`chains, this`cmapDirty, cmap.chunk
      modifies n`startCluster, n`fptrIndex, n`fptrCluster, n`isDirty
      ensures ClustersValid()
      ensures chains == old(chains)[n := old(chains)[n][..current]]
    {
      hide Partition;
      hide RecordedAs;
      hide AttachedAs;
      assert taken == 0 ==> chains[n][..current] == chains[n];
      if taken != 0 {
        ShrinkFile(n, current + taken, taken);
      }
    }

    /** Marks the last cluster of a file that has just grown. */
    method FinishFile(n: Node, previous: nat)
      requires Allocated() && OthersRecorded(n) && Attached(n)
      requires chains[n] != [] && previous == chains[n][|chains[n]| - 1]
      modifies this`fat
      ensures ClustersValid()
    {
      hide Partition;
      hide RecordedAs;
      hide AttachedAs;
      ChainFacts(cmap.Bits(), chains, reserved, n);
      MarkRecords(fat, chains[n], n.isContiguous, n.startCluster, n.fptrIndex, n.fptrCluster);
      SetNextCluster(n.isContiguous, previous, CLUSTER_END);
      assert Recorded(n);
    }

    /** Adds `difference` clusters to a file of `current` clusters, or none of them. */
    method GrowFile(n: Node, current: nat, difference: nat) returns (r: Status)
      requires ClustersValid() && n in chains
      requires current == |chains[n]| && 0 < difference
      modifies this`fat, this`chains, this`cmapDirty, cmap.chunk
      modifies n`startCluster, n`isContiguous, n`isDirty, n`fptrIndex, n`fptrCluster
      ensures ClustersValid()
      ensures r.ENOSPC? <==> |FreeClusters(old(cmap.Bits()))| < difference
      ensures r.ENOSPC? ==> chains == old(chains) && cmap.Bits() == old(cmap.Bits())
      ensures r.OK? ==> n in chains && chains == old(chains)[n := chains[n]]
      ensures r.OK? ==> old(chains)[n] <= chains[n] && |chains[n]| == current + difference
    {
      hide Partition;
      hide RecordedAs;
      hide AttachedAs;
      ChainFacts(cmap.Bits(), chains, reserved, n);
      StartIsFirst(fat, chains[n], n.isContiguous, n.startCluster, n.fptrIndex, n.fptrCluster);
      ghost var base := chains;
      ghost var bits := cmap.Bits();
      Overwrites(base, n, base[n], base[n]);
      var previous;
      var taken := 0;
      if n.startCluster != CLUSTER_FREE {
        previous := AdvanceCluster(n, current - 1);
      } else {
        previous := StartFile(n);
        if previous == CLUSTER_END {
          return ENOSPC;
        }
        taken := 1;
      }
      hide FreeClusters;
      ghost var grown := chains[n];
      while taken < difference
        invariant taken <= difference
        invariant Allocated() && OthersRecorded(n) && Attached(n) && (taken == 0 ==> Recorded(n))
        invariant chains == base[n := grown] && base[n] <= grown && |grown| == current + taken
        invariant 0 < |grown| && previous == grown[|grown| - 1]
        invariant |FreeClusters(cmap.Bits())| == |FreeClusters(bits)| - taken
      {
        var next := ExtendFile(n, previous);
        if next == CLUSTER_END {
          RollBack(n, current, taken);
          assert grown[..current] == base[n];
          Overwrites(base, n, grown, base[n]);
          PartitionFixesBits(cmap.Bits(), bits, chains, reserved);
          return ENOSPC;
        }
        Overwrites(base, n, grown, grown + [next]);
        grown := grown + [next];
        previous := next;
        taken := taken + 1;
      }
      FinishFile(n, previous);
      return OK;
    }
  }

  /** Only the last of two updates of one key remains. */
  lemma Overwrites(m: map<Node, seq<nat>>, n: Node, s: seq<nat>, t: seq<nat>)
    requires n in m
    ensures m[n := s][n := t] == m[n := t]
    ensures m[n := m[n]] == m
  {
  }

  /** No free cluster lies between `hint` and `c`, going up and wrapping around once. */
  ghost predicate NearestFree(bits: seq<bool>, hint: nat, c: nat) {
    var h := if ValidCluster(|bits|, hint) then hint else FIRST_DATA_CLUSTER;
    if h <= c
    then forall d: nat | h <= d < c :: !FreeBit(bits, d)
    else forall d: nat | h <= d || d < c :: !FreeBit(bits, d)
  }

  /** The unsigned subtraction wraps below the first cluster, and the search then starts at bit 0. */
  lemma StartOfSearch(hint: nat, size: nat)
    requires hint < 0x1_0000_0000 && size <= MAX_CLUSTER_COUNT
    ensures var start := (hint + 0x1_0000_0000 - FIRST_DATA_CLUSTER) % 0x1_0000_0000;
            (if start >= size then 0 else start) == if ValidCluster(size, hint) then hint - FIRST_DATA_CLUSTER else 0
  {
    if hint >= FIRST_DATA_CLUSTER {
      Remainder(hint + 0x1_0000_0000 - FIRST_DATA_CLUSTER, 1, 0x1_0000_0000, hint - FIRST_DATA_CLUSTER);
    }
  }

  lemma NothingFree(bits: seq<bool>, start: nat)
    requires start <= |bits| && AllSet(bits, start, |bits|) && AllSet(bits, 0, start)
    ensures FreeClusters(bits) == {}
  {
    hide FreeBit;
    forall c: nat ensures !FreeBit(bits, c) {
      BusyBit(bits, start, c);
    }
  }

  lemma BusyBit(bits: seq<bool>, start: nat, c: nat)
    requires start <= |bits| && AllSet(bits, start, |bits|) && AllSet(bits, 0, start)
    ensures !FreeBit(bits, c)
  {
  }

  /** The first clear bit from `start` on, or else from 0 on, is the nearest free cluster. */
  lemma FirstFit(bits: seq<bool>, hint: nat, start: nat, c: nat)
    requires start == if ValidCluster(|bits|, hint) then hint - FIRST_DATA_CLUSTER else 0
    requires FIRST_DATA_CLUSTER <= c < |bits| + FIRST_DATA_CLUSTER && !bits[c - FIRST_DATA_CLUSTER] && start <= |bits|
    requires var b := c - FIRST_DATA_CLUSTER;
             if start <= b then AllSet(bits, start, b) else AllSet(bits, start, |bits|) && AllSet(bits, 0, b)
    ensures FreeBit(bits, c) && FreeClusters(bits) != {} && NearestFree(bits, hint, c)
  {
    assert c in FreeClusters(bits);
  }
}
