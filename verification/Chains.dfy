/** Cluster chains as values: how the chains of all files, the clusters reserved for
    other uses and the allocation bitmap partition the cluster heap, and how one chain is
    recorded in the FAT. */
module Chains {
  import opened Bitmaps

  /** FAT entry of a free cluster; also the start cluster of an empty file. */
  const CLUSTER_FREE: nat := 0

  predicate ValidCluster(count: nat, c: int) {
    FIRST_DATA_CLUSTER <= c < count + FIRST_DATA_CLUSTER
  }

  /** Each cluster is followed by the next number: no FAT is needed to walk the chain. */
  ghost predicate Consecutive(s: seq<nat>) {
    forall i | 0 <= i < |s| :: s[i] == s[0] + i
  }

  /** The FAT leads from each cluster of `s` to the next one. */
  ghost predicate Linked(fat: seq<nat>, s: seq<nat>) {
    forall i | 0 <= i < |s| - 1 :: s[i] < |fat| && fat[s[i]] == s[i + 1]
  }

  /** The FAT marks the last cluster of `s` as final. */
  ghost predicate Terminated(fat: seq<nat>, s: seq<nat>) {
    |s| > 0 ==> s[|s| - 1] < |fat| && fat[s[|s| - 1]] == CLUSTER_END
  }

  /** The chain `s` can be walked: through the FAT, or by counting when contiguous. */
  ghost predicate Walkable(fat: seq<nat>, s: seq<nat>, contiguous: bool) {
    if contiguous then Consecutive(s) else Linked(fat, s)
  }

  /** A node's start cluster and cached file pointer agree with its chain `s`. */
  ghost predicate AttachedAs(fat: seq<nat>, s: seq<nat>, contiguous: bool, start: nat, index: nat, cluster: nat) {
    && start == (if s == [] then CLUSTER_FREE else s[0])
    && (s == [] ==> index == 0)
    && (s != [] ==> index < |s| && cluster == s[index])
    && Walkable(fat, s, contiguous)
  }

  /** A node and the FAT record the chain `s` completely. */
  ghost predicate RecordedAs(fat: seq<nat>, s: seq<nat>, contiguous: bool, start: nat, index: nat, cluster: nat) {
    && AttachedAs(fat, s, contiguous, start, index, cluster)
    && (!contiguous ==> Terminated(fat, s))
  }

  /** Writing the FAT entry of a cluster that is not on the chain leaves the chain recorded. */
  lemma FatElsewhere(fat: seq<nat>, c: nat, next: nat,
                     s: seq<nat>, contiguous: bool, start: nat, index: nat, cluster: nat)
    requires c < |fat| && c !in s
    requires RecordedAs(fat, s, contiguous, start, index, cluster)
    ensures RecordedAs(fat[c := next], s, contiguous, start, index, cluster)
  {
  }

  /** The clusters `tail[i..]`, already cut off their chain, can still be walked. */
  ghost predicate TailWalkable(fat: seq<nat>, tail: seq<nat>, i: nat, contiguous: bool) {
    forall j | i <= j < |tail| - 1 ::
      if contiguous then tail[j + 1] == tail[j] + 1 else tail[j] < |fat| && fat[tail[j]] == tail[j + 1]
  }

  /** Clearing the FAT entry of the first cluster of the tail leaves the rest walkable. */
  lemma TailStep(fat: seq<nat>, tail: seq<nat>, i: nat, contiguous: bool, next: nat)
    requires i < |tail| && tail[i] < |fat| && TailWalkable(fat, tail, i, contiguous) && NoDuplicates(tail)
    ensures i + 1 < |tail| ==> tail[i + 1] == if contiguous then tail[i] + 1 else fat[tail[i]]
    ensures TailWalkable(if contiguous then fat else fat[tail[i] := next], tail, i + 1, contiguous)
  {
  }

  /** The FAT entries of the first `i` clusters of the tail are free. */
  ghost predicate Released(fat: seq<nat>, tail: seq<nat>, i: nat) {
    forall j | 0 <= j < i && j < |tail| :: tail[j] < |fat| && fat[tail[j]] == CLUSTER_FREE
  }

  lemma NoneReleased(fat: seq<nat>, tail: seq<nat>)
    ensures Released(fat, tail, 0)
  {
  }

  lemma OneMoreReleased(fat: seq<nat>, tail: seq<nat>, i: nat)
    requires i < |tail| && tail[i] < |fat|
    ensures Released(fat, tail, i) ==> Released(fat[tail[i] := CLUSTER_FREE], tail, i + 1)
  {
  }

  /** Cutting a chain after `keep` clusters and marking the new last one records the shorter
      chain, and the tail can still be walked. */
  lemma CropRecords(fat: seq<nat>, s: seq<nat>, contiguous: bool, start: nat, index: nat, cluster: nat, keep: nat)
    requires AttachedAs(fat, s, contiguous, start, index, cluster) && keep < |s|
    requires NoDuplicates(s) && forall i | 0 <= i < |s| :: s[i] < |fat|
    ensures var fat' := if contiguous || keep == 0 then fat else fat[s[keep - 1] := CLUSTER_END];
            var start' := if keep == 0 then CLUSTER_FREE else start;
            && RecordedAs(fat', s[..keep], contiguous, start', 0, start')
            && TailWalkable(fat', s[keep..], 0, contiguous)
  {
  }

  /** The walk begins at the start cluster and goes from each cluster to the next. */
  lemma WalkStep(fat: seq<nat>, s: seq<nat>, contiguous: bool, start: nat, index: nat, cluster: nat, i: nat)
    requires AttachedAs(fat, s, contiguous, start, index, cluster) && i < |s|
    ensures start == s[0]
    ensures contiguous && i + 1 < |s| ==> s[i] + 1 == s[i + 1]
    ensures !contiguous && i + 1 < |s| ==> s[i] < |fat| && fat[s[i]] == s[i + 1]
  {
  }

  /** A file's last cluster linked to `c`: by position when the file stays contiguous, in
      the FAT otherwise. */
  lemma AppendAttaches(fat: seq<nat>, s: seq<nat>, contiguous: bool, start: nat, index: nat, cluster: nat, c: nat)
    requires AttachedAs(fat, s, contiguous, start, index, cluster) && s != []
    requires NoDuplicates(s) && forall i | 0 <= i < |s| :: s[i] < |fat|
    requires contiguous ==> c == s[|s| - 1] + 1
    ensures AttachedAs(if contiguous then fat else fat[s[|s| - 1] := c], s + [c], contiguous, start, index, cluster)
  {
  }

  /** Marking the last cluster as final completes the record. */
  lemma MarkRecords(fat: seq<nat>, s: seq<nat>, contiguous: bool, start: nat, index: nat, cluster: nat)
    requires AttachedAs(fat, s, contiguous, start, index, cluster) && s != []
    requires NoDuplicates(s) && forall i | 0 <= i < |s| :: s[i] < |fat|
    ensures RecordedAs(if contiguous then fat else fat[s[|s| - 1] := CLUSTER_END], s, contiguous, start, index, cluster)
  {
  }

  /** A contiguous file whose clusters have been linked in the FAT is attached through it. */
  lemma RelinkAttaches(fat: seq<nat>, fat': seq<nat>, s: seq<nat>, start: nat, index: nat, cluster: nat)
    requires AttachedAs(fat, s, true, start, index, cluster) && Linked(fat', s)
    ensures AttachedAs(fat', s, false, start, index, cluster)
  {
  }

  lemma WalkIsConsecutive(fat: seq<nat>, s: seq<nat>, start: nat, index: nat, cluster: nat)
    requires AttachedAs(fat, s, true, start, index, cluster)
    ensures Consecutive(s)
  {
  }

  /** Only an empty file starts at the free marker, and a recorded file is attached. */
  lemma StartIsFirst(fat: seq<nat>, s: seq<nat>, contiguous: bool, start: nat, index: nat, cluster: nat)
    requires RecordedAs(fat, s, contiguous, start, index, cluster)
    requires forall i | 0 <= i < |s| :: s[i] != CLUSTER_FREE
    ensures start == CLUSTER_FREE <==> s == []
    ensures AttachedAs(fat, s, contiguous, start, index, cluster)
  {
  }

  /** The chain fixes the start cluster, however it is recorded. */
  lemma SameStart(fat: seq<nat>, s: seq<nat>, contiguous: bool, start: nat, index: nat, cluster: nat,
                  fat': seq<nat>, contiguous': bool, start': nat, index': nat, cluster': nat)
    requires RecordedAs(fat, s, contiguous, start, index, cluster)
    requires RecordedAs(fat', s, contiguous', start', index', cluster')
    ensures start == start'
  {
  }

  ghost predicate InRange(count: nat, s: seq<nat>) {
    forall i | 0 <= i < |s| :: ValidCluster(count, s[i])
  }

  ghost predicate NoDuplicates(s: seq<nat>) {
    forall i, j | 0 <= i < |s| && 0 <= j < |s| && s[i] == s[j] :: i == j
  }

  ghost predicate Disjoint(s: seq<nat>, t: seq<nat>) {
    forall i, j | 0 <= i < |s| && 0 <= j < |t| :: s[i] != t[j]
  }

  /** Some file's chain holds cluster `c`. */
  ghost predicate Used<K>(chains: map<K, seq<nat>>, c: nat) {
    exists k | k in chains :: c in chains[k]
  }

  /** Every chain is in range and duplicate-free, and any two are disjoint. */
  ghost predicate Separate<K>(count: nat, chains: map<K, seq<nat>>) {
    && (forall k | k in chains :: InRange(count, chains[k]) && NoDuplicates(chains[k]))
    && (forall k, l | k in chains && l in chains && k != l :: Disjoint(chains[k], chains[l]))
  }

  /** The bitmap marks exactly the clusters that are on some chain or in `reserved`, and
      no cluster is both. */
  ghost predicate Accounted<K>(bits: seq<bool>, chains: map<K, seq<nat>>, reserved: set<nat>) {
    && (forall c | c in reserved :: ValidCluster(|bits|, c) && !Used(chains, c))
    && (forall c | ValidCluster(|bits|, c) ::
          bits[c - FIRST_DATA_CLUSTER] <==> c in reserved || Used(chains, c))
  }

  ghost predicate Partition<K>(bits: seq<bool>, chains: map<K, seq<nat>>, reserved: set<nat>) {
    Separate(|bits|, chains) && Accounted(bits, chains, reserved)
  }

  /** An empty file takes nothing. */
  lemma EmptyChainKeepsPartition<K>(bits: seq<bool>, chains: map<K, seq<nat>>, reserved: set<nat>, k: K)
    requires Partition(bits, chains, reserved) && k !in chains
    ensures Partition(bits, chains[k := []], reserved)
  {
    var more := chains[k := []];
    assert forall c: nat :: Used(more, c) <==> Used(chains, c) by {
      forall c: nat | Used(chains, c)
        ensures Used(more, c)
      {
        var m :| m in chains && c in chains[m];
        assert m in more && c in more[m];
      }
    }
  }

  lemma EmptyRecorded(fat: seq<nat>)
    ensures RecordedAs(fat, [], false, CLUSTER_FREE, 0, CLUSTER_FREE)
  {
  }

  /** Appending a cluster whose bit was clear, and setting the bit, keeps the partition. */
  lemma AppendKeepsPartition<K>(bits: seq<bool>, chains: map<K, seq<nat>>, reserved: set<nat>, k: K, c: nat)
    requires Partition(bits, chains, reserved) && k in chains
    requires ValidCluster(|bits|, c) && !bits[c - FIRST_DATA_CLUSTER]
    ensures Partition(bits[c - FIRST_DATA_CLUSTER := true], chains[k := chains[k] + [c]], reserved)
  {
    var chains' := chains[k := chains[k] + [c]];
    assert !Used(chains, c);
    assert Separate(|bits|, chains') by {
      forall i | i in chains ensures c !in chains[i] {
      }
    }
    forall d: nat
      ensures Used(chains', d) <==> d == c || Used(chains, d)
    {
      if Used(chains, d) {
        var i :| i in chains && d in chains[i];
        assert i in chains' && d in chains'[i];
      }
      assert c in chains'[k];
    }
  }

  /** Cutting a chain after `n` clusters leaves the tail's clusters reserved. */
  lemma CutKeepsPartition<K>(bits: seq<bool>, chains: map<K, seq<nat>>, reserved: set<nat>, k: K, n: nat)
    requires Partition(bits, chains, reserved) && k in chains && n <= |chains[k]|
    ensures Partition(bits, chains[k := chains[k][..n]], reserved + ToSet(chains[k][n..]))
  {
    var s := chains[k];
    var chains' := chains[k := s[..n]];
    forall d: nat
      ensures Used(chains, d) <==> Used(chains', d) || d in s[n..]
      ensures d in s[n..] ==> ValidCluster(|bits|, d) && !Used(chains', d)
    {
      if Used(chains, d) {
        var i :| i in chains && d in chains[i];
        assert i in chains' && (i != k ==> d in chains'[i]);
        assert s == s[..n] + s[n..];
      }
      if Used(chains', d) {
        var i :| i in chains' && d in chains'[i];
        assert d in chains[i];
      }
      if d in s[n..] {
        assert d in s;
      }
    }
  }

  /** Freeing a reserved cluster clears its bit. */
  lemma FreeKeepsPartition<K>(bits: seq<bool>, chains: map<K, seq<nat>>, reserved: set<nat>, c: nat)
    requires Partition(bits, chains, reserved) && c in reserved
    ensures Partition(bits[c - FIRST_DATA_CLUSTER := false], chains, reserved - {c})
  {
  }

  /** A reserved cluster is valid and on no chain. */
  lemma PendingIsUnused<K>(bits: seq<bool>, chains: map<K, seq<nat>>, reserved: set<nat>, c: nat)
    requires Partition(bits, chains, reserved) && c in reserved
    ensures ValidCluster(|bits|, c)
    ensures forall k | k in chains :: c !in chains[k]
  {
  }

  /** What the partition says about one chain. */
  lemma ChainFacts<K>(bits: seq<bool>, chains: map<K, seq<nat>>, reserved: set<nat>, k: K)
    requires Partition(bits, chains, reserved) && k in chains
    ensures InRange(|bits|, chains[k]) && NoDuplicates(chains[k])
    ensures forall i | 0 <= i < |chains[k]| :: chains[k][i] !in reserved
    ensures forall i, m | 0 <= i < |chains[k]| && m in chains && m != k :: chains[k][i] !in chains[m]
  {
    forall i | 0 <= i < |chains[k]|
      ensures Used(chains, chains[k][i])
    {
      assert chains[k][i] in chains[k];
    }
    forall i, m | 0 <= i < |chains[k]| && m in chains && m != k
      ensures chains[k][i] !in chains[m]
    {
      assert Disjoint(chains[k], chains[m]);
    }
  }

  lemma TailSet(s: seq<nat>, i: nat)
    requires i < |s| && NoDuplicates(s)
    ensures ToSet(s[i..]) - {s[i]} == ToSet(s[i + 1..])
    ensures s[i] in ToSet(s[i..])
  {
    assert s[i..] == [s[i]] + s[i + 1..];
    assert s[i] !in s[i + 1..];
  }

  ghost function ToSet(s: seq<nat>): set<nat> {
    set c | c in s
  }

  /** The partition leaves no freedom: chains and reserved clusters determine the bitmap. */
  lemma PartitionFixesBits<K>(bits: seq<bool>, bits': seq<bool>, chains: map<K, seq<nat>>, reserved: set<nat>)
    requires Partition(bits, chains, reserved) && Partition(bits', chains, reserved)
    requires |bits| == |bits'|
    ensures bits == bits'
  {
    forall i | 0 <= i < |bits|
      ensures bits[i] == bits'[i]
    {
      var c := i + FIRST_DATA_CLUSTER;
      assert ValidCluster(|bits|, c);
    }
  }

  ghost function AnyKey<K>(chains: map<K, seq<nat>>): K
    requires chains != map[]
    ensures AnyKey(chains) in chains
  {
    assert chains.Keys != {};
    var k :| k in chains.Keys;
    k
  }

  /** The number of clusters on all chains together. */
  ghost function TotalLength<K>(chains: map<K, seq<nat>>): nat
    decreases |chains|
  {
    if chains == map[] then 0
    else |chains[AnyKey(chains)]| + TotalLength(chains - {AnyKey(chains)})
  }

  lemma {:induction false} PartOfTotal<K>(chains: map<K, seq<nat>>, k: K)
    requires k in chains
    ensures |chains[k]| <= TotalLength(chains)
    decreases |chains|
  {
    if AnyKey(chains) != k {
      PartOfTotal(chains - {AnyKey(chains)}, k);
    }
  }

  predicate FreeBit(bits: seq<bool>, c: nat) {
    ValidCluster(|bits|, c) && !bits[c - FIRST_DATA_CLUSTER]
  }

  ghost function FreeClusters(bits: seq<bool>): set<nat> {
    set c: nat | c < |bits| + FIRST_DATA_CLUSTER && FreeBit(bits, c)
  }

  lemma TakeOne(bits: seq<bool>, c: nat)
    requires FreeBit(bits, c)
    ensures FreeClusters(bits[c - FIRST_DATA_CLUSTER := true]) == FreeClusters(bits) - {c}
    ensures |FreeClusters(bits[c - FIRST_DATA_CLUSTER := true])| == |FreeClusters(bits)| - 1
  {
    assert c in FreeClusters(bits);
  }

  ghost function AllClusters(count: nat): set<nat> {
    set c: nat | c < count + FIRST_DATA_CLUSTER && ValidCluster(count, c)
  }

  lemma {:induction false} DistinctElements(s: seq<nat>)
    requires NoDuplicates(s)
    ensures |ToSet(s)| == |s|
  {
    if s != [] {
      var t := s[..|s| - 1];
      DistinctElements(t);
      assert s == t + [s[|s| - 1]];
      assert ToSet(s) == ToSet(t) + {s[|s| - 1]};
    }
  }

  ghost function UsedSet<K>(count: nat, chains: map<K, seq<nat>>): set<nat> {
    set c: nat | c < count + FIRST_DATA_CLUSTER && Used(chains, c)
  }

  lemma UsedSplits<K>(chains: map<K, seq<nat>>, k: K, c: nat)
    requires k in chains
    ensures Used(chains, c) <==> c in chains[k] || Used(chains - {k}, c)
  {
    var rest := chains - {k};
    if Used(rest, c) {
      var l :| l in rest && c in rest[l];
      assert c in chains[l];
    }
    if Used(chains, c) {
      var l :| l in chains && c in chains[l];
      assert l != k ==> c in rest[l];
    }
  }

  lemma {:induction false} UsedSetSize<K>(count: nat, chains: map<K, seq<nat>>)
    requires Separate(count, chains)
    ensures |UsedSet(count, chains)| == TotalLength(chains)
    decreases |chains|
  {
    if chains == map[] {
      assert UsedSet(count, chains) == {};
    } else {
      var k := AnyKey(chains);
      UsedSetSize(count, chains - {k});
      DistinctElements(chains[k]);
      UsedSetSplits(count, chains, k);
    }
  }

  lemma UsedSetSplits<K>(count: nat, chains: map<K, seq<nat>>, k: K)
    requires Separate(count, chains) && k in chains
    ensures UsedSet(count, chains) == ToSet(chains[k]) + UsedSet(count, chains - {k})
    ensures ToSet(chains[k]) !! UsedSet(count, chains - {k})
  {
    forall c: nat
      ensures Used(chains, c) <==> c in ToSet(chains[k]) || Used(chains - {k}, c)
    {
      UsedSplits(chains, k, c);
    }
  }

  lemma {:induction false} AllClustersSize(count: nat)
    ensures |AllClusters(count)| == count
  {
    if count == 0 {
      assert AllClusters(count) == {};
    } else {
      AllClustersSize(count - 1);
      assert AllClusters(count) == AllClusters(count - 1) + {count + 1};
    }
  }

  /** Conservation: free clusters, chained clusters and reserved clusters add up to the heap. */
  lemma Conservation<K>(bits: seq<bool>, chains: map<K, seq<nat>>, reserved: set<nat>)
    requires Partition(bits, chains, reserved)
    ensures |FreeClusters(bits)| + TotalLength(chains) + |reserved| == |bits|
  {
    var used := UsedSet(|bits|, chains);
    UsedSetSize(|bits|, chains);
    AllClustersSize(|bits|);
    assert AllClusters(|bits|) == FreeClusters(bits) + (reserved + used);
  }

  /** As long as the other chains stay, one file's clusters and the free ones trade places. */
  lemma OwnPlusFree<K>(bits: seq<bool>, chains: map<K, seq<nat>>, bits': seq<bool>, chains': map<K, seq<nat>>,
                       reserved: set<nat>, k: K)
    requires Partition(bits, chains, reserved) && Partition(bits', chains', reserved)
    requires |bits| == |bits'| && k in chains && k in chains' && chains - {k} == chains' - {k}
    ensures |FreeClusters(bits)| + |chains[k]| == |FreeClusters(bits')| + |chains'[k]|
  {
    hide FreeClusters;
    hide UsedSet;
    OwnPlusFreeIs(bits, chains, reserved, k);
    OwnPlusFreeIs(bits', chains', reserved, k);
  }

  lemma OwnPlusFreeIs<K>(bits: seq<bool>, chains: map<K, seq<nat>>, reserved: set<nat>, k: K)
    requires Partition(bits, chains, reserved) && k in chains
    ensures |FreeClusters(bits)| + |chains[k]| == |bits| - |reserved| - |UsedSet(|bits|, chains - {k})|
  {
    hide FreeClusters;
    hide UsedSet;
    Conservation(bits, chains, reserved);
    UsedSetSize(|bits|, chains);
    UsedSetSplits(|bits|, chains, k);
    DistinctElements(chains[k]);
  }

  /** A duplicate-free chain of valid clusters is no longer than the heap. */
  lemma NoMoreThan(count: nat, s: seq<nat>)
    requires InRange(count, s) && NoDuplicates(s)
    ensures |s| <= count
  {
    DistinctElements(s);
    AllClustersSize(count);
    assert ToSet(s) <= AllClusters(count);
    SubsetSize(ToSet(s), AllClusters(count));
  }

  lemma {:induction false} SubsetSize(a: set<nat>, b: set<nat>)
    requires a <= b
    ensures |a| <= |b|
  {
    if a != {} {
      var x :| x in a;
      SubsetSize(a - {x}, b - {x});
    }
  }
}
