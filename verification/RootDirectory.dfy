/** The size of the root directory, found by walking its cluster chain in the FAT with a
    counter against cycles. */
module RootDirectory {
  import opened Bitmaps
  import opened Chains

  /** A chain from `start` through valid clusters to the end mark. */
  ghost predicate Reaches(fat: seq<nat>, count: nat, start: nat, s: seq<nat>) {
    s != [] && s[0] == start && InRange(count, s) && Linked(fat, s) && Terminated(fat, s)
  }

  /** Two walks from the same cluster agree as far as both go. */
  lemma {:induction false} WalksAgree(fat: seq<nat>, s: seq<nat>, t: seq<nat>, i: nat, j: nat, k: nat)
    requires Linked(fat, s) && Linked(fat, t) && i + k < |s| && j + k < |t| && s[i] == t[j]
    ensures s[i + k] == t[j + k]
    decreases k
  {
    if k > 0 {
      WalksAgree(fat, s, t, i, j, k - 1);
      assert fat[s[i + k - 1]] == s[i + k] && fat[t[j + k - 1]] == t[j + k];
    }
  }

  lemma GoesOn(fat: seq<nat>, count: nat, s: seq<nat>)
    requires Linked(fat, s) && InRange(count, s) && count <= MAX_CLUSTER_COUNT
    ensures forall i | 0 <= i < |s| - 1 :: s[i] < |fat| && ValidCluster(count, fat[s[i]]) && fat[s[i]] != CLUSTER_END
  {
    forall i | 0 <= i < |s| - 1
      ensures s[i] < |fat| && ValidCluster(count, fat[s[i]])
    {
      assert fat[s[i]] == s[i + 1];
    }
  }

  /** A chain that ends visits no cluster twice. */
  lemma EndingHasNoDuplicates(fat: seq<nat>, count: nat, start: nat, s: seq<nat>)
    requires Reaches(fat, count, start, s) && count <= MAX_CLUSTER_COUNT
    ensures NoDuplicates(s)
  {
    GoesOn(fat, count, s);
    forall i, j | 0 <= i < j < |s|
      ensures s[i] != s[j]
    {
      if s[i] == s[j] {
        WalksAgree(fat, s, s, i, j, |s| - 1 - j);
      }
    }
  }

  /** A walk that is as long as an ending chain has reached its end. */
  lemma LongWalk(fat: seq<nat>, count: nat, start: nat, s: seq<nat>, w: seq<nat>)
    requires Reaches(fat, count, start, s) && count <= MAX_CLUSTER_COUNT
    requires Linked(fat, w) && w != [] && w[0] == start && InRange(count, w)
    ensures |w| <= |s| && (|w| == |s| ==> w == s)
  {
    var n := if |w| < |s| then |w| else |s|;
    forall k | 0 <= k < n
      ensures w[k] == s[k]
    {
      WalksAgree(fat, w, s, 0, 0, k);
    }
    GoesOn(fat, count, w);
  }

  /** `w` is a walk from `start`, and `c` the cluster that follows it. */
  ghost predicate Walked(fat: seq<nat>, count: nat, start: nat, w: seq<nat>, c: nat) {
    && InRange(count, w) && Linked(fat, w)
    && (w == [] ==> c == start)
    && (w != [] ==> w[0] == start && w[|w| - 1] < |fat| && fat[w[|w| - 1]] == c)
  }

  lemma WalkedNext(fat: seq<nat>, count: nat, start: nat, w: seq<nat>, c: nat)
    requires Walked(fat, count, start, w, c) && ValidCluster(count, c) && |fat| == count + FIRST_DATA_CLUSTER
    ensures Walked(fat, count, start, w + [c], fat[c])
    ensures fat[c] == CLUSTER_END ==> Reaches(fat, count, start, w + [c])
  {
  }

  /** No chain ends beyond a walk through as many clusters as there are. */
  lemma TooLong(fat: seq<nat>, count: nat, start: nat, w: seq<nat>, c: nat)
    requires Walked(fat, count, start, w, c) && |w| == count && count <= MAX_CLUSTER_COUNT
             && (w == [] || c != CLUSTER_END)
    ensures forall s :: !Reaches(fat, count, start, s)
  {
    forall s
      ensures !Reaches(fat, count, start, s)
    {
      if Reaches(fat, count, start, s) {
        EndingHasNoDuplicates(fat, count, start, s);
        NoMoreThan(count, s);
        if w != [] {
          LongWalk(fat, count, start, s, w);
        }
      }
    }
  }

  /** No chain goes through a cluster outside the heap. */
  lemma LeavesHeap(fat: seq<nat>, count: nat, start: nat, w: seq<nat>, c: nat)
    requires Walked(fat, count, start, w, c) && !ValidCluster(count, c) && count <= MAX_CLUSTER_COUNT
    requires w == [] || c != CLUSTER_END
    ensures forall s :: !Reaches(fat, count, start, s)
  {
    forall s
      ensures !Reaches(fat, count, start, s)
    {
      if Reaches(fat, count, start, s) && w != [] {
        GoesOn(fat, count, s);
        LongWalk(fat, count, start, s, w);
        WalksAgree(fat, w, s, 0, 0, |w| - 1);
      }
    }
  }

  lemma OnlyChain(fat: seq<nat>, count: nat, start: nat, w: seq<nat>)
    requires Reaches(fat, count, start, w) && count <= MAX_CLUSTER_COUNT
    ensures w != [] && forall s | Reaches(fat, count, start, s) :: s == w
  {
    forall s | Reaches(fat, count, start, s)
      ensures s == w
    {
      LongWalk(fat, count, start, s, w);
      LongWalk(fat, count, start, w, s);
    }
  }

  method RootDirSize(fat: seq<nat>, count: nat, start: nat, clusterSize: nat) returns (size: nat)
    requires |fat| == count + FIRST_DATA_CLUSTER && count <= MAX_CLUSTER_COUNT && clusterSize > 0
    ensures size > 0 <==> exists s :: Reaches(fat, count, start, s)
    ensures forall s | Reaches(fat, count, start, s) :: size == |s| * clusterSize
  {
    hide Walked, Reaches;
    var clusters, cluster := 0, start;
    ghost var w: seq<nat> := [];
    Starts(fat, count, start);
    while true
      invariant |w| == clusters && clusters <= count && Walked(fat, count, start, w, cluster)
      invariant w == [] || cluster != CLUSTER_END
      decreases count - clusters
    {
      if clusters == count {
        TooLong(fat, count, start, w, cluster);
        return 0;
      }
      if !ValidCluster(count, cluster) {
        LeavesHeap(fat, count, start, w, cluster);
        return 0;
      }
      WalkedNext(fat, count, start, w, cluster);
      w := w + [cluster];
      cluster := fat[cluster];
      clusters := clusters + 1;
      if cluster == CLUSTER_END {
        OnlyChain(fat, count, start, w);
        Positive(clusters, clusterSize);
        return clusters * clusterSize;
      }
    }
  }

  lemma Starts(fat: seq<nat>, count: nat, start: nat)
    ensures Walked(fat, count, start, [], start)
  {
  }

  lemma Positive(a: nat, b: nat)
    requires a > 0 && b > 0
    ensures a * b > 0
  {
  }
}
