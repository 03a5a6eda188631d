/** Reading, writing and truncating files. */
module FileIO {
  import opened Arithmetic
  import opened Basics
  import opened Bitmaps
  import opened Chains
  import opened Content
  import opened Volumes

  /** The run length at which the write loop stops gathering clusters. */
  const MAX_WRITE_RUN: nat := 0x10_0000

  /** One device write: `len` bytes at heap position `at`. */
  datatype Run = Run(at: int, len: nat)

  /** The heap positions a list of device writes covers, in order. */
  ghost function Covered(runs: seq<Run>): seq<int> {
    if runs == [] then []
    else Covered(runs[..|runs| - 1]) + Span(runs[|runs| - 1])
  }

  ghost function Span(run: Run): (p: seq<int>)
    ensures |p| == run.len
  {
    seq(run.len, i => run.at + i)
  }

  /** The heap positions of the file's bytes `offset .. offset + n`, in order. */
  ghost function Positions(geo: Geometry, s: seq<nat>, offset: nat, n: nat): (p: seq<int>)
    ensures |p| == n
  {
    seq(n, i requires 0 <= i < n => if geo.Inside(|s|, offset + i) then geo.Position(s, offset + i) else -1)
  }

  /** Byte `pos` of a file is byte `r` of its cluster number `i`. */
  ghost predicate At(size: nat, i: nat, r: nat, pos: nat) {
    pos == i * size + r
  }

  /** Gathers the longest run of consecutive clusters that starts with the `loffset`-th
      byte of `first`, up to the run limit, and the cluster `next` (number `j` of the file)
      that follows it. */
  method GatherRun(v: Volume, n: Node, first: nat, loffset: nat, remainder: nat, ghost pos: nat, ghost i: nat)
    returns (lsize: nat, next: nat, ghost j: nat)
    requires v.Shape() && v.Attached(n) && InRange(v.geo.count, v.chains[n])
    requires i < |v.chains[n]| && first == v.chains[n][i]
    requires loffset < v.geo.size && At(v.geo.size, i, loffset, pos)
    requires 0 < remainder && pos + remainder <= |v.chains[n]| * v.geo.size
    ensures 0 < lsize <= remainder && lsize <= MAX_WRITE_RUN - 1 + v.geo.size
    ensures v.geo.IsRun(v.chains[n], pos, pos + lsize)
    ensures lsize < remainder ==>
              && 0 < j < |v.chains[n]| && At(v.geo.size, j, 0, pos + lsize) && next == v.chains[n][j]
              && (lsize < MAX_WRITE_RUN ==> next != v.chains[n][j - 1] + 1)
  {
    hide AttachedAs;
    hide Geometry.IsRun;
    ghost var s := v.chains[n];
    var size := v.geo.size;
    var cluster := first;
    lsize := Min(size - loffset, remainder);
    v.geo.IndexOf(i, loffset);
    v.geo.ClusterIsRun(s, pos, pos + lsize);
    next := v.NextCluster(n, cluster);
    j := i;
    NextBoundary(size, i, loffset, pos);
    ghost var end: nat := pos - loffset + size;
    hide At;
    hide Geometry.Fits;
    while lsize < remainder && lsize < MAX_WRITE_RUN && ValidCluster(v.geo.count, next) && next == cluster + 1
      invariant j < |s| && cluster == s[j] && next == v.NextCluster(n, cluster)
      invariant At(size, j + 1, 0, end)
      invariant 0 < lsize <= remainder && lsize <= MAX_WRITE_RUN - 1 + size
      invariant if lsize < remainder then pos + lsize == end else pos + lsize <= end
      invariant v.geo.IsRun(s, pos, pos + lsize)
    {
      AtInside(size, |s|, j + 1, end, pos + remainder);
      WalkStep(v.fat, s, n.isContiguous, n.startCluster, n.fptrIndex, n.fptrCluster, j);
      var more := Min(size, remainder - lsize);
      RunGoesOnAt(v.geo, s, pos, j, end, more);
      NextBoundary(size, j + 1, 0, end);
      cluster := next;
      lsize := lsize + more;
      next := v.NextCluster(n, cluster);
      j := j + 1;
      end := end + size;
    }
    if lsize < remainder {
      AtInside(size, |s|, j + 1, end, pos + remainder);
      WalkStep(v.fat, s, n.isContiguous, n.startCluster, n.fptrIndex, n.fptrCluster, j);
      j := j + 1;
    }
  }

  lemma RunGoesOnAt(geo: Geometry, s: seq<nat>, from: nat, i: nat, m: nat, n: nat)
    requires i + 1 < |s| && s[i + 1] == s[i] + 1 && At(geo.size, i + 1, 0, m)
    requires from < m && n <= geo.size && geo.IsRun(s, from, m)
    ensures geo.IsRun(s, from, m + n)
  {
    geo.RunGoesOn(s, from, i, m, n);
  }

  /** One device write: the run that starts at the `loffset`-th byte of `cluster`. */
  method WriteRun(v: Volume, n: Node, buf: seq<byte>, offset: nat, cluster: nat, loffset: nat, remainder: nat,
                  ghost h: seq<byte>, ghost i: nat, ghost runs: seq<Run>)
    returns (lsize: nat, next: nat, ghost j: nat, ghost more: seq<Run>)
    requires v.Shape() && v.Attached(n) && InRange(v.geo.count, v.chains[n]) && NoDuplicates(v.chains[n])
    requires v.geo.Fits(h) && 0 < remainder <= |buf| && offset + |buf| <= |v.chains[n]| * v.geo.size
    requires i < |v.chains[n]| && cluster == v.chains[n][i] && loffset < v.geo.size
    requires At(v.geo.size, i, loffset, offset + |buf| - remainder)
    requires Progress(v.geo, h, v.heap, v.chains[n], offset, buf, |buf| - remainder, runs)
    modifies v`heap, n`validSize
    ensures v.Shape() && 0 < lsize <= remainder
    ensures Progress(v.geo, h, v.heap, v.chains[n], offset, buf, |buf| - remainder + lsize, more)
    ensures lsize < remainder ==>
              && j < |v.chains[n]| && next == v.chains[n][j]
              && At(v.geo.size, j, 0, offset + |buf| - remainder + lsize)
    ensures n.validSize == Max(old(n.validSize), offset + |buf| - remainder + lsize)
  {
    hide AttachedAs, Progress, At, Geometry.IsRun, Geometry.Position, Geometry.Fits;
    var done := |buf| - remainder;
    lsize, next, j := GatherRun(v, n, cluster, loffset, remainder, offset + done, i);
    PositionAt(v.geo, v.chains[n], i, loffset, offset + done);
    var at := v.geo.Start(cluster) + loffset;
    ProgressStep(v.geo, h, v.heap, v.chains[n], offset, buf, done, lsize, at, runs);
    v.heap := Patched(v.heap, at, buf[done..done + lsize]);
    more := runs + [Run(at, lsize)];
    n.validSize := Max(n.validSize, offset + done + lsize);
  }

  /** The device writes of one file write: merged over consecutive clusters, they leave the
      heap as one write per cluster would, and cover every byte of the request once. */
  method WriteRuns(v: Volume, n: Node, buf: seq<byte>, offset: nat) returns (ghost runs: seq<Run>)
    requires v.Allocated() && v.Attached(n)
    requires buf != [] && offset + |buf| <= |v.chains[n]| * v.geo.size
    modifies v`heap, n`validSize, n`fptrIndex, n`fptrCluster
    ensures v.Allocated() && v.Attached(n) && (old(v.Recorded(n)) ==> v.Recorded(n))
    ensures v.heap == v.geo.PerClusterWrite(old(v.heap), v.chains[n], offset, buf)
    ensures n.validSize == Max(old(n.validSize), offset + |buf|)
    ensures Covered(runs) == Positions(v.geo, v.chains[n], offset, |buf|)
    ensures forall i | 0 <= i < |runs| :: 0 < runs[i].len <= MAX_WRITE_RUN - 1 + v.geo.size
  {
    hide Partition;
    hide RecordedAs;
    hide AttachedAs;
    hide Geometry.IsRun;
    hide Geometry.Position;
    hide Geometry.PerClusterWrite;
    ghost var s := v.chains[n];
    ghost var h := v.heap;
    var geo := v.geo;
    runs := [];
    assert Progress(geo, h, h, s, offset, buf, 0, []);
    ChainFacts(v.cmap.Bits(), v.chains, v.reserved, n);
    FirstPlace(geo, |s|, offset, |buf|);
    hide Progress, At, Geometry.Fits;
    var index: nat, loffset: nat := offset / geo.size, offset % geo.size;
    var cluster := v.AdvanceCluster(n, index);
    var remainder: nat := |buf|;
    ghost var i: nat := index;
    while remainder > 0
      invariant remainder <= |buf|
      invariant v.Shape() && v.Attached(n) && (old(v.Recorded(n)) ==> v.Recorded(n))
      invariant remainder > 0 ==> i < |s| && cluster == s[i] && loffset < geo.size
      invariant remainder > 0 ==> At(geo.size, i, loffset, offset + |buf| - remainder)
      invariant Progress(geo, h, v.heap, s, offset, buf, |buf| - remainder, runs)
      invariant n.validSize ==
                if remainder == |buf| then old(n.validSize) else Max(old(n.validSize), offset + |buf| - remainder)
    {
      var lsize;
      lsize, cluster, i, runs := WriteRun(v, n, buf, offset, cluster, loffset, remainder, h, i, runs);
      loffset := 0;
      remainder := remainder - lsize;
    }
    Finished(geo, h, v.heap, s, offset, buf, runs);
  }

  lemma PositionAt(geo: Geometry, s: seq<nat>, i: nat, r: nat, pos: nat)
    requires i < |s| && r < geo.size && At(geo.size, i, r, pos)
    ensures geo.Inside(|s|, pos) && geo.Position(s, pos) == geo.Start(s[i]) + r
  {
    geo.PositionOf(s, i, r);
  }

  /** After the first `k` bytes of the request: they and nothing else are on the heap, and
      the device writes so far cover them once, each within the length limit. */
  ghost predicate Progress(geo: Geometry, h: seq<byte>, heap: seq<byte>, s: seq<nat>, offset: nat, buf: seq<byte>,
                           k: nat, runs: seq<Run>)
    requires 0 < geo.size && k <= |buf| && offset + |buf| <= |s| * geo.size
  {
    && |heap| == |h|
    && geo.Wrote(h, heap, s, offset, buf[..k])
    && Covered(runs) == Positions(geo, s, offset, k)
    && forall i | 0 <= i < |runs| :: 0 < runs[i].len <= MAX_WRITE_RUN - 1 + geo.size
  }

  lemma ProgressStep(geo: Geometry, h: seq<byte>, before: seq<byte>, s: seq<nat>, offset: nat, buf: seq<byte>,
                     k: nat, len: nat, at: int, runs: seq<Run>)
    requires geo.Fits(h) && InRange(geo.count, s) && NoDuplicates(s)
    requires 0 < len <= MAX_WRITE_RUN - 1 + geo.size && k + len <= |buf| && offset + |buf| <= |s| * geo.size
    requires geo.IsRun(s, offset + k, offset + k + len)
    requires geo.Inside(|s|, offset + k) && at == geo.Position(s, offset + k)
    requires Progress(geo, h, before, s, offset, buf, k, runs)
    ensures 0 <= at <= |before| - len && geo.Fits(Patched(before, at, buf[k..k + len]))
    ensures Progress(geo, h, Patched(before, at, buf[k..k + len]), s, offset, buf, k + len, runs + [Run(at, len)])
  {
    hide Geometry.Wrote;
    hide Geometry.IsRun;
    hide Covered;
    hide Positions;
    RunExtends(geo, h, before, s, offset, buf, k, len, at);
    RunCovers(geo, s, offset, k, len, runs, at);
  }

  lemma Finished(geo: Geometry, h: seq<byte>, heap: seq<byte>, s: seq<nat>, offset: nat, buf: seq<byte>, runs: seq<Run>)
    requires geo.Fits(h) && InRange(geo.count, s) && NoDuplicates(s) && offset + |buf| <= |s| * geo.size
    requires Progress(geo, h, heap, s, offset, buf, |buf|, runs)
    ensures heap == geo.PerClusterWrite(h, s, offset, buf)
    ensures Covered(runs) == Positions(geo, s, offset, |buf|)
    ensures forall i | 0 <= i < |runs| :: 0 < runs[i].len <= MAX_WRITE_RUN - 1 + geo.size
  {
    hide Geometry.Wrote;
    assert buf[..|buf|] == buf;
    geo.PerClusterWrote(h, s, offset, buf);
    geo.WroteUnique(h, heap, geo.PerClusterWrite(h, s, offset, buf), s, offset, buf);
  }

  /** A device write of the next run extends what has been written of the request. */
  lemma RunExtends(geo: Geometry, h: seq<byte>, before: seq<byte>, s: seq<nat>, offset: nat, buf: seq<byte>,
                   k: nat, len: nat, at: int)
    requires geo.Fits(h) && |before| == |h| && InRange(geo.count, s) && NoDuplicates(s)
    requires 0 < len && k + len <= |buf| && geo.IsRun(s, offset + k, offset + k + len)
    requires geo.Inside(|s|, offset + k) && at == geo.Position(s, offset + k)
    requires geo.Wrote(h, before, s, offset, buf[..k])
    ensures 0 <= at <= |h| - len
    ensures geo.Wrote(h, Patched(before, at, buf[k..k + len]), s, offset, buf[..k + len])
  {
    hide Geometry.Wrote;
    geo.RunWrote(before, s, offset + k, buf[k..k + len]);
    geo.WroteThen(h, before, Patched(before, at, buf[k..k + len]), s, offset, buf[..k], buf[k..k + len]);
    assert buf[..k] + buf[k..k + len] == buf[..k + len];
  }

  lemma RunCovers(geo: Geometry, s: seq<nat>, offset: nat, k: nat, len: nat, runs: seq<Run>, at: int)
    requires 0 < geo.size && 0 < len && offset + k + len <= |s| * geo.size
    requires geo.IsRun(s, offset + k, offset + k + len) && geo.Inside(|s|, offset + k)
             && at == geo.Position(s, offset + k)
    requires Covered(runs) == Positions(geo, s, offset, k)
    ensures Covered(runs + [Run(at, len)]) == Positions(geo, s, offset, k + len)
  {
    var r := runs + [Run(at, len)];
    assert r[..|r| - 1] == runs;
    forall j | 0 <= j < k + len
      ensures Covered(r)[j] == Positions(geo, s, offset, k + len)[j]
    {
      if k <= j {
        assert geo.Position(s, offset + j) == at + (j - k);
      } else {
        assert Covered(r)[j] == Positions(geo, s, offset, k)[j];
      }
    }
  }

  function Zeros(n: nat): (z: seq<byte>)
    ensures |z| == n
  {
    seq(n, _ => 0)
  }

  /** Zeroes a file's bytes `begin .. end`, and the rest of the last cluster it enters:
      the bytes zeroed are `begin .. upTo`. */
  method EraseRange(v: Volume, n: Node, begin: nat, end: nat) returns (ghost upTo: nat)
    requires v.Allocated() && v.Attached(n) && end <= |v.chains[n]| * v.geo.size
    modifies v`heap, n`fptrIndex, n`fptrCluster
    ensures v.Allocated() && v.Attached(n) && (old(v.Recorded(n)) ==> v.Recorded(n))
    ensures begin <= upTo && (begin < end ==> end <= upTo < end + v.geo.size) && (end <= begin ==> upTo == begin)
    ensures v.geo.Wrote(old(v.heap), v.heap, v.chains[n], begin, Zeros(upTo - begin))
  {
    hide Partition;
    hide RecordedAs;
    hide AttachedAs;
    hide Geometry.Position;
    upTo := begin;
    if begin >= end {
      return;
    }
    hide Geometry.Wrote;
    ghost var s := v.chains[n];
    ghost var h := v.heap;
    var geo := v.geo;
    ChainFacts(v.cmap.Bits(), v.chains, v.reserved, n);
    FirstPlace(geo, |s|, begin, end - begin);
    hide At;
    var index: nat, loffset: nat := begin / geo.size, begin % geo.size;
    var boundary := begin - loffset + geo.size;
    var cluster := v.AdvanceCluster(n, index);
    NextBoundary(geo.size, index, loffset, begin);
    var len := Min(boundary, end) - begin;
    EraseStep(geo, h, h, s, begin, 0, len, index, loffset);
    v.heap := Patched(v.heap, geo.Start(cluster) + loffset, Zeros(len));
    upTo := EraseWhole(v, n, cluster, boundary, end, h, begin, begin + len, index);
  }

  /** Zeroes whole clusters from `boundary` until `end` is reached. */
  method EraseWhole(v: Volume, n: Node, first: nat, from: nat, end: nat,
                    ghost h: seq<byte>, ghost begin: nat, ghost done: nat, ghost i: nat) returns (ghost upTo: nat)
    requires v.Shape() && v.Attached(n) && end <= |v.chains[n]| * v.geo.size
    requires v.geo.Fits(h) && InRange(v.geo.count, v.chains[n]) && NoDuplicates(v.chains[n])
    requires begin < done && (if from < end then done == from else done == end)
    requires v.geo.Wrote(h, v.heap, v.chains[n], begin, Zeros(done - begin))
    requires i < |v.chains[n]| && first == v.chains[n][i] && At(v.geo.size, i + 1, 0, from)
    modifies v`heap
    ensures v.Shape() && end <= upTo < end + v.geo.size
    ensures v.geo.Wrote(h, v.heap, v.chains[n], begin, Zeros(upTo - begin))
  {
    hide AttachedAs;
    hide Geometry.Position;
    hide Geometry.Wrote;
    hide Geometry.Fits;
    hide At;
    ghost var s := v.chains[n];
    var geo := v.geo;
    var boundary := from;
    var cluster := first;
    ghost var c: nat := i;
    upTo := done;
    while boundary < end
      invariant v.Shape()
      invariant begin < upTo && (if boundary < end then upTo == boundary else end <= upTo < end + geo.size)
      invariant geo.Wrote(h, v.heap, s, begin, Zeros(upTo - begin))
      invariant c < |s| && cluster == s[c] && At(geo.size, c + 1, 0, boundary)
    {
      AtInside(geo.size, |s|, c + 1, boundary, end);
      WalkStep(v.fat, s, n.isContiguous, n.startCluster, n.fptrIndex, n.fptrCluster, c);
      cluster := v.NextCluster(n, cluster);
      c := c + 1;
      NextBoundary(geo.size, c, 0, boundary);
      EraseStep(geo, h, v.heap, s, begin, upTo - begin, geo.size, c, 0);
      v.heap := Patched(v.heap, geo.Start(cluster), Zeros(geo.size));
      boundary := boundary + geo.size;
      upTo := upTo + geo.size;
    }
  }

  /** Erasing `len` bytes of one cluster extends the zeroed part of the file. */
  lemma EraseStep(geo: Geometry, h: seq<byte>, before: seq<byte>, s: seq<nat>, begin: nat,
                  k: nat, len: nat, i: nat, r: nat)
    requires geo.Fits(h) && geo.Fits(before) && InRange(geo.count, s) && NoDuplicates(s)
    requires 0 < len && i < |s| && r + len <= geo.size && At(geo.size, i, r, begin + k)
    requires geo.Wrote(h, before, s, begin, Zeros(k)) || (k == 0 && before == h)
    ensures 0 <= geo.Start(s[i]) + r <= |before| - len
    ensures var after := Patched(before, geo.Start(s[i]) + r, Zeros(len));
            geo.Fits(after) && geo.Wrote(h, after, s, begin, Zeros(k + len))
  {
    var all := Zeros(k + len);
    assert all[..k] == Zeros(k) && all[k..k + len] == Zeros(len) && all[..k + len] == all;
    if k == 0 {
      NothingWritten(geo, h, s, begin);
    }
    geo.IndexOf(i, r);
    geo.PositionOf(s, i, r);
    geo.ClusterIsRun(s, begin + k, begin + k + len);
    hide Geometry.Wrote;
    RunExtends(geo, h, before, s, begin, all, k, len, geo.Start(s[i]) + r);
  }

  lemma NextBoundary(size: nat, i: nat, r: nat, pos: nat)
    requires At(size, i, r, pos)
    ensures r <= pos && At(size, i + 1, 0, pos - r + size)
  {
    MulMonotone(0, i, size);
  }

  lemma AtInside(size: nat, n: nat, i: nat, pos: nat, limit: nat)
    requires At(size, i, 0, pos) && pos < limit <= n * size
    ensures i < n
  {
    if n <= i {
      MulMonotone(n, i, size);
    }
  }

  lemma NothingWritten(geo: Geometry, h: seq<byte>, s: seq<nat>, offset: nat)
    ensures geo.Wrote(h, h, s, offset, [])
  {
  }

  const MAX_CLUSTER_SIZE: nat := 0x200_0000

  /** Bytes to clusters as the code computes it: a 64-bit sum and a 32-bit result. */
  function BytesToClusters(bytes: nat, size: nat): nat
    requires 0 < size
  {
    (bytes + size - 1) % 0x1_0000_0000_0000_0000 / size % 0x1_0000_0000
  }

  /** The computed cluster count is the true one exactly up to `2^32 - 1` clusters. */
  lemma ClusterCountExact(bytes: nat, size: nat)
    requires 0 < size <= MAX_CLUSTER_SIZE && bytes < 0x1_0000_0000_0000_0000
    ensures BytesToClusters(bytes, size) == CeilDiv(bytes, size) <==> bytes <= 0xffff_ffff * size
  {
    var sum := bytes + size - 1;
    if sum < 0x1_0000_0000_0000_0000 {
      WholeSum(sum);
      CeilDivBounds(bytes, size, 0xffff_ffff);
      WholeCount(CeilDiv(bytes, size));
    } else {
      WrappedSum(sum, size);
      CeilDivBounds(bytes, size, 0);
      MulMonotone(size, MAX_CLUSTER_SIZE, 0xffff_ffff);
    }
  }

  lemma WholeSum(sum: nat)
    requires sum < 0x1_0000_0000_0000_0000
    ensures sum % 0x1_0000_0000_0000_0000 == sum
  {
  }

  lemma WholeCount(q: nat)
    ensures q % 0x1_0000_0000 == q <==> q <= 0xffff_ffff
  {
  }

  lemma WrappedSum(sum: nat, size: nat)
    requires 0 < size && 0x1_0000_0000_0000_0000 <= sum < 0x1_0000_0000_0000_0000 + size <= 0x2_0000_0000_0000_0000
    ensures sum % 0x1_0000_0000_0000_0000 / size == 0
  {
    assert sum % 0x1_0000_0000_0000_0000 == sum - 0x1_0000_0000_0000_0000;
  }

  /** A request of 2^32 whole clusters counts as none. */
  lemma ClusterCountWraps(size: nat)
    requires 0 < size <= MAX_CLUSTER_SIZE
    ensures BytesToClusters(0x1_0000_0000 * size, size) == 0
  {
    CeilDivBounds(0x1_0000_0000 * size, size, 0x1_0000_0000);
    CeilDivBounds(0x1_0000_0000 * size, size, 0xffff_ffff);
  }

  /** The file's sizes agree with its chain. */
  ghost predicate Sized(v: Volume, n: Node)
    requires n in v.chains && 0 < v.geo.size
    reads v, n
  {
    n.validSize <= n.size && |v.chains[n]| == CeilDiv(n.size, v.geo.size)
  }

  /** The whole volume is consistent. */
  ghost predicate Valid(v: Volume)
    reads v, v.cmap.chunk, v.chains.Keys
  {
    && v.ClustersValid() && v.geo.size <= MAX_CLUSTER_SIZE
    && forall n | n in v.chains :: Sized(v, n)
  }

  /** What a file reads as. */
  ghost function View(v: Volume, n: Node): (w: seq<byte>)
    requires n in v.chains
    reads v, n
    ensures |w| == n.size
  {
    v.geo.View(v.heap, v.chains[n], n.validSize, n.size)
  }

  /** The plain-bytes meaning of a truncation: cut off, or extend with zeros. */
  ghost function Resize(bytes: seq<byte>, size: nat): (r: seq<byte>)
    ensures |r| == size
  {
    if size <= |bytes| then bytes[..size] else bytes + Zeros(size - |bytes|)
  }

  lemma ByteAtPrefix(geo: Geometry, h: seq<byte>, s: seq<nat>, t: seq<nat>, j: nat)
    requires s <= t && geo.Inside(|s|, j)
    ensures geo.ByteAt(h, s, j) == geo.ByteAt(h, t, j)
  {
  }

  /** Growing or cutting the chain and zeroing from the old valid size on resizes the view. */
  lemma ResizedView(geo: Geometry, h: seq<byte>, h': seq<byte>, s: seq<nat>, t: seq<nat>,
                    valid: nat, size: nat, size': nat, upTo: nat, valid': nat)
    requires geo.Fits(h) && InRange(geo.count, t) && NoDuplicates(t)
    requires (s <= t || t <= s) && valid <= size
    requires size <= |s| * geo.size && size' <= |t| * geo.size
    requires valid <= upTo && geo.Wrote(h, h', t, valid, Zeros(upTo - valid))
    requires valid' == Min(valid, size') || (valid' == size' <= upTo)
    ensures geo.View(h', t, valid', size') == Resize(geo.View(h, s, valid, size), size')
  {
    hide Geometry.Wrote;
    forall j: nat | j < size'
      ensures geo.View(h', t, valid', size')[j] == Resize(geo.View(h, s, valid, size), size')[j]
    {
      if j < valid' {
        geo.WroteOwn(h, h', t, valid, Zeros(upTo - valid), j);
        geo.InsideIff(|t|, j);
        if j < valid {
          geo.InsideIff(|s|, j);
          if s <= t {
            ByteAtPrefix(geo, h, s, t, j);
          } else {
            ByteAtPrefix(geo, h, t, s, j);
          }
        }
      }
    }
  }

  /** A write to one file leaves the view of a file with a disjoint chain alone. */
  lemma OtherView(geo: Geometry, h: seq<byte>, h': seq<byte>, s: seq<nat>, offset: nat, data: seq<byte>,
                  t: seq<nat>, valid: nat, size: nat)
    requires geo.Fits(h) && InRange(geo.count, t) && Disjoint(s, t) && geo.Wrote(h, h', s, offset, data)
    ensures geo.View(h', t, valid, size) == geo.View(h, t, valid, size)
  {
    hide Geometry.Wrote;
    forall j: nat | j < size
      ensures geo.View(h', t, valid, size)[j] == geo.View(h, t, valid, size)[j]
    {
      geo.WroteOther(h, h', s, offset, data, t, j);
    }
  }

  /** Every other file keeps its chain and reads as before. */
  twostate predicate OthersUntouched(v: Volume, n: Node)
    reads v, v.chains.Keys
  {
    && v.chains.Keys == old(v.chains).Keys
    && forall m | m in v.chains && m in old(v.chains) && m != n ::
         v.chains[m] == old(v.chains)[m] && View(v, m) == old(View(v, m))
  }

  /** The number of clusters still free. */
  ghost function FreeCount(v: Volume): nat
    requires v.cmap.Valid()
    reads v.cmap.chunk
  {
    |FreeClusters(v.cmap.Bits())|
  }

  /** Gives a file the clusters that the code counts for `size` bytes. */
  method ResizeChain(v: Volume, n: Node, size: nat) returns (r: Status)
    requires Valid(v) && n in v.chains
    modifies v`fat, v`chains, v`cmapDirty, v.cmap.chunk
    modifies n`startCluster, n`isContiguous, n`isDirty, n`fptrIndex, n`fptrCluster
    ensures v.ClustersValid() && n in v.chains
    ensures r.ENOSPC? <==> BytesToClusters(size, v.geo.size) > |old(v.chains)[n]| + old(FreeCount(v))
    ensures r.ENOSPC? ==> v.chains == old(v.chains) && v.cmap.Bits() == old(v.cmap.Bits())
    ensures r.OK? ==> v.chains == old(v.chains)[n := v.chains[n]] && |v.chains[n]| == BytesToClusters(size, v.geo.size)
    ensures r.OK? ==> old(v.chains)[n] <= v.chains[n] || v.chains[n] <= old(v.chains)[n]
    ensures |v.chains[n]| + FreeCount(v) == |old(v.chains)[n]| + old(FreeCount(v))
  {
    hide Partition;
    hide RecordedAs;
    hide FreeClusters;
    ChainSize(v, n);
    ClusterCountExact(n.size, v.geo.size);
    hide BytesToClusters;
    hide CeilDiv;
    var c1 := BytesToClusters(n.size, v.geo.size);
    var c2 := BytesToClusters(size, v.geo.size);
    r := OK;
    if c1 < c2 {
      r := v.GrowFile(n, c1, c2 - c1);
    } else if c1 > c2 {
      v.ShrinkFile(n, c1, c1 - c2);
    } else {
      Overwrites(v.chains, n, v.chains[n], v.chains[n]);
    }
    assert old(v.chains) - {n} == v.chains - {n};
    OwnPlusFree(old(v.cmap.Bits()), old(v.chains), v.cmap.Bits(), v.chains, v.reserved, n);
  }

  /** A file is no larger than the heap. */
  lemma ChainSize(v: Volume, n: Node)
    requires Valid(v) && n in v.chains
    ensures n.size <= |v.chains[n]| * v.geo.size <= 0xffff_ffff * v.geo.size
    ensures n.size < 0x1_0000_0000_0000_0000
    ensures v.Attached(n) && v.OthersRecorded(n)
  {
    var s := v.chains[n];
    ChainFacts(v.cmap.Bits(), v.chains, v.reserved, n);
    NoMoreThan(v.geo.count, s);
    CeilDivBounds(n.size, v.geo.size, |s|);
    MulMonotone(|s|, 0xffff_ffff, v.geo.size);
    MulMonotone(v.geo.size, MAX_CLUSTER_SIZE, 0xffff_ffff);
  }

  /** Sets the sizes of a file whose chain is long enough for `size` bytes, erasing on disk
      the bytes `validSize .. upTo` when asked to. */
  method SetSize(v: Volume, n: Node, size: nat, erase: bool) returns (ghost upTo: nat)
    requires v.ClustersValid() && n in v.chains && |v.chains[n]| == CeilDiv(size, v.geo.size)
    modifies v`heap, n`size, n`validSize, n`isDirty, n`fptrIndex, n`fptrCluster
    ensures v.ClustersValid() && n.size == size
    ensures n.validSize == if erase then size else Min(old(n.validSize), size)
    ensures old(n.validSize) <= upTo && (erase ==> size <= upTo) && (!erase ==> v.heap == old(v.heap))
    ensures v.geo.Wrote(old(v.heap), v.heap, v.chains[n], old(n.validSize), Zeros(upTo - old(n.validSize)))
  {
    hide Partition;
    hide RecordedAs;
    hide AttachedAs;
    hide Geometry.Wrote;
    AttachedToo(v, n);
    CeilDivBounds(size, v.geo.size, |v.chains[n]|);
    upTo := n.validSize;
    NothingWritten(v.geo, v.heap, v.chains[n], n.validSize);
    if erase {
      upTo := EraseRange(v, n, n.validSize, size);
      n.validSize := size;
    } else {
      n.validSize := Min(n.validSize, size);
    }
    n.size := size;
    n.isDirty := true;
  }

  lemma AttachedToo(v: Volume, n: Node)
    requires v.AllRecorded() && n in v.chains
    ensures v.Attached(n)
  {
  }

  lemma CountedExactly(bytes: nat, size: nat)
    requires 0 < size <= MAX_CLUSTER_SIZE && bytes <= 0xffff_ffff * size
    ensures BytesToClusters(bytes, size) == CeilDiv(bytes, size)
  {
    MulMonotone(size, MAX_CLUSTER_SIZE, 0xffff_ffff);
    ClusterCountExact(bytes, size);
  }

  /** Truncation to any 64-bit size without erasing, with the cluster count the code computes:
      it leaves a consistent volume exactly up to `2^32 - 1` clusters. */
  method TruncateAnySize(v: Volume, n: Node, size: nat) returns (r: Status)
    requires Valid(v) && n in v.chains && size < 0x1_0000_0000_0000_0000
    modifies v`fat, v`chains, v`cmapDirty, v.cmap.chunk, n
    ensures v.ClustersValid() && v.chains.Keys == old(v.chains.Keys)
    ensures r.ENOSPC? <==> BytesToClusters(size, v.geo.size) > |old(v.chains)[n]| + old(FreeCount(v))
    ensures r.ENOSPC? ==> Valid(v)
    ensures r.OK? ==> n.size == size && |v.chains[n]| == BytesToClusters(size, v.geo.size)
    ensures r.OK? ==> (Valid(v) <==> size <= 0xffff_ffff * v.geo.size)
  {
    hide Partition, RecordedAs, CeilDiv, FreeClusters, BytesToClusters;
    ChainSize(v, n);
    ClusterCountExact(n.size, v.geo.size);
    ClusterCountExact(size, v.geo.size);
    if n.size == size {
      return OK;
    }
    r := ResizeChain(v, n, size);
    if r == OK {
      n.validSize := Min(n.validSize, size);
      n.size := size;
      n.isDirty := true;
      assert Sized(v, n) <==> size <= 0xffff_ffff * v.geo.size;
    }
  }

  /** Sets a file's size to a different one. */
  method ChangeSize(v: Volume, n: Node, size: nat, erase: bool) returns (r: Status)
    requires Valid(v) && n in v.chains && size <= 0xffff_ffff * v.geo.size && n.size != size
    modifies v`fat, v`heap, v`chains, v`cmapDirty, v.cmap.chunk, n
    ensures Valid(v) && n in v.chains && OthersUntouched(v, n)
    ensures r.ENOSPC? <==> CeilDiv(size, v.geo.size) > |old(v.chains)[n]| + old(FreeCount(v))
    ensures r.ENOSPC? ==>
              && v.chains == old(v.chains) && v.cmap.Bits() == old(v.cmap.Bits()) && v.heap == old(v.heap)
              && n.size == old(n.size) && n.validSize == old(n.validSize) && n.startCluster == old(n.startCluster)
    ensures r.OK? ==> n.size == size && View(v, n) == Resize(old(View(v, n)), size)
    ensures r.OK? ==> n.validSize == if erase then size else Min(old(n.validSize), size)
    ensures |v.chains[n]| + FreeCount(v) == |old(v.chains)[n]| + old(FreeCount(v))
    ensures old(v.chains)[n] <= v.chains[n] || v.chains[n] <= old(v.chains)[n]
    ensures !erase ==> v.heap == old(v.heap)
  {
    hide Partition;
    hide RecordedAs;
    hide AttachedAs;
    hide Geometry.View;
    hide Geometry.Wrote;
    hide CeilDiv;
    hide FreeClusters;
    hide Resize;
    ghost var h := v.heap;
    ghost var s := v.chains[n];
    ghost var valid, was := n.validSize, n.size;
    ChainSize(v, n);
    CountedExactly(size, v.geo.size);
    hide BytesToClusters;
    ghost var fat, contiguous, start := v.fat, n.isContiguous, n.startCluster;
    ghost var index, cluster := n.fptrIndex, n.fptrCluster;
    assert RecordedAs(fat, s, contiguous, start, index, cluster);
    r := ResizeChain(v, n, size);
    if r != OK {
      assert RecordedAs(v.fat, s, n.isContiguous, n.startCluster, n.fptrIndex, n.fptrCluster);
      SameStart(fat, s, contiguous, start, index, cluster, v.fat, n.isContiguous, n.startCluster, n.fptrIndex,
                n.fptrCluster);
      return;
    }
    ghost var upTo := SetSize(v, n, size, erase);
    ghost var t := v.chains[n];
    ghost var bits, chains := v.cmap.Bits(), v.chains;
    ChainFacts(bits, chains, v.reserved, n);
    CeilDivBounds(size, v.geo.size, |t|);
    ResizedView(v.geo, h, v.heap, s, t, valid, was, size, upTo, n.validSize);
    forall m | m in v.chains && m != n
      ensures View(v, m) == old(View(v, m))
    {
      ChainFacts(bits, chains, v.reserved, m);
      OtherView(v.geo, h, v.heap, t, valid, Zeros(upTo - valid), chains[m], m.validSize, m.size);
    }
  }

  /** Sets a file's size: on the plain bytes a cut or an extension with zeros, whether or
      not the new part is erased on disk. It fails exactly when the free clusters do not
      suffice, and then changes nothing a reader or the allocator can see. */
  method Truncate(v: Volume, n: Node, size: nat, erase: bool) returns (r: Status)
    requires Valid(v) && n in v.chains && size <= 0xffff_ffff * v.geo.size
    modifies v`fat, v`heap, v`chains, v`cmapDirty, v.cmap.chunk, n
    ensures Valid(v) && n in v.chains && OthersUntouched(v, n)
    ensures r.ENOSPC? <==> CeilDiv(size, v.geo.size) > |old(v.chains)[n]| + old(FreeCount(v))
    ensures r.ENOSPC? ==>
              && v.chains == old(v.chains) && v.cmap.Bits() == old(v.cmap.Bits()) && v.heap == old(v.heap)
              && n.size == old(n.size) && n.validSize == old(n.validSize) && n.startCluster == old(n.startCluster)
    ensures r.OK? ==> n.size == size && View(v, n) == Resize(old(View(v, n)), size)
    ensures r.OK? ==>
              n.validSize == if erase && size != old(n.size) then size else Min(old(n.validSize), size)
    ensures |v.chains[n]| + FreeCount(v) == |old(v.chains)[n]| + old(FreeCount(v))
    ensures old(v.chains)[n] <= v.chains[n] || v.chains[n] <= old(v.chains)[n]
    ensures !erase ==> v.heap == old(v.heap)
  {
    hide Partition;
    hide RecordedAs;
    hide AttachedAs;
    hide Geometry.View;
    hide CeilDiv;
    hide FreeClusters;
    hide Resize;
    if n.size == size {
      ResizeToSame(View(v, n));
      ChainSize(v, n);
      CeilDivBounds(size, v.geo.size, |v.chains[n]|);
      return OK;
    }
    r := ChangeSize(v, n, size, erase);
  }

  lemma ResizeToSame(bytes: seq<byte>)
    ensures Resize(bytes, |bytes|) == bytes
  {
  }

  const EINVAL: int := 22

  /** The file's bytes `from .. from + n` on disk. */
  ghost function DiskBytes(geo: Geometry, h: seq<byte>, s: seq<nat>, from: nat, n: nat): (b: seq<byte>)
    ensures |b| == n
  {
    seq<byte>(n, k requires 0 <= k < n => geo.ByteAt(h, s, from + k))
  }

  /** The part of a file that lies in one cluster is a slice of the heap. */
  lemma PieceOfCluster(geo: Geometry, h: seq<byte>, s: seq<nat>, i: nat, r: nat, pos: nat, len: nat)
    requires geo.Fits(h) && InRange(geo.count, s)
    requires i < |s| && 0 < len && r + len <= geo.size && At(geo.size, i, r, pos)
    ensures 0 <= geo.Start(s[i]) + r <= |h| - len
    ensures var at := geo.Start(s[i]) + r; h[at..at + len] == DiskBytes(geo, h, s, pos, len)
  {
    hide At;
    hide Geometry.Fits;
    hide Geometry.Start;
    hide Geometry.ByteAt;
    var at := geo.Start(s[i]) + r;
    ByteOfCluster(geo, h, s, i, r, pos, 0);
    ByteOfCluster(geo, h, s, i, r, pos, len - 1);
    forall k | 0 <= k < len
      ensures h[at..at + len][k] == DiskBytes(geo, h, s, pos, len)[k]
    {
      ByteOfCluster(geo, h, s, i, r, pos, k);
    }
  }

  lemma ByteOfCluster(geo: Geometry, h: seq<byte>, s: seq<nat>, i: nat, r: nat, pos: nat, k: nat)
    requires geo.Fits(h) && InRange(geo.count, s)
    requires i < |s| && r + k < geo.size && At(geo.size, i, r, pos)
    ensures 0 <= geo.Start(s[i]) + r + k < |h| && geo.ByteAt(h, s, pos + k) == h[geo.Start(s[i]) + r + k]
  {
    geo.PositionOf(s, i, r + k);
    geo.PositionInHeap(s, pos + k);
  }

  lemma MoreDiskBytes(geo: Geometry, h: seq<byte>, s: seq<nat>, from: nat, a: nat, b: nat)
    ensures DiskBytes(geo, h, s, from, a) + DiskBytes(geo, h, s, from + a, b) == DiskBytes(geo, h, s, from, a + b)
  {
  }

  /** Copies `data` into the buffer at `at`. */
  method CopyInto(buffer: array<byte>, at: nat, data: seq<byte>)
    requires at + |data| <= buffer.Length
    modifies buffer
    ensures buffer[..] == old(buffer[..at]) + data + old(buffer[at + |data|..])
  {
    forall k | 0 <= k < |data| {
      buffer[at + k] := data[k];
    }
  }

  /** Copies `data` into a buffer that holds `front` and then what it held before. */
  method CopyNext(buffer: array<byte>, at: nat, data: seq<byte>, ghost front: seq<byte>, ghost rest: seq<byte>)
    requires at == |front| && at + |data| <= |rest| == buffer.Length && buffer[..] == front + rest[at..]
    modifies buffer
    ensures buffer[..] == front + data + rest[at + |data|..]
  {
    CopyInto(buffer, at, data);
  }

  /** After `k` bytes of a read: the buffer holds them, then what it held before. */
  ghost predicate Holding(b: seq<byte>, geo: Geometry, h: seq<byte>, s: seq<nat>, offset: nat, k: nat, rest: seq<byte>)
  {
    k <= |rest| && b == DiskBytes(geo, h, s, offset, k) + rest[k..]
  }

  /** Reads the next `len` bytes from one cluster. */
  method ReadPiece(v: Volume, buffer: array<byte>, cluster: nat, loffset: nat, len: nat, done: nat,
                   ghost s: seq<nat>, ghost i: nat, ghost offset: nat, ghost rest: seq<byte>)
    requires v.Shape() && InRange(v.geo.count, s) && i < |s| && cluster == s[i]
    requires 0 < len && loffset + len <= v.geo.size && At(v.geo.size, i, loffset, offset + done)
    requires done + len <= |rest| == buffer.Length
    requires Holding(buffer[..], v.geo, v.heap, s, offset, done, rest)
    modifies buffer
    ensures Holding(buffer[..], v.geo, v.heap, s, offset, done + len, rest)
  {
    hide DiskBytes;
    hide At;
    hide Geometry.Fits;
    var at := v.geo.Start(cluster) + loffset;
    PieceOfCluster(v.geo, v.heap, s, i, loffset, offset + done, len);
    CopyNext(buffer, done, v.heap[at..at + len], DiskBytes(v.geo, v.heap, s, offset, done), rest);
    MoreDiskBytes(v.geo, v.heap, s, offset, done, len);
  }

  /** Reads what is left of one cluster, or of the request, and goes on to the next cluster. */
  method ReadNext(v: Volume, n: Node, buffer: array<byte>, cluster: nat, loffset: nat, remainder: nat, size: nat,
                  ghost offset: nat, ghost i: nat, ghost rest: seq<byte>) returns (lsize: nat, next: nat)
    requires v.Shape() && v.Attached(n) && InRange(v.geo.count, v.chains[n])
    requires 0 < remainder <= size <= |rest| == buffer.Length && offset + size <= |v.chains[n]| * v.geo.size
    requires i < |v.chains[n]| && cluster == v.chains[n][i] && loffset < v.geo.size
    requires At(v.geo.size, i, loffset, offset + size - remainder)
    requires Holding(buffer[..], v.geo, v.heap, v.chains[n], offset, size - remainder, rest)
    modifies buffer
    ensures 0 < lsize <= remainder
    ensures lsize < remainder ==>
              && i + 1 < |v.chains[n]| && next == v.chains[n][i + 1]
              && At(v.geo.size, i + 1, 0, offset + size - remainder + lsize)
    ensures Holding(buffer[..], v.geo, v.heap, v.chains[n], offset, size - remainder + lsize, rest)
  {
    hide AttachedAs, At, Holding, Geometry.Fits;
    ghost var s := v.chains[n];
    var done := size - remainder;
    lsize := Min(v.geo.size - loffset, remainder);
    ReadPiece(v, buffer, cluster, loffset, lsize, done, s, i, offset, rest);
    if lsize < remainder {
      NextBoundary(v.geo.size, i, loffset, offset + done);
      AtInside(v.geo.size, |s|, i + 1, offset + done + lsize, offset + size);
      WalkStep(v.fat, s, n.isContiguous, n.startCluster, n.fptrIndex, n.fptrCluster, i);
    }
    next := v.NextCluster(n, cluster);
  }

  lemma FirstPlace(geo: Geometry, n: nat, offset: nat, size: nat)
    requires 0 < size && 0 < geo.size && offset + size <= n * geo.size
    ensures 0 <= offset / geo.size < n && 0 <= offset % geo.size < geo.size
    ensures At(geo.size, offset / geo.size, offset % geo.size, offset)
  {
    geo.InsideIff(n, offset);
  }

  lemma HoldsNothing(b: seq<byte>, geo: Geometry, h: seq<byte>, s: seq<nat>, offset: nat)
    ensures Holding(b, geo, h, s, offset, 0, b)
  {
  }

  /** Reads bytes that all lie on the file's chain, cluster by cluster. */
  method ReadClusters(v: Volume, n: Node, buffer: array<byte>, size: nat, offset: nat)
    requires v.Shape() && v.Recorded(n) && v.Attached(n) && InRange(v.geo.count, v.chains[n])
    requires 0 < size <= buffer.Length && offset + size <= |v.chains[n]| * v.geo.size
    modifies buffer, n`fptrIndex, n`fptrCluster
    ensures v.Recorded(n)
    ensures Holding(buffer[..], v.geo, v.heap, v.chains[n], offset, size, old(buffer[..]))
  {
    hide RecordedAs, AttachedAs, DiskBytes, At, Holding, Geometry.Fits;
    ghost var s, rest := v.chains[n], buffer[..];
    var geo := v.geo;
    FirstPlace(geo, |s|, offset, size);
    HoldsNothing(rest, geo, v.heap, s, offset);
    var index: nat, loffset: nat := offset / geo.size, offset % geo.size;
    var cluster := v.AdvanceCluster(n, index);
    ghost var i: nat := index;
    var remainder: nat := size;
    while remainder > 0
      invariant remainder <= size
      invariant v.Attached(n) && v.Recorded(n)
      invariant remainder > 0 ==> i < |s| && cluster == s[i] && loffset < geo.size
      invariant remainder > 0 ==> At(geo.size, i, loffset, offset + size - remainder)
      invariant Holding(buffer[..], geo, v.heap, s, offset, size - remainder, rest)
    {
      var lsize;
      lsize, cluster := ReadNext(v, n, buffer, cluster, loffset, remainder, size, offset, i, rest);
      loffset := 0;
      remainder := remainder - lsize;
      i := i + 1;
    }
  }

  /** Below the valid size a file reads as its bytes on disk. */
  lemma ViewOfDisk(geo: Geometry, h: seq<byte>, s: seq<nat>, valid: nat, size: nat, offset: nat, n: nat)
    requires offset + n <= valid <= size
    ensures geo.View(h, s, valid, size)[offset..offset + n] == DiskBytes(geo, h, s, offset, n)
  {
  }

  /** From the valid size on a file reads as zeros. */
  lemma ViewOfGap(geo: Geometry, h: seq<byte>, s: seq<nat>, valid: nat, size: nat)
    requires valid <= size
    ensures geo.View(h, s, valid, size)[valid..] == Zeros(size - valid)
  {
  }

  /** Completes a read of the file `w` that goes past its valid size: `bytes` bytes have
      been read, the rest is zero. */
  method ZeroGap(buffer: array<byte>, bytes: nat, size: nat, offset: nat, validSize: nat, fileSize: nat,
                 ghost w: seq<byte>)
    returns (r: nat)
    requires 0 < size <= buffer.Length && |w| == fileSize && validSize <= |w| && offset < |w|
             && w[validSize..] == Zeros(|w| - validSize)
    requires bytes == Max(0, validSize - offset) && bytes < size && offset + size > validSize
    requires buffer[..bytes] == w[offset..offset + bytes]
    modifies buffer
    ensures r == Min(size, |w| - offset) && buffer[..r] == w[offset..offset + r]
    ensures buffer[size..] == old(buffer[size..])
  {
    var zeros := Min(size - bytes, fileSize - validSize);
    CopyInto(buffer, bytes, Zeros(zeros));
    r := Min(size, fileSize - offset);
    assert forall j | validSize <= j < |w| :: w[j] == w[validSize..][j - validSize];
  }

  /** Reads up to `size` bytes at `offset`: the bytes of the file's view that exist there,
      whatever the cached file pointer. */
  method Read(v: Volume, n: Node, buffer: array<byte>, size: nat, offset: int) returns (r: int)
    requires Valid(v) && n in v.chains && size <= buffer.Length
    requires offset < 0x8000_0000_0000_0000 && size < 0x8000_0000_0000_0000
    modifies buffer, n`fptrIndex, n`fptrCluster
    ensures Valid(v)
    ensures offset < 0 ==> r == -EINVAL && buffer[..] == old(buffer[..])
    ensures 0 <= offset ==> r == Max(0, Min(size, n.size - offset))
    ensures 0 < r ==> buffer[..r] == View(v, n)[offset..offset + r]
    ensures buffer[size..] == old(buffer[size..])
    decreases if 0 <= offset && offset + size > n.validSize then 1 else 0
  {
    hide Partition;
    hide RecordedAs;
    hide AttachedAs;
    hide Geometry.View;
    hide DiskBytes;
    hide CeilDiv;
    if offset < 0 {
      return -EINVAL;
    }
    if offset >= n.size {
      return 0;
    }
    if size == 0 {
      return 0;
    }
    if offset + size > n.validSize {
      var bytes := 0;
      if offset < n.validSize {
        bytes := Read(v, n, buffer, n.validSize - offset, offset);
      }
      ViewOfGap(v.geo, v.heap, v.chains[n], n.validSize, n.size);
      r := ZeroGap(buffer, bytes, size, offset, n.validSize, n.size, View(v, n));
      return;
    }
    ChainSize(v, n);
    ChainFacts(v.cmap.Bits(), v.chains, v.reserved, n);
    ReadClusters(v, n, buffer, size, offset);
    ViewOfDisk(v.geo, v.heap, v.chains[n], n.validSize, n.size, offset, size);
    return Min(size, n.size - offset);
  }

  const ENOSPC_CODE: int := 28

  /** The plain-bytes meaning of a write: extend with zeros as far as needed, then overwrite. */
  ghost function Overwritten(bytes: seq<byte>, offset: nat, buf: seq<byte>): (w: seq<byte>)
    ensures |w| == Max(|bytes|, offset + |buf|)
  {
    var full := Resize(bytes, Max(|bytes|, offset + |buf|));
    full[..offset] + buf + full[offset + |buf|..]
  }

  /** What the file reads as after a write, stale bytes included: bytes between the valid
      size and an offset inside the file come to light as they lie on disk. */
  ghost function AfterWrite(bytes: seq<byte>, valid: nat, disk: seq<byte>, offset: nat, buf: seq<byte>): (w: seq<byte>)
    requires valid <= |bytes| == |disk|
  {
    var w := Overwritten(bytes, offset, buf);
    if buf != [] && valid < offset <= |bytes| then w[..valid] + disk[valid..offset] + w[offset..] else w
  }

  /** A write has its plain-bytes meaning exactly when no stale byte comes to light: the
      request is empty, starts at or below the valid size or past the end, or the bytes in
      the gap are zero on disk. */
  lemma WriteIsExact(bytes: seq<byte>, valid: nat, disk: seq<byte>, offset: nat, buf: seq<byte>)
    requires valid <= |bytes| == |disk| && bytes[valid..] == Zeros(|bytes| - valid)
    ensures AfterWrite(bytes, valid, disk, offset, buf) == Overwritten(bytes, offset, buf) <==>
            buf == [] || offset <= valid || offset > |bytes| || disk[valid..offset] == Zeros(offset - valid)
  {
    if buf != [] && valid < offset <= |bytes| {
      hide Overwritten, Zeros;
      var w := Overwritten(bytes, offset, buf);
      ReplacedIff(w, disk[valid..offset], valid, offset);
      GapIsZero(bytes, valid, offset, buf);
    }
  }

  /** Replacing a part changes nothing exactly when the part is the same. */
  lemma ReplacedIff(w: seq<byte>, d: seq<byte>, a: nat, b: nat)
    requires a <= b <= |w| && |d| == b - a
    ensures w[..a] + d + w[b..] == w <==> d == w[a..b]
  {
    var r := w[..a] + d + w[b..];
    assert r[a..b] == d;
    assert w[..a] + w[a..b] + w[b..] == w;
  }

  lemma GapIsZero(bytes: seq<byte>, valid: nat, offset: nat, buf: seq<byte>)
    requires valid < offset <= |bytes| && bytes[valid..] == Zeros(|bytes| - valid)
    ensures Overwritten(bytes, offset, buf)[valid..offset] == Zeros(offset - valid)
  {
    var w := Overwritten(bytes, offset, buf);
    forall j | valid <= j < offset
      ensures w[j] == 0
    {
      assert bytes[j] == bytes[valid..][j - valid];
    }
  }

  /** The bytes on disk under a file's whole size. */
  ghost function DiskOf(v: Volume, n: Node): (d: seq<byte>)
    requires n in v.chains
    reads v, n
    ensures |d| == n.size
  {
    DiskBytes(v.geo, v.heap, v.chains[n], 0, n.size)
  }

  /** Overwriting bytes on disk and moving the valid size past them, from the view before. */
  lemma WrittenView(geo: Geometry, h: seq<byte>, h': seq<byte>, s: seq<nat>, valid: nat, size: nat,
                    offset: nat, buf: seq<byte>)
    requires geo.Fits(h) && InRange(geo.count, s) && NoDuplicates(s)
    requires valid <= size && buf != [] && offset + |buf| <= size
    requires geo.Wrote(h, h', s, offset, buf)
    ensures geo.View(h', s, Max(valid, offset + |buf|), size)
         == AfterWrite(geo.View(h, s, valid, size), valid, DiskBytes(geo, h, s, 0, size), offset, buf)
  {
    hide Geometry.Wrote, Geometry.ByteAt, AfterWrite, DiskBytes, Geometry.View;
    var valid' := Max(valid, offset + |buf|);
    var w, w' := geo.View(h, s, valid, size), geo.View(h', s, valid', size);
    var disk := DiskBytes(geo, h, s, 0, size);
    var after := AfterWrite(w, valid, disk, offset, buf);
    forall j: nat | j < size
      ensures j < |after| && w'[j] == after[j]
    {
      geo.WroteOwn(h, h', s, offset, buf, j);
      ViewAt(geo, h, s, valid, size, j);
      ViewAt(geo, h', s, valid', size, j);
      AfterWriteAt(w, valid, disk, offset, buf, j);
    }
    AfterWriteLength(w, valid, disk, offset, buf);
  }

  lemma ViewAt(geo: Geometry, h: seq<byte>, s: seq<nat>, valid: nat, size: nat, j: nat)
    requires j < size
    ensures geo.View(h, s, valid, size)[j] == if j < valid then geo.ByteAt(h, s, j) else 0
    ensures DiskBytes(geo, h, s, 0, size)[j] == geo.ByteAt(h, s, j)
  {
    hide Geometry.ByteAt;
  }

  /** A write inside the file, byte by byte. */
  lemma AfterWriteAt(bytes: seq<byte>, valid: nat, disk: seq<byte>, offset: nat, buf: seq<byte>, j: nat)
    requires valid <= |bytes| == |disk| && buf != [] && offset + |buf| <= |bytes| && j < |bytes|
    ensures j < |AfterWrite(bytes, valid, disk, offset, buf)|
    ensures AfterWrite(bytes, valid, disk, offset, buf)[j] ==
            if offset <= j < offset + |buf| then buf[j - offset] else if valid <= j < offset then disk[j] else bytes[j]
  {
    assert Resize(bytes, |bytes|) == bytes;
    assert Overwritten(bytes, offset, buf) == bytes[..offset] + buf + bytes[offset + |buf|..];
    hide Overwritten;
    var w := Overwritten(bytes, offset, buf);
    if valid < offset {
      assert AfterWrite(bytes, valid, disk, offset, buf)[j] ==
             if j < valid then w[j] else if j < offset then disk[valid..offset][j - valid] else w[offset..][j - offset];
    }
  }

  lemma AfterWriteLength(bytes: seq<byte>, valid: nat, disk: seq<byte>, offset: nat, buf: seq<byte>)
    requires valid <= |bytes| == |disk|
    ensures |AfterWrite(bytes, valid, disk, offset, buf)| == Max(|bytes|, offset + |buf|)
  {
  }

  /** A write past the end of a file of `size` bytes extends it to `offset` first; `room`
      clusters can belong to the file. */
  ghost predicate ExtendsFirst(v: Volume, size: nat, room: nat, offset: nat)
    requires 0 < v.geo.size
  {
    offset > size && CeilDiv(offset, v.geo.size) <= room
  }

  /** Makes room for a write of `len` bytes at `offset`: a gap past the end is zeroed on
      disk, the part that the write will cover is not. */
  method PrepareWrite(v: Volume, n: Node, len: nat, offset: nat) returns (r: Status)
    requires Valid(v) && n in v.chains && offset + len <= 0xffff_ffff * v.geo.size
    modifies v`fat, v`heap, v`chains, v`cmapDirty, v.cmap.chunk, n
    ensures Valid(v) && n in v.chains && OthersUntouched(v, n)
    ensures r.ENOSPC? <==>
              CeilDiv(Max(old(n.size), offset + len), v.geo.size) > |old(v.chains)[n]| + old(FreeCount(v))
    ensures r.ENOSPC? ==>
              View(v, n) == if ExtendsFirst(v, old(n.size), |old(v.chains)[n]| + old(FreeCount(v)), offset)
                            then Resize(old(View(v, n)), offset) else old(View(v, n))
    ensures r.OK? ==> n.size == Max(old(n.size), offset + len) && View(v, n) == Resize(old(View(v, n)), n.size)
    ensures r.OK? ==> n.validSize == if offset > old(n.size) then offset else old(n.validSize)
    ensures r.ENOSPC? ==>
              n.validSize == if ExtendsFirst(v, old(n.size), |old(v.chains)[n]| + old(FreeCount(v)), offset)
                             then offset else old(n.validSize)
    ensures |v.chains[n]| + FreeCount(v) == |old(v.chains)[n]| + old(FreeCount(v))
    ensures r.OK? && offset <= old(n.size) ==> v.heap == old(v.heap) && old(v.chains)[n] <= v.chains[n]
  {
    hide Valid, Geometry.View, FreeClusters, CeilDiv, Resize;
    ChainCount(v, n);
    CeilDivMonotone(offset, offset + len, v.geo.size);
    CeilDivMonotone(n.size, offset + len, v.geo.size);
    ResizeAgain(View(v, n), offset, offset + len);
    r := OK;
    if offset > n.size {
      r := Truncate(v, n, offset, true);
      if r != OK {
        return;
      }
    }
    if offset + len > n.size {
      r := Truncate(v, n, offset + len, false);
    }
    ChainCount(v, n);
  }

  lemma ChainCount(v: Volume, n: Node)
    requires Valid(v) && n in v.chains
    ensures v.cmap.Valid() && v.geo.size > 0 && |v.chains[n]| == CeilDiv(n.size, v.geo.size) && n.validSize <= n.size
  {
    hide Partition, RecordedAs, CeilDiv;
  }

  lemma ResizeAgain(bytes: seq<byte>, a: nat, b: nat)
    requires a <= b
    ensures |bytes| <= a ==> Resize(Resize(bytes, a), b) == Resize(bytes, b)
    ensures Resize(bytes, |bytes|) == bytes
  {
  }

  /** Writes `buf` inside the file. */
  method WriteInside(v: Volume, n: Node, buf: seq<byte>, offset: nat) returns (ghost runs: seq<Run>)
    requires Valid(v) && n in v.chains && buf != [] && offset + |buf| <= n.size
    modifies v`heap, n`validSize, n`fptrIndex, n`fptrCluster
    ensures Valid(v) && OthersUntouched(v, n)
    ensures View(v, n) == AfterWrite(old(View(v, n)), old(n.validSize), old(DiskOf(v, n)), offset, buf)
    ensures n.validSize == Max(old(n.validSize), offset + |buf|)
    ensures Covered(runs) == Positions(v.geo, v.chains[n], offset, |buf|)
    ensures forall i | 0 <= i < |runs| :: 0 < runs[i].len <= MAX_WRITE_RUN - 1 + v.geo.size
  {
    hide Partition;
    hide RecordedAs;
    hide AttachedAs;
    hide Geometry.View;
    hide CeilDiv;
    hide AfterWrite;
    hide Covered;
    hide Positions;
    hide Geometry.PerClusterWrite;
    hide Geometry.Wrote;
    hide DiskBytes;
    ghost var h, s, valid := v.heap, v.chains[n], n.validSize;
    ghost var bits, chains := v.cmap.Bits(), v.chains;
    ChainSize(v, n);
    ChainFacts(bits, chains, v.reserved, n);
    runs := WriteRuns(v, n, buf, offset);
    v.geo.PerClusterWrote(h, s, offset, buf);
    WrittenView(v.geo, h, v.heap, s, valid, n.size, offset, buf);
    forall m | m in v.chains && m != n
      ensures View(v, m) == old(View(v, m))
    {
      ChainFacts(bits, chains, v.reserved, m);
      OtherView(v.geo, h, v.heap, s, offset, buf, chains[m], m.validSize, m.size);
    }
  }

  /** Making room first does not change what the write means. */
  lemma RoomFirst(w: seq<byte>, valid: nat, disk: seq<byte>, w': seq<byte>, valid': nat, disk': seq<byte>,
                  offset: nat, buf: seq<byte>)
    requires valid <= |w| == |disk| && valid' <= |w'| == |disk'|
    requires w' == Resize(w, Max(|w|, offset + |buf|)) && valid' == if offset > |w| then offset else valid
    requires offset <= |w| ==> disk <= disk'
    ensures AfterWrite(w', valid', disk', offset, buf) == AfterWrite(w, valid, disk, offset, buf)
    ensures buf == [] ==> AfterWrite(w, valid, disk, offset, buf) == w'
  {
    assert Overwritten(w', offset, buf) == Overwritten(w, offset, buf);
    if buf != [] && valid < offset <= |w| {
      assert disk'[valid..offset] == disk[valid..offset];
    }
  }

  /** Writes `buf` at `offset`. On success the file reads as `AfterWrite` says. A write that
      runs out of space changes no byte, but one that starts past the end may already have
      extended the file to its offset. */
  method Write(v: Volume, n: Node, buf: seq<byte>, offset: int) returns (r: int, ghost runs: seq<Run>)
    requires Valid(v) && n in v.chains && offset + |buf| <= 0xffff_ffff * v.geo.size
    modifies v`fat, v`heap, v`chains, v`cmapDirty, v.cmap.chunk, n
    ensures Valid(v) && n in v.chains && OthersUntouched(v, n)
    ensures r == -EINVAL || r == -ENOSPC_CODE || r == |buf|
    ensures r == -EINVAL <==> offset < 0
    ensures r == -EINVAL ==> View(v, n) == old(View(v, n))
    ensures r == -ENOSPC_CODE <==>
              0 <= offset
              && CeilDiv(Max(old(n.size), offset + |buf|), v.geo.size) > |old(v.chains)[n]| + old(FreeCount(v))
    ensures r == -ENOSPC_CODE ==>
              View(v, n) == if ExtendsFirst(v, old(n.size), |old(v.chains)[n]| + old(FreeCount(v)), offset)
                            then Resize(old(View(v, n)), offset) else old(View(v, n))
    ensures r >= 0 ==> View(v, n) == AfterWrite(old(View(v, n)), old(n.validSize), old(DiskOf(v, n)), offset, buf)
    ensures r >= 0 ==>
              n.validSize == Max(if offset > old(n.size) then offset else old(n.validSize),
                                 if buf == [] then 0 else offset + |buf|)
    ensures r < 0 ==>
              n.validSize ==
              if r == -ENOSPC_CODE && ExtendsFirst(v, old(n.size), |old(v.chains)[n]| + old(FreeCount(v)), offset)
              then offset else old(n.validSize)
    ensures |v.chains[n]| + FreeCount(v) == |old(v.chains)[n]| + old(FreeCount(v))
    ensures r > 0 ==> Covered(runs) == Positions(v.geo, v.chains[n], offset, |buf|)
    ensures forall i | 0 <= i < |runs| :: 0 < runs[i].len <= MAX_WRITE_RUN - 1 + v.geo.size
  {
    hide Partition;
    hide RecordedAs;
    hide AttachedAs;
    hide Geometry.View;
    hide FreeClusters;
    hide CeilDiv;
    hide AfterWrite;
    hide Covered;
    hide Positions;
    hide DiskBytes;
    hide Resize;
    runs := [];
    if offset < 0 {
      return -EINVAL, [];
    }
    ghost var w, valid, disk := View(v, n), n.validSize, DiskOf(v, n);
    ghost var h, s := v.heap, v.chains[n];
    ChainSize(v, n);
    var rc := PrepareWrite(v, n, |buf|, offset);
    if rc != OK {
      return -ENOSPC_CODE, [];
    }
    if offset <= |w| {
      DiskPrefix(v.geo, h, s, v.chains[n], |w|, n.size);
    }
    RoomFirst(w, valid, disk, View(v, n), n.validSize, DiskOf(v, n), offset, buf);
    if buf == [] {
      return 0, [];
    }
    runs := WriteInside(v, n, buf, offset);
    r := |buf|;
  }

  lemma DiskPrefix(geo: Geometry, h: seq<byte>, s: seq<nat>, t: seq<nat>, a: nat, b: nat)
    requires s <= t && a <= b && a <= |s| * geo.size && 0 < geo.size
    ensures DiskBytes(geo, h, s, 0, a) <= DiskBytes(geo, h, t, 0, b)
  {
    forall j: nat | j < a
      ensures geo.ByteAt(h, s, j) == geo.ByteAt(h, t, j)
    {
      geo.InsideIff(|s|, j);
      ByteAtPrefix(geo, h, s, t, j);
    }
  }

  /** Counts the free clusters: with the files' clusters and the reserved ones they make up
      the whole heap. */
  method CountFreeClusters(v: Volume) returns (free: nat)
    requires v.Allocated()
    ensures free == FreeCount(v)
    ensures free + TotalLength(v.chains) + |v.reserved| == v.geo.count
  {
    hide Partition;
    free := 0;
    ghost var bits := v.cmap.Bits();
    ghost var seen: set<nat> := {};
    for i := 0 to v.cmap.size
      invariant seen == set c: nat | c < i + FIRST_DATA_CLUSTER && FreeBit(bits, c)
      invariant free == |seen|
    {
      var b := v.cmap.Get(i);
      if !b {
        free := free + 1;
        seen := seen + {i + FIRST_DATA_CLUSTER};
      }
    }
    assert seen == FreeClusters(bits);
    Conservation(bits, v.chains, v.reserved);
  }

  /** A volume with nothing on it. */
  method EmptyVolume(geo: Geometry, heap: seq<byte>) returns (v: Volume)
    requires 0 < geo.size <= MAX_CLUSTER_SIZE && geo.count <= MAX_CLUSTER_COUNT && geo.Fits(heap)
    ensures fresh(v) && fresh(v.cmap.chunk) && Valid(v) && v.chains == map[] && v.geo == geo && v.heap == heap
    ensures FreeCount(v) == geo.count
  {
    var cmap := new Bitmap(geo.count);
    v := new Volume(geo, cmap, seq(geo.count + FIRST_DATA_CLUSTER, _ => CLUSTER_FREE), heap, map[], {});
    Conservation(v.cmap.Bits(), v.chains, v.reserved);
  }

  /** A new node: an empty file that owns no cluster. */
  method AddFile(v: Volume) returns (n: Node)
    requires Valid(v)
    modifies v`chains
    ensures Valid(v) && fresh(n) && v.chains == old(v.chains)[n := []] && View(v, n) == []
    ensures n.size == n.validSize == 0
    ensures forall m | m in old(v.chains) :: View(v, m) == old(View(v, m))
  {
    hide Geometry.View;
    hide Partition;
    hide RecordedAs;
    hide CeilDiv;
    CeilDivBounds(0, v.geo.size, 0);
    n := new Node();
    EmptyChainKeepsPartition(v.cmap.Bits(), v.chains, v.reserved, n);
    EmptyRecorded(v.fat);
    v.chains := v.chains[n := []];
  }

  /** The gap does show stale bytes: on an empty volume whose heap holds sevens, a new file is
      extended to two bytes without erasing, and one byte is written at offset 1. */
  method GapShowsStaleBytes() returns (v: Volume, n: Node)
    ensures n in v.chains && View(v, n) == [7, 9] != Overwritten([0, 0], 1, [9])
  {
    hide *;
    StaleGap();
    v := EmptyVolume(Geometry(4, 4), seq(16, _ => 7));
    n := AddFile(v);
    var rc := Truncate(v, n, 2, false);
    DiskOfSevens(v, n);
    ghost var runs;
    var r;
    r, runs := Write(v, n, [9], 1);
  }

  lemma StaleGap()
    ensures Geometry(4, 4).Fits(seq(16, _ => 7)) && CeilDiv(2, 4) == 1 && Resize([], 2) == [0, 0]
    ensures AfterWrite([0, 0], 0, [7, 7], 1, [9]) == [7, 9] && Overwritten([0, 0], 1, [9]) == [0, 9]
    ensures MAX_CLUSTER_SIZE > 4 && MAX_CLUSTER_COUNT > 4 && Min(0, 2) == 0 && Max(2, 2) == 2
    ensures EINVAL != 0 && ENOSPC_CODE != 0
  {
  }

  lemma DiskOfSevens(v: Volume, n: Node)
    requires Valid(v) && n in v.chains && v.heap == seq(16, _ => 7) && v.geo == Geometry(4, 4) && n.size == 2
    ensures DiskOf(v, n) == [7, 7] && |v.chains[n]| == 1
  {
    hide Partition, Geometry.Position;
    ChainFacts(v.cmap.Bits(), v.chains, v.reserved, n);
    forall j: nat | j < 2
      ensures v.geo.ByteAt(v.heap, v.chains[n], j) == 7
    {
      v.geo.PositionInHeap(v.chains[n], j);
    }
  }
}
