/** File contents on the cluster heap: where each byte of a file lies, what the file reads
    as, and what device writes do to it. */
module Content {
  import opened Arithmetic
  import opened Basics
  import opened Bitmaps
  import opened Chains

  /** The cluster heap: `count` clusters of `size` bytes. */
  datatype Geometry = Geometry(count: nat, size: nat) {

    ghost predicate Fits(heap: seq<byte>) {
      0 < size && |heap| == count * size
    }

    /** Start of cluster `c` on the heap. */
    function Start(c: nat): int {
      (c - FIRST_DATA_CLUSTER) * size
    }

    /** Byte `j` lies in a file of `n` clusters. */
    predicate Inside(n: nat, j: nat) {
      0 < size && j / size < n
    }

    /** Heap position of byte `j` of the file whose clusters are `s`. */
    function Position(s: seq<nat>, j: nat): int
      requires Inside(|s|, j)
    {
      Start(s[j / size]) + j % size
    }

    lemma InsideIff(n: nat, j: nat)
      requires 0 < size
      ensures Inside(n, j) <==> j < n * size
    {
      assert j == j / size * size + j % size;
      if j / size < n {
        MulMonotone(j / size + 1, n, size);
      } else {
        MulMonotone(n, j / size, size);
      }
    }

    lemma PositionInHeap(s: seq<nat>, j: nat)
      requires Inside(|s|, j) && InRange(count, s)
      ensures 0 <= Position(s, j) < count * size
    {
      var i := s[j / size] - FIRST_DATA_CLUSTER;
      MulMonotone(0, i, size);
      MulMonotone(i + 1, count, size);
    }

    lemma SamePlace(s: seq<nat>, t: seq<nat>, i: nat, k: nat, x: nat, y: nat)
      requires i < |s| && k < |t| && x < size && y < size
      requires Start(s[i]) + x == Start(t[k]) + y
      ensures s[i] == t[k] && x == y
    {
      QuotientUnique(size, s[i] - FIRST_DATA_CLUSTER, t[k] - FIRST_DATA_CLUSTER, x, y);
    }

    /** Different bytes of one file lie at different positions. */
    lemma PositionInjective(s: seq<nat>, j: nat, k: nat)
      requires Inside(|s|, j) && Inside(|s|, k) && NoDuplicates(s)
      ensures Position(s, j) == Position(s, k) ==> j == k
    {
      hide Geometry.Start;
      if Position(s, j) == Position(s, k) {
        SamePlace(s, s, j / size, k / size, j % size, k % size);
        SameParts(size, j, k);
      }
    }

    /** Bytes of two files with disjoint chains lie at different positions. */
    lemma PositionDisjoint(s: seq<nat>, t: seq<nat>, j: nat, k: nat)
      requires Inside(|s|, j) && Inside(|t|, k) && Disjoint(s, t)
      ensures Position(s, j) != Position(t, k)
    {
      hide Geometry.Start;
      if Position(s, j) == Position(t, k) {
        SamePlace(s, t, j / size, k / size, j % size, k % size);
        assert false;
      }
    }

    /** Byte `j` of the file with clusters `s`. */
    ghost function ByteAt(heap: seq<byte>, s: seq<nat>, j: nat): byte {
      if Inside(|s|, j) && 0 <= Position(s, j) < |heap| then heap[Position(s, j)] else 0
    }

    /** What a file reads as: its bytes on disk up to `valid`, then zeros up to `length`. */
    ghost function View(heap: seq<byte>, s: seq<nat>, valid: nat, length: nat): (v: seq<byte>)
      ensures |v| == length
    {
      seq(length, j requires 0 <= j < length => if j < valid then ByteAt(heap, s, j) else 0)
    }

    /** Position `p` holds one of the file's bytes `from .. to`. */
    ghost predicate Covers(s: seq<nat>, from: nat, to: nat, p: int) {
      exists j: nat :: from <= j < to && Inside(|s|, j) && Position(s, j) == p
    }

    /** `after` is `before` with the file's bytes at `offset` replaced by `data` and nothing
        else changed. */
    ghost predicate Wrote(before: seq<byte>, after: seq<byte>, s: seq<nat>, offset: nat, data: seq<byte>) {
      && |after| == |before|
      && (forall i: nat | i < |data| :: ByteAt(after, s, offset + i) == data[i])
      && (forall p | 0 <= p < |before| && !Covers(s, offset, offset + |data|, p) :: after[p] == before[p])
    }

    /** The file's bytes `from .. to` lie one after the other on the heap. */
    ghost predicate IsRun(s: seq<nat>, from: nat, to: nat) {
      forall j: nat | from <= j < to ::
        Inside(|s|, from) && Inside(|s|, j) && Position(s, j) == Position(s, from) + (j - from)
    }

    /** One device write of a run writes exactly those bytes of the file. */
    lemma RunWrote(h: seq<byte>, s: seq<nat>, from: nat, data: seq<byte>)
      requires Fits(h) && InRange(count, s)
      requires data != [] && IsRun(s, from, from + |data|)
      ensures Inside(|s|, from) && 0 <= Position(s, from) <= |h| - |data|
      ensures Wrote(h, Patched(h, Position(s, from), data), s, from, data)
    {
      var last := from + |data| - 1;
      assert Inside(|s|, last) && Position(s, last) == Position(s, from) + (last - from);
      PositionInHeap(s, from);
      PositionInHeap(s, last);
      var at := Position(s, from);
      var h' := Patched(h, at, data);
      forall i: nat | i < |data|
        ensures ByteAt(h', s, from + i) == data[i]
      {
        assert Position(s, from + i) == at + i;
      }
      forall p {:trigger Covers(s, from, from + |data|, p)} | at <= p < at + |data|
        ensures Covers(s, from, from + |data|, p)
      {
        assert Position(s, from + (p - at)) == p;
      }
    }

    /** Two writes, the second where the first ended, are one write of both. */
    lemma WroteThen(h: seq<byte>, h1: seq<byte>, h2: seq<byte>, s: seq<nat>, offset: nat, a: seq<byte>, b: seq<byte>)
      requires Fits(h) && InRange(count, s) && NoDuplicates(s)
      requires Wrote(h, h1, s, offset, a) && Wrote(h1, h2, s, offset + |a|, b)
      ensures Wrote(h, h2, s, offset, a + b)
    {
      forall i: nat | i < |a + b|
        ensures ByteAt(h2, s, offset + i) == (a + b)[i]
      {
        WroteOwn(h1, h2, s, offset + |a|, b, offset + i);
        WroteOwn(h, h1, s, offset, a, offset + i);
      }
      forall p | 0 <= p < |h| && !Covers(s, offset, offset + |a + b|, p)
        ensures h2[p] == h[p]
      {
        CoversWider(s, offset, offset + |a|, offset, offset + |a + b|, p);
        CoversWider(s, offset + |a|, offset + |a| + |b|, offset, offset + |a + b|, p);
      }
    }

    lemma CoversWider(s: seq<nat>, from: nat, to: nat, from': nat, to': nat, p: int)
      requires from' <= from && to <= to'
      ensures Covers(s, from, to, p) ==> Covers(s, from', to', p)
    {
    }

    /** Bytes of one cluster form a run. */
    lemma ClusterIsRun(s: seq<nat>, from: nat, to: nat)
      requires from < to && Inside(|s|, from) && to - from <= size - from % size
      ensures IsRun(s, from, to)
    {
      forall j: nat | from <= j < to
        ensures Inside(|s|, j) && Position(s, j) == Position(s, from) + (j - from)
      {
        SameCluster(from, j);
      }
    }

    /** The bytes of a cluster follow the last byte of the cluster numbered one less. */
    lemma AcrossBoundary(s: seq<nat>, i: nat, m: nat, r: nat)
      requires r < size && i + 1 < |s| && s[i + 1] == s[i] + 1
      requires m == (i + 1) * size && 0 < m
      ensures Inside(|s|, m - 1) && Inside(|s|, m + r) && Position(s, m + r) == Position(s, m - 1) + 1 + r
    {
      assert m - 1 == i * size + (size - 1);
      IndexOf(i, size - 1);
      IndexOf(i + 1, r);
      assert Start(s[i + 1]) == Start(s[i]) + size;
    }

    /** A run that ends at a cluster boundary goes on through the next cluster when that
        cluster has the next number. */
    lemma RunGoesOn(s: seq<nat>, from: nat, i: nat, m: nat, n: nat)
      requires i + 1 < |s| && s[i + 1] == s[i] + 1
      requires m == (i + 1) * size && from < m && n <= size
      requires IsRun(s, from, m)
      ensures IsRun(s, from, m + n)
    {
      forall j: nat | from <= j < m + n
        ensures Inside(|s|, from) && Inside(|s|, j) && Position(s, j) == Position(s, from) + (j - from)
      {
        assert Inside(|s|, m - 1) && Position(s, m - 1) == Position(s, from) + (m - 1 - from);
        if m <= j {
          AcrossBoundary(s, i, m, j - m);
        }
      }
    }

    lemma IndexOf(i: nat, r: nat)
      requires r < size
      ensures (i * size + r) / size == i && (i * size + r) % size == r
    {
      var j := i * size + r;
      assert j == j / size * size + j % size;
      QuotientUnique(size, i, j / size, r, j % size);
    }

    lemma PositionOf(s: seq<nat>, i: nat, r: nat)
      requires i < |s| && r < size
      ensures Inside(|s|, i * size + r) && Position(s, i * size + r) == Start(s[i]) + r
    {
      IndexOf(i, r);
    }

    lemma SameCluster(from: nat, j: nat)
      requires 0 < size && from <= j < from + (size - from % size)
      ensures j / size == from / size && j % size == from % size + (j - from)
    {
      assert from == from / size * size + from % size;
      assert j == j / size * size + j % size;
      QuotientUnique(size, from / size, j / size, from % size + (j - from), j % size);
    }

    /** The reference for a write: one device write per cluster touched. */
    ghost function PerClusterWrite(h: seq<byte>, s: seq<nat>, offset: nat, data: seq<byte>): (h': seq<byte>)
      requires Fits(h) && InRange(count, s) && offset + |data| <= |s| * size
      ensures Fits(h')
      decreases |data|
    {
      if data == [] then h
      else
        var n := Min(size - offset % size, |data|);
        InsideIff(|s|, offset);
        ClusterIsRun(s, offset, offset + n);
        RunWrote(h, s, offset, data[..n]);
        PerClusterWrite(Patched(h, Position(s, offset), data[..n]), s, offset + n, data[n..])
    }

    lemma {:induction false} PerClusterWrote(h: seq<byte>, s: seq<nat>, offset: nat, data: seq<byte>)
      requires Fits(h) && InRange(count, s) && NoDuplicates(s) && offset + |data| <= |s| * size
      ensures Wrote(h, PerClusterWrite(h, s, offset, data), s, offset, data)
      decreases |data|
    {
      if data != [] {
        var n := Min(size - offset % size, |data|);
        InsideIff(|s|, offset);
        ClusterIsRun(s, offset, offset + n);
        RunWrote(h, s, offset, data[..n]);
        var h1 := Patched(h, Position(s, offset), data[..n]);
        PerClusterWrote(h1, s, offset + n, data[n..]);
        WroteThen(h, h1, PerClusterWrite(h, s, offset, data), s, offset, data[..n], data[n..]);
        assert data[..n] + data[n..] == data;
      }
    }

    /** A write is determined by its specification. */
    lemma WroteUnique(h: seq<byte>, a: seq<byte>, b: seq<byte>, s: seq<nat>, offset: nat, data: seq<byte>)
      requires Fits(h) && InRange(count, s)
      requires Wrote(h, a, s, offset, data) && Wrote(h, b, s, offset, data)
      ensures a == b
    {
      forall p | 0 <= p < |h|
        ensures a[p] == b[p]
      {
        if Covers(s, offset, offset + |data|, p) {
          var j: nat :| offset <= j < offset + |data| && Inside(|s|, j) && Position(s, j) == p;
          var i := j - offset;
          assert ByteAt(a, s, offset + i) == data[i];
          assert ByteAt(b, s, offset + i) == data[i];
          assert offset + i == j;
        }
      }
    }

    /** A write changes the written bytes of its own file and no others. */
    lemma WroteOwn(h: seq<byte>, h': seq<byte>, s: seq<nat>, offset: nat, data: seq<byte>, j: nat)
      requires Fits(h) && InRange(count, s) && NoDuplicates(s) && Wrote(h, h', s, offset, data)
      ensures ByteAt(h', s, j) == if offset <= j < offset + |data| then data[j - offset] else ByteAt(h, s, j)
    {
      if offset <= j < offset + |data| {
        assert ByteAt(h', s, offset + (j - offset)) == data[j - offset];
      } else if Inside(|s|, j) {
        PositionInHeap(s, j);
        if Covers(s, offset, offset + |data|, Position(s, j)) {
          var k: nat :| offset <= k < offset + |data| && Inside(|s|, k) && Position(s, k) == Position(s, j);
          PositionInjective(s, j, k);
          assert false;
        }
      }
    }

    /** A write leaves every file with a disjoint chain as it was. */
    lemma WroteOther(h: seq<byte>, h': seq<byte>, s: seq<nat>, offset: nat, data: seq<byte>, t: seq<nat>, j: nat)
      requires Fits(h) && InRange(count, t) && Disjoint(s, t) && Wrote(h, h', s, offset, data)
      ensures ByteAt(h', t, j) == ByteAt(h, t, j)
    {
      if Inside(|t|, j) {
        PositionInHeap(t, j);
        if Covers(s, offset, offset + |data|, Position(t, j)) {
          var k: nat :| offset <= k < offset + |data| && Inside(|s|, k) && Position(s, k) == Position(t, j);
          PositionDisjoint(s, t, k, j);
          assert false;
        }
      }
    }
  }
}
