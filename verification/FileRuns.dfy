/** Runs of file operations: any sequence of new files, truncations and writes has the results
    and leaves the files that a replay on plain bytes gives. */
module FileRuns {
  import opened Arithmetic
  import opened Basics
  import opened Bitmaps
  import opened Chains
  import opened Content
  import opened FileIO
  import opened Volumes

  const ENOENT: int := 2

  // ----- The replay on plain bytes -----

  /** A file as a reader sees it, and how much of it is initialised on disk. */
  datatype Plain = Plain(bytes: seq<byte>, valid: nat)

  /** All files, in the order they were made, and the number of free clusters. */
  datatype Store = Store(files: seq<Plain>, free: nat)

  datatype Op =
    | AddOp
    | TruncateOp(file: nat, size: nat, erase: bool)
    | WriteOp(file: nat, buf: seq<byte>, offset: int)

  /** Sizes up to `2^32 - 1` clusters of `size` bytes. */
  predicate OpFits(size: nat, op: Op) {
    match op
    case AddOp => true
    case TruncateOp(_, length, _) => length <= 0xffff_ffff * size
    case WriteOp(_, buf, offset) => offset + |buf| <= 0xffff_ffff * size
  }

  ghost predicate Good(st: Store) {
    forall i | 0 <= i < |st.files| :: st.files[i].valid <= |st.files[i].bytes|
  }

  /** The clusters file `i` has or could get. */
  ghost function Room(size: nat, st: Store, i: nat): nat
    requires 0 < size && i < |st.files|
  {
    CeilDiv(|st.files[i].bytes|, size) + st.free
  }

  /** File `i` becomes `p`, for which there is room. */
  ghost function Put(size: nat, st: Store, i: nat, p: Plain): Store
    requires 0 < size && i < |st.files| && CeilDiv(|p.bytes|, size) <= Room(size, st, i)
  {
    Store(st.files[i := p], Room(size, st, i) - CeilDiv(|p.bytes|, size))
  }

  ghost function Truncated(p: Plain, size: nat, erase: bool): Plain {
    Plain(Resize(p.bytes, size), if erase && size != |p.bytes| then size else Min(p.valid, size))
  }

  /** A write; `stale` is what lies on disk after the valid part. */
  ghost function Written(p: Plain, buf: seq<byte>, offset: nat, stale: seq<byte>): (q: Plain)
    requires p.valid <= |p.bytes|
    ensures |q.bytes| == Max(|p.bytes|, offset + |buf|) && q.valid <= |q.bytes|
  {
    Plain(AfterWrite(p.bytes, p.valid, p.bytes[..p.valid] + Resize(stale, |p.bytes| - p.valid), offset, buf),
          Max(if offset > |p.bytes| then offset else p.valid, if buf == [] then 0 else offset + |buf|))
  }

  /** One operation: the files after it and its result. */
  ghost function Step(size: nat, st: Store, op: Op, stale: seq<byte>): (r: (Store, int))
    requires 0 < size && Good(st)
    ensures Good(r.0)
  {
    match op
    case AddOp => (Store(st.files + [Plain([], 0)], st.free), 0)
    case TruncateOp(i, length, erase) =>
      if i >= |st.files| then (st, -ENOENT)
      else if CeilDiv(length, size) > Room(size, st, i) then (st, -ENOSPC_CODE)
      else (Put(size, st, i, Truncated(st.files[i], length, erase)), 0)
    case WriteOp(i, buf, offset) =>
      if i >= |st.files| then (st, -ENOENT)
      else if offset < 0 then (st, -EINVAL)
      else
        var p := st.files[i];
        if CeilDiv(Max(|p.bytes|, offset + |buf|), size) <= Room(size, st, i)
        then (Put(size, st, i, Written(p, buf, offset, stale)), |buf|)
        else if offset > |p.bytes| && CeilDiv(offset, size) <= Room(size, st, i)
        then (Put(size, st, i, Truncated(p, offset, true)), -ENOSPC_CODE)
        else (st, -ENOSPC_CODE)
  }

  ghost function Replay(size: nat, st: Store, ops: seq<Op>, stale: seq<seq<byte>>): (r: (Store, seq<int>))
    requires 0 < size && Good(st) && |stale| == |ops|
    ensures Good(r.0) && |r.1| == |ops|
  {
    if ops == [] then (st, [])
    else
      var k := |ops| - 1;
      var before := Replay(size, st, ops[..k], stale[..k]);
      var after := Step(size, before.0, ops[k], stale[k]);
      (after.0, before.1 + [after.1])
  }

  // ----- Runs whose outcome does not depend on stale bytes -----

  /** No stale byte comes to light: a write starts in the valid part or past the end. */
  ghost predicate Covered(st: Store, op: Op) {
    op.WriteOp? && 0 <= op.offset && op.file < |st.files| ==>
      var p := st.files[op.file];
      op.buf == [] || op.offset <= p.valid || op.offset > |p.bytes|
  }

  ghost predicate AllCovered(size: nat, st: Store, ops: seq<Op>, stale: seq<seq<byte>>)
    requires 0 < size && Good(st) && |stale| == |ops|
  {
    forall k | 0 <= k < |ops| :: Covered(Replay(size, st, ops[..k], stale[..k]).0, ops[k])
  }

  lemma StepIgnoresStale(size: nat, st: Store, op: Op, a: seq<byte>, b: seq<byte>)
    requires 0 < size && Good(st) && Covered(st, op)
    ensures Step(size, st, op, a) == Step(size, st, op, b)
  {
    hide CeilDiv, Resize, Overwritten;
  }

  /** Then the whole run has one outcome, whatever lies on the disk. */
  lemma {:induction false} CoveredRunIsPlain(size: nat, st: Store, ops: seq<Op>, a: seq<seq<byte>>, b: seq<seq<byte>>)
    requires 0 < size && Good(st) && |a| == |b| == |ops| && AllCovered(size, st, ops, a)
    ensures Replay(size, st, ops, a) == Replay(size, st, ops, b)
    decreases |ops|
  {
    hide Step, Covered;
    if ops != [] {
      var k := |ops| - 1;
      forall j | 0 <= j < k
        ensures Covered(Replay(size, st, ops[..k][..j], a[..k][..j]).0, ops[..k][j])
      {
        assert ops[..k][..j] == ops[..j] && a[..k][..j] == a[..j];
      }
      CoveredRunIsPlain(size, st, ops[..k], a[..k], b[..k]);
      StepIgnoresStale(size, Replay(size, st, ops[..k], a[..k]).0, ops[k], a[k], b[k]);
    }
  }

  // ----- The code -----

  ghost function NodeSet(nodes: seq<Node>): set<Node> {
    set n | n in nodes
  }

  /** `nodes` are the files of the volume, each once. */
  ghost predicate Lists(v: Volume, nodes: seq<Node>)
    reads v`chains
  {
    && (forall i, j | 0 <= i < j < |nodes| :: nodes[i] != nodes[j])
    && v.chains.Keys == NodeSet(nodes)
  }

  ghost function PlainOf(v: Volume, n: Node): Plain
    requires n in v.chains
    reads v, n
  {
    Plain(View(v, n), n.validSize)
  }

  ghost function PlainsOf(v: Volume, nodes: seq<Node>): (files: seq<Plain>)
    requires forall n | n in nodes :: n in v.chains
    reads v, nodes
    ensures |files| == |nodes|
    ensures forall i | 0 <= i < |nodes| :: nodes[i] in v.chains && files[i] == PlainOf(v, nodes[i])
  {
    if nodes == [] then [] else [PlainOf(v, nodes[0])] + PlainsOf(v, nodes[1..])
  }

  ghost function Shown(v: Volume, nodes: seq<Node>): (st: Store)
    requires v.cmap.Valid() && Lists(v, nodes)
    reads v, v.cmap.chunk, nodes
  {
    Store(PlainsOf(v, nodes), FreeCount(v))
  }

  lemma ShownIs(v: Volume, nodes: seq<Node>)
    requires Valid(v) && Lists(v, nodes)
    ensures v.cmap.Valid() && v.geo.size > 0 && Good(Shown(v, nodes))
    ensures |Shown(v, nodes).files| == |nodes| && Shown(v, nodes).free == FreeCount(v)
    ensures forall i | 0 <= i < |nodes| ::
              && nodes[i] in v.chains && |v.chains[nodes[i]]| == CeilDiv(nodes[i].size, v.geo.size)
              && nodes[i].validSize <= nodes[i].size
              && Shown(v, nodes).files[i] == Plain(View(v, nodes[i]), nodes[i].validSize)
  {
    hide CeilDiv, Geometry.View, Partition, RecordedAs, FreeClusters;
    assert forall i | 0 <= i < |nodes| :: nodes[i] in v.chains && Sized(v, nodes[i]);
  }

  lemma ListsIs(v: Volume, nodes: seq<Node>)
    requires Lists(v, nodes)
    ensures v.chains.Keys == NodeSet(nodes) && forall i, j | 0 <= i < j < |nodes| :: nodes[i] != nodes[j]
    ensures forall n | n in nodes :: n in v.chains
  {
  }

  lemma ListsFrom(v: Volume, nodes: seq<Node>)
    requires v.chains.Keys == NodeSet(nodes) && forall i, j | 0 <= i < j < |nodes| :: nodes[i] != nodes[j]
    ensures Lists(v, nodes)
  {
  }

  /** Only file `i` has changed, and its clusters come from the free ones. */
  lemma ShownPut(v: Volume, nodes: seq<Node>, st: Store, i: nat)
    requires Valid(v) && Lists(v, nodes) && |st.files| == |nodes| && i < |nodes| && v.geo.size > 0
    requires forall k | 0 <= k < |nodes| ::
               nodes[k] in v.chains && (k != i ==> st.files[k] == Plain(View(v, nodes[k]), nodes[k].validSize))
    requires |v.chains[nodes[i]]| + FreeCount(v) == Room(v.geo.size, st, i)
    ensures var p := Plain(View(v, nodes[i]), nodes[i].validSize);
            && CeilDiv(|p.bytes|, v.geo.size) <= Room(v.geo.size, st, i)
            && Shown(v, nodes) == Put(v.geo.size, st, i, p)
  {
    hide CeilDiv, Geometry.View, Partition, RecordedAs, FreeClusters;
    ShownIs(v, nodes);
    assert Shown(v, nodes).files == st.files[i := PlainOf(v, nodes[i])];
  }

  lemma PutSame(size: nat, st: Store, i: nat)
    requires 0 < size && i < |st.files|
    ensures Put(size, st, i, st.files[i]) == st
  {
    assert st.files[i := st.files[i]] == st.files;
  }

  lemma RoomIs(size: nat, st: Store, i: nat)
    requires 0 < size && i < |st.files|
    ensures Room(size, st, i) == CeilDiv(|st.files[i].bytes|, size) + st.free
  {
  }

  lemma TruncateStep(size: nat, st: Store, i: nat, length: nat, erase: bool)
    requires 0 < size && Good(st) && i < |st.files|
    ensures Step(size, st, TruncateOp(i, length, erase), []) ==
            if CeilDiv(length, size) > Room(size, st, i) then (st, -ENOSPC_CODE)
            else (Put(size, st, i, Plain(Resize(st.files[i].bytes, length),
                                         if erase && length != |st.files[i].bytes| then length
                                         else Min(st.files[i].valid, length))), 0)
  {
  }

  method RunTruncate(v: Volume, nodes: seq<Node>, i: nat, size: nat, erase: bool) returns (r: int)
    requires Valid(v) && Lists(v, nodes) && i < |nodes| && size <= 0xffff_ffff * v.geo.size
    modifies v`fat, v`heap, v`chains, v`cmapDirty, v.cmap.chunk, nodes[i]
    ensures Valid(v) && Lists(v, nodes) && v.chains.Keys == old(v.chains.Keys)
    ensures v.cmap.Valid() && v.geo.size > 0 && Good(old(Shown(v, nodes)))
    ensures (Shown(v, nodes), r) == Step(v.geo.size, old(Shown(v, nodes)), TruncateOp(i, size, erase), [])
  {
    hide Valid, Lists, Shown, PlainsOf, Good, Room, Put, Step, CeilDiv, Resize, FreeClusters, Geometry.View, NodeSet;
    ShownIs(v, nodes);
    ListsIs(v, nodes);
    ghost var st, free := Shown(v, nodes), FreeCount(v);
    RoomIs(v.geo.size, st, i);
    PutSame(v.geo.size, st, i);
    TruncateStep(v.geo.size, st, i, size, erase);
    var rc := Truncate(v, nodes[i], size, erase);
    ListsFrom(v, nodes);
    ShownPut(v, nodes, st, i);
    r := if rc == OK then 0 else -ENOSPC_CODE;
  }

  lemma WriteStep(size: nat, st: Store, i: nat, buf: seq<byte>, offset: int, stale: seq<byte>)
    requires 0 < size && Good(st) && i < |st.files|
    ensures var p := st.files[i];
            && p.valid <= |p.bytes|
            && Step(size, st, WriteOp(i, buf, offset), stale) ==
               if offset < 0 then (st, -EINVAL)
               else if CeilDiv(Max(|p.bytes|, offset + |buf|), size) <= Room(size, st, i)
               then (Put(size, st, i, Written(p, buf, offset, stale)), |buf|)
               else if offset > |p.bytes| && CeilDiv(offset, size) <= Room(size, st, i)
               then (Put(size, st, i, Plain(Resize(p.bytes, offset), offset)), -ENOSPC_CODE)
               else (st, -ENOSPC_CODE)
  {
    hide AfterWrite, Resize, Put, Room, CeilDiv;
  }

  lemma WrittenIs(bytes: seq<byte>, valid: nat, disk: seq<byte>, offset: nat, buf: seq<byte>)
    requires valid <= |bytes| == |disk|
    ensures Written(Plain(bytes, valid), buf, offset, disk[valid..]) ==
            Plain(AfterWrite(bytes, valid, disk, offset, buf),
                  Max(if offset > |bytes| then offset else valid, if buf == [] then 0 else offset + |buf|))
  {
    hide Overwritten;
    var d := bytes[..valid] + Resize(disk[valid..], |bytes| - valid);
    assert valid <= offset <= |bytes| ==> d[valid..offset] == disk[valid..offset];
  }

  method RunWrite(v: Volume, nodes: seq<Node>, i: nat, buf: seq<byte>, offset: int)
    returns (r: int, ghost stale: seq<byte>)
    requires Valid(v) && Lists(v, nodes) && i < |nodes| && offset + |buf| <= 0xffff_ffff * v.geo.size
    modifies v`fat, v`heap, v`chains, v`cmapDirty, v.cmap.chunk, nodes[i]
    ensures Valid(v) && Lists(v, nodes) && v.chains.Keys == old(v.chains.Keys)
    ensures v.cmap.Valid() && v.geo.size > 0 && Good(old(Shown(v, nodes)))
    ensures (Shown(v, nodes), r) == Step(v.geo.size, old(Shown(v, nodes)), WriteOp(i, buf, offset), stale)
  {
    hide Valid, Lists, Shown, PlainsOf, Good, Room, Put, Step, Written, CeilDiv, Resize, FreeClusters, Geometry.View,
         NodeSet, AfterWrite, DiskBytes, Positions, FileIO.Covered;
    ShownIs(v, nodes);
    ListsIs(v, nodes);
    ghost var st, disk := Shown(v, nodes), DiskOf(v, nodes[i]);
    ghost var p := st.files[i];
    RoomIs(v.geo.size, st, i);
    PutSame(v.geo.size, st, i);
    stale := disk[p.valid..];
    WriteStep(v.geo.size, st, i, buf, offset, stale);
    if offset >= 0 {
      WrittenIs(p.bytes, p.valid, disk, offset, buf);
    }
    ghost var runs;
    r, runs := Write(v, nodes[i], buf, offset);
    ListsFrom(v, nodes);
    ShownPut(v, nodes, st, i);
  }

  method RunAdd(v: Volume, nodes: seq<Node>) returns (n: Node)
    requires Valid(v) && Lists(v, nodes)
    modifies v`chains
    ensures Valid(v) && fresh(n) && Lists(v, nodes + [n]) && v.chains.Keys == old(v.chains.Keys) + {n}
    ensures v.cmap.Valid() && v.geo.size > 0 && Good(old(Shown(v, nodes)))
    ensures (Shown(v, nodes + [n]), 0) == Step(v.geo.size, old(Shown(v, nodes)), AddOp, [])
  {
    hide Valid, Lists, Shown, PlainsOf, Good, CeilDiv, FreeClusters, Geometry.View, NodeSet;
    ShownIs(v, nodes);
    ListsIs(v, nodes);
    ghost var st := Shown(v, nodes);
    n := AddFile(v);
    OneMore(nodes, n);
    ListsFrom(v, nodes + [n]);
    ShownIs(v, nodes + [n]);
    assert Shown(v, nodes + [n]).files == st.files + [Plain([], 0)];
  }

  lemma OneMore(nodes: seq<Node>, n: Node)
    ensures NodeSet(nodes + [n]) == NodeSet(nodes) + {n}
  {
  }

  /** One operation on the volume. */
  method RunOne(v: Volume, nodes: seq<Node>, op: Op) returns (r: int, all: seq<Node>, ghost stale: seq<byte>)
    requires Valid(v) && Lists(v, nodes) && OpFits(v.geo.size, op)
    modifies v`fat, v`heap, v`chains, v`cmapDirty, v.cmap.chunk, v.chains.Keys
    ensures Valid(v) && Lists(v, all) && forall n | n in v.chains :: n in old(v.chains) || fresh(n)
    ensures v.cmap.Valid() && v.geo.size > 0 && Good(old(Shown(v, nodes)))
    ensures (Shown(v, all), r) == Step(v.geo.size, old(Shown(v, nodes)), op, stale)
  {
    hide Valid, Lists, Shown, PlainsOf, Good, Put, Room, Written, Truncated, CeilDiv, FreeClusters, NodeSet;
    ShownIs(v, nodes);
    ListsIs(v, nodes);
    all, stale := nodes, [];
    match op
    case AddOp =>
      var n := RunAdd(v, nodes);
      r, all := 0, nodes + [n];
    case TruncateOp(i, size, erase) =>
      if i >= |nodes| {
        return -ENOENT, nodes, [];
      }
      r := RunTruncate(v, nodes, i, size, erase);
    case WriteOp(i, buf, offset) =>
      if i >= |nodes| {
        return -ENOENT, nodes, [];
      }
      r, stale := RunWrite(v, nodes, i, buf, offset);
  }

  /** Any run of new files, truncations and writes: the volume stays consistent, and the
      results, the bytes of every file and the free space are those of the replay. */
  method Run(v: Volume, nodes: seq<Node>, ops: seq<Op>)
    returns (results: seq<int>, all: seq<Node>, ghost stale: seq<seq<byte>>)
    requires Valid(v) && Lists(v, nodes)
    requires forall k | 0 <= k < |ops| :: OpFits(v.geo.size, ops[k])
    modifies v`fat, v`heap, v`chains, v`cmapDirty, v.cmap.chunk, v.chains.Keys
    ensures Valid(v) && Lists(v, all) && |stale| == |ops|
    ensures v.cmap.Valid() && v.geo.size > 0 && Good(old(Shown(v, nodes)))
    ensures (Shown(v, all), results) == Replay(v.geo.size, old(Shown(v, nodes)), ops, stale)
  {
    hide Valid, Lists, Shown, PlainsOf, Good, Step, OpFits, CeilDiv, FreeClusters, NodeSet;
    ShownIs(v, nodes);
    ghost var st := Shown(v, nodes);
    results, all, stale := [], nodes, [];
    for k := 0 to |ops|
      invariant Valid(v) && Lists(v, all) && |stale| == k && v.cmap.Valid()
      invariant forall n | n in v.chains :: n in old(v.chains) || fresh(n)
      invariant (Shown(v, all), results) == Replay(v.geo.size, st, ops[..k], stale)
    {
      var r;
      ghost var s;
      r, all, s := RunOne(v, all, ops[k]);
      assert ops[..k + 1][..k] == ops[..k] && (stale + [s])[..k] == stale;
      results, stale := results + [r], stale + [s];
    }
    assert ops[..|ops|] == ops;
  }
}
