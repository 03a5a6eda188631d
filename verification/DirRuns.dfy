/** Runs of directory operations: any sequence of creations, renames, deletions and updates has
    the results and leaves the children that a replay on plain records gives. */
module DirRuns {
  import opened Arithmetic
  import opened DirEntries
  import opened DirLayout
  import opened DirLookup
  import opened DirNodes
  import opened DirSlots
  import opened Directories
  import Chains
  import Volumes

  // ----- The replay on plain records -----

  /** A child: its first slot, its fields, and whether it has no children itself. */
  datatype Kid = Kid(slot: nat, info: Info, leaf: bool)

  /** A directory: its children in list order, its size, and the free clusters of the volume. */
  datatype View = View(kids: seq<Kid>, size: nat, free: int)

  datatype Op =
    | CreateOp(name: seq<nat>, attrib: nat, hash: nat, times: Times)
    | RenameOp(i: nat, name: seq<nat>, hash: nat)
    | DeleteOp(i: nat)
    | UpdateOp(i: nat, size: nat, validSize: nat, start: nat, contiguous: bool)

  datatype Result = Done | NoRoom | Exists | Missing | BadName | Refused(why: RenameStatus)

  ghost function ItemsIn(kids: seq<Kid>): (items: seq<Item>)
    ensures |items| == |kids|
    ensures forall i | 0 <= i < |kids| :: items[i] == Item(kids[i].slot, kids[i].info)
  {
    seq(|kids|, i requires 0 <= i < |kids| => Item(kids[i].slot, kids[i].info))
  }

  /** The number of the first child with the name, or the number of children. */
  ghost function Find(up: Upcase, kids: seq<Kid>, name: seq<nat>): (k: nat)
    ensures k <= |kids| && forall j | 0 <= j < k :: !SameName(up, name, kids[j].info.name)
    ensures k < |kids| ==> SameName(up, name, kids[k].info.name)
  {
    if kids == [] || SameName(up, name, kids[0].info.name) then 0 else 1 + Find(up, kids[1..], name)
  }

  /** `kids` with a new first one whose set is put into the first open slots of `v`. */
  ghost function Put(h: Heap, v: View, kids: seq<Kid>, kid: Kid): (View, Result)
    requires h.clusterSize > 0
  {
    var n := 2 + NameEntries(|kid.info.name|);
    var c := ClustersFor(h, ItemsIn(v.kids), v.size, n);
    if c > Clusters(h, v.size) + v.free then (v, NoRoom)
    else
      (View([kid.(slot := FirstOpen(ItemsIn(v.kids), n))] + kids, c * h.clusterSize, Clusters(h, v.size) + v.free - c),
       Done)
  }

  ghost function Created(h: Heap, v: View, name: seq<nat>, attrib: nat): (View, Result)
    requires h.clusterSize > 0
  {
    Put(h, v, v.kids,
        Kid(0, Info(attrib, 1 + NameEntries(|name|), 0, 0, Chains.CLUSTER_FREE, false, name), true))
  }

  ghost function Moved(h: Heap, v: View, i: nat, name: seq<nat>): (View, Result)
    requires h.clusterSize > 0 && i < |v.kids|
  {
    Put(h, v, Without(v.kids, i),
        v.kids[i].(info := v.kids[i].info.(continuations := 1 + NameEntries(|name|), name := name)))
  }

  ghost function Removed(h: Heap, v: View, i: nat): View
    requires h.clusterSize > 0 && i < |v.kids|
  {
    var size := CutSize(h, ItemsIn(v.kids), i, v.size);
    View(Without(v.kids, i), size, v.free + Clusters(h, v.size) - Clusters(h, size))
  }

  ghost function Renamed(h: Heap, up: Upcase, v: View, i: nat, name: seq<nat>): (View, Result)
    requires h.clusterSize > 0 && i < |v.kids|
  {
    var k := Find(up, v.kids, name);
    if k == |v.kids| || k == i then Moved(h, v, i, name)
    else
      var why := Refusal(IsDirectory(v.kids[i].info.attrib), IsDirectory(v.kids[k].info.attrib), v.kids[k].leaf);
      if why != RenameStatus.Renamed then (v, Refused(why))
      else
        var w := Removed(h, v, k);
        Moved(h, w.(free := w.free + CeilDiv(v.kids[k].info.size, h.clusterSize)), if i < k then i else i - 1, name)
  }

  /** One operation: the directory after it and its result. */
  ghost function Step(h: Heap, up: Upcase, v: View, op: Op): (View, Result)
    requires h.clusterSize > 0
  {
    match op
    case CreateOp(name, attrib, _, _) =>
      if !Nameable(name) || attrib >= 0x1_0000 then (v, BadName)
      else if Find(up, v.kids, name) < |v.kids| then (v, Exists)
      else Created(h, v, name, attrib)
    case RenameOp(i, name, _) =>
      if i >= |v.kids| then (v, Missing)
      else if !Nameable(name) then (v, BadName)
      else Renamed(h, up, v, i, name)
    case DeleteOp(i) =>
      if i >= |v.kids| then (v, Missing) else (Removed(h, v, i), Done)
    case UpdateOp(i, size, validSize, start, contiguous) =>
      if i >= |v.kids| then (v, Missing)
      else
        var info := v.kids[i].info.(size := size, validSize := validSize, start := start, contiguous := contiguous);
        (v.(kids := v.kids[i := v.kids[i].(info := info)]), Done)
  }

  ghost function Replay(h: Heap, up: Upcase, v: View, ops: seq<Op>): (r: (View, seq<Result>))
    requires h.clusterSize > 0
    ensures |r.1| == |ops|
  {
    if ops == [] then (v, [])
    else
      var k := |ops| - 1;
      var before := Replay(h, up, v, ops[..k]);
      var after := Step(h, up, before.0, ops[k]);
      (after.0, before.1 + [after.1])
  }

  // ----- What the replay keeps -----

  /** No two children have names that compare equal. */
  ghost predicate Unique(up: Upcase, kids: seq<Kid>) {
    forall i, j | 0 <= i < |kids| && 0 <= j < |kids| && i != j :: !SameName(up, kids[i].info.name, kids[j].info.name)
  }

  /** A child whose set is as long as its name asks for. */
  ghost predicate Plain(kid: Kid) {
    Nameable(kid.info.name) && kid.info.continuations == 1 + NameEntries(|kid.info.name|)
  }

  /** The children lie apart and inside the directory. */
  ghost predicate Proper(h: Heap, v: View) {
    && h.clusterSize > 0 && h.clusterSize % 32 == 0 && v.size > 0 && v.size % h.clusterSize == 0 && v.free >= 0
    && (forall i | 0 <= i < |v.kids| :: Plain(v.kids[i]))
    && AllApart(ItemsIn(v.kids)) && forall i | 0 <= i < |v.kids| :: 32 * ItemsIn(v.kids)[i].End() <= v.size
  }

  lemma PutUnique(up: Upcase, kids: seq<Kid>, kid: Kid)
    requires Unique(up, kids) && forall j | 0 <= j < |kids| :: !SameName(up, kid.info.name, kids[j].info.name)
    ensures forall s: nat :: Unique(up, [kid.(slot := s)] + kids)
  {
    hide SameName;
    forall s: nat, i, j | 0 <= i < 1 + |kids| && 0 <= j < 1 + |kids| && i != j
      ensures !SameName(up, ([kid.(slot := s)] + kids)[i].info.name, ([kid.(slot := s)] + kids)[j].info.name)
    {
      if j == 0 && SameName(up, kids[i - 1].info.name, kid.info.name) {
        Symmetric(up, kids[i - 1].info.name, kid.info.name);
      }
    }
  }

  lemma WithoutUnique(up: Upcase, kids: seq<Kid>, k: nat)
    requires Unique(up, kids) && k < |kids|
    ensures Unique(up, Without(kids, k))
  {
    hide SameName;
    var rest := Without(kids, k);
    forall i, j | 0 <= i < |rest| && 0 <= j < |rest| && i != j
      ensures !SameName(up, rest[i].info.name, rest[j].info.name)
    {
      assert rest[i] == kids[if i < k then i else i + 1] && rest[j] == kids[if j < k then j else j + 1];
    }
  }

  /** A name that compares equal to one child does so to no other. */
  lemma OnlyOne(up: Upcase, kids: seq<Kid>, name: seq<nat>, k: nat, j: nat)
    requires ZeroAlone(up) && Unique(up, kids) && IsName(name) && k < |kids| && j < |kids| && j != k
    requires IsName(kids[k].info.name) && IsName(kids[j].info.name) && SameName(up, name, kids[k].info.name)
    ensures !SameName(up, name, kids[j].info.name)
  {
    hide SameName;
    if SameName(up, name, kids[j].info.name) {
      Symmetric(up, name, kids[k].info.name);
      Transitive(up, kids[k].info.name, name, kids[j].info.name);
    }
  }

  lemma MovedUnique(h: Heap, up: Upcase, v: View, i: nat, name: seq<nat>)
    requires h.clusterSize > 0 && Unique(up, v.kids) && i < |v.kids|
    requires forall j | 0 <= j < |v.kids| && j != i :: !SameName(up, name, v.kids[j].info.name)
    ensures Unique(up, Moved(h, v, i, name).0.kids)
  {
    hide SameName, ClustersFor, FirstOpen, Clusters, NameEntries, ItemsIn, Unique;
    var rest := Without(v.kids, i);
    var kid := v.kids[i].(info := v.kids[i].info.(continuations := 1 + NameEntries(|name|), name := name));
    WithoutUnique(up, v.kids, i);
    assert forall j | 0 <= j < |rest| :: rest[j] == v.kids[if j < i then j else j + 1];
    PutUnique(up, rest, kid);
  }

  /** Names stay unique over a rename. */
  lemma RenamedUnique(h: Heap, up: Upcase, v: View, i: nat, name: seq<nat>)
    requires Proper(h, v) && ZeroAlone(up) && Unique(up, v.kids) && i < |v.kids| && IsName(name)
    ensures Unique(up, Renamed(h, up, v, i, name).0.kids)
  {
    hide SameName, Moved, Removed, CeilDiv, Find, AllApart, Unique, IsName, ZeroAlone;
    var k := Find(up, v.kids, name);
    NamesPlain(h, v);
    if k < |v.kids| {
      forall j | 0 <= j < |v.kids| && j != k
        ensures !SameName(up, name, v.kids[j].info.name)
      {
        OnlyOne(up, v.kids, name, k, j);
      }
    }
    if k == |v.kids| || k == i {
      MovedUnique(h, up, v, i, name);
    } else {
      var w := Removed(h, v, k);
      RemovedKids(h, v, k);
      WithoutUnique(up, v.kids, k);
      assert forall j | 0 <= j < |w.kids| :: w.kids[j] == v.kids[if j < k then j else j + 1];
      MovedUnique(h, up, w.(free := w.free + CeilDiv(v.kids[k].info.size, h.clusterSize)),
                  if i < k then i else i - 1, name);
    }
  }

  lemma RemovedKids(h: Heap, v: View, k: nat)
    requires h.clusterSize > 0 && k < |v.kids|
    ensures Removed(h, v, k).kids == Without(v.kids, k)
  {
  }

  lemma NamesPlain(h: Heap, v: View)
    requires Proper(h, v)
    ensures forall j | 0 <= j < |v.kids| :: IsName(v.kids[j].info.name)
  {
    assert forall j | 0 <= j < |v.kids| :: Plain(v.kids[j]);
  }

  /** Every operation keeps the names of the children unique, when zero is alone. */
  lemma StepKeepsUnique(h: Heap, up: Upcase, v: View, op: Op)
    requires Proper(h, v) && ZeroAlone(up) && Unique(up, v.kids)
    ensures Unique(up, Step(h, up, v, op).0.kids)
  {
    hide SameName, Renamed, Put, Removed, ZeroAlone, AllApart;
    match op
    case CreateOp(name, attrib, _, _) =>
      if Nameable(name) && attrib < 0x1_0000 && Find(up, v.kids, name) == |v.kids| {
        CreatedUnique(h, up, v, name, attrib);
      }
    case RenameOp(i, name, _) =>
      if i < |v.kids| && Nameable(name) {
        RenamedUnique(h, up, v, i, name);
      }
    case DeleteOp(i) =>
      if i < |v.kids| {
        RemovedKids(h, v, i);
        WithoutUnique(up, v.kids, i);
      }
    case UpdateOp(i, size, validSize, start, contiguous) =>
  }

  lemma CreatedUnique(h: Heap, up: Upcase, v: View, name: seq<nat>, attrib: nat)
    requires h.clusterSize > 0 && Unique(up, v.kids) && Find(up, v.kids, name) == |v.kids|
    ensures Unique(up, Created(h, v, name, attrib).0.kids)
  {
    hide SameName, ClustersFor, FirstOpen, Clusters, NameEntries, ItemsIn, Unique;
    PutUnique(up, v.kids, Kid(0, Info(attrib, 1 + NameEntries(|name|), 0, 0, Chains.CLUSTER_FREE, false, name), true));
  }

  /** Every operation that does not succeed leaves the directory as it was, when zero is alone:
      a rename that replaces a child always finds room for the name. */
  lemma AllOrNothing(h: Heap, up: Upcase, v: View, op: Op)
    requires Proper(h, v) && ZeroAlone(up)
    ensures Step(h, up, v, op).1 != Done ==> Step(h, up, v, op).0 == v
  {
    hide Find, Renamed, ClustersFor, FirstOpen, Clusters, ItemsIn, NameEntries, Removed, ZeroAlone, Proper;
    if op.RenameOp? && op.i < |v.kids| && Nameable(op.name) {
      RenamedOrNot(h, up, v, op.i, op.name);
    }
  }

  lemma RenamedOrNot(h: Heap, up: Upcase, v: View, i: nat, name: seq<nat>)
    requires Proper(h, v) && ZeroAlone(up) && i < |v.kids| && IsName(name)
    ensures Renamed(h, up, v, i, name).1 != Done ==> Renamed(h, up, v, i, name).0 == v
  {
    hide Find, ClustersFor, FirstOpen, Clusters, ItemsIn, NameEntries, Removed, SameName, CeilDiv, ZeroAlone, Proper;
    var k := Find(up, v.kids, name);
    if k < |v.kids| && k != i {
      ReplacingFits(h, up, v, i, k, name);
    }
  }

  lemma ReplacingFits(h: Heap, up: Upcase, v: View, i: nat, k: nat, name: seq<nat>)
    requires Proper(h, v) && ZeroAlone(up) && i < |v.kids| && k < |v.kids| && i != k && IsName(name)
    requires SameName(up, name, v.kids[k].info.name)
    ensures |Removed(h, v, k).kids| == |v.kids| - 1
    ensures var w := Removed(h, v, k);
            Moved(h, w.(free := w.free + CeilDiv(v.kids[k].info.size, h.clusterSize)),
                  if i < k then i else i - 1, name).1
            == Done
  {
    hide SameName, NameEntries, ZeroAlone, Clusters, CeilDiv, ClustersFor, ReplacedClusters, Removed, ItemsIn, AllApart;
    var items, w, n := ItemsIn(v.kids), Removed(h, v, k), 2 + NameEntries(|name|);
    RemovedIs(h, v, k);
    assert Plain(v.kids[k]);
    SameLength(up, name, v.kids[k].info.name);
    ReplacementFits(h, v.size, items, k, n);
    ReplacedRoom(h, items, k, w.size, n, v.free + Clusters(h, v.size) + CeilDiv(v.kids[k].info.size, h.clusterSize));
  }

  lemma RemovedIs(h: Heap, v: View, k: nat)
    requires Proper(h, v) && k < |v.kids|
    ensures var w := Removed(h, v, k);
            && w.kids == Without(v.kids, k) && w.size == CutSize(h, ItemsIn(v.kids), k, v.size)
            && |w.kids| == |v.kids| - 1 && ItemsIn(w.kids) == Without(ItemsIn(v.kids), k)
            && w.free + Clusters(h, w.size) == v.free + Clusters(h, v.size)
            && Clusters(h, w.size) <= Clusters(h, v.size)
  {
    hide Clusters, Needed, AllApart, LastNamed, ItemsIn, Plain;
    ItemsWithout(v.kids, k);
    LastInside(h, v, k);
    NeededFits(h, LastNamed(Without(ItemsIn(v.kids), k)), v.size);
  }

  lemma PlainEnd(kid: Kid)
    requires Plain(kid)
    ensures NamedEnd(Item(kid.slot, kid.info)) == Item(kid.slot, kid.info).End()
  {
  }

  lemma LastInside(h: Heap, v: View, k: nat)
    requires Proper(h, v) && k < |v.kids|
    ensures 32 * LastNamed(Without(ItemsIn(v.kids), k)) <= v.size
  {
    hide NameEntries, AllApart, ItemsIn, Plain;
    var all, items := ItemsIn(v.kids), Without(ItemsIn(v.kids), k);
    if items != [] {
      var last := LastItem(items);
      var j :| 0 <= j < |items| && items[j] == last;
      var was := if j < k then j else j + 1;
      assert last == all[was] && 32 * all[was].End() <= v.size;
      PlainEnd(v.kids[was]);
    }
  }

  /** All or nothing holds of every operation on every directory exactly when zero is alone. */
  lemma AllOrNothingIff(up: Upcase)
    ensures (forall h, v, op | Proper(h, v) :: Step(h, up, v, op).1 != Done ==> Step(h, up, v, op).0 == v)
            <==> ZeroAlone(up)
  {
    hide Step, ItemsIn, AllApart, Plain;
    if ZeroAlone(up) {
      forall h, v, op | Proper(h, v)
        ensures Step(h, up, v, op).1 != Done ==> Step(h, up, v, op).0 == v
      {
        AllOrNothing(h, up, v, op);
      }
    } else {
      var c: nat :| 0 < c < 0x1_0000 && up(c) == up(0);
      LosesTarget(up, c);
    }
  }

  /** A full directory of one 512-byte cluster and two children, on a volume without free
      clusters: the first child takes three entries, the other one thirteen. */
  function FullDirectory(): View {
    View([Kid(0, Info(0, 2, 0, 0, 0, false, [1]), true),
          Kid(3, Info(0, 12, 0, 0, 0, false, seq(165, _ => 1)), true)], 512, 0)
  }

  /** If unit `c` has the upper case of zero, the second child is renamed over the first, which is
      deleted, and then there is no room for the longer name. */
  lemma LosesTarget(up: Upcase, c: nat)
    requires 0 < c < 0x1_0000 && up(c) == up(0)
    ensures var h, v, op := Heap(16, 512), FullDirectory(), RenameOp(1, [1, c] + seq(14, _ => 1), 0);
            && Proper(h, v) && Step(h, up, v, op).1 == NoRoom
            && |v.kids| == 2 && |Step(h, up, v, op).0.kids| == 1
  {
    var h, v, name := Heap(16, 512), FullDirectory(), [1, c] + seq(14, _ => 1);
    FullIsProper();
    LongerMatches(up, c);
    NoRoomLeft();
    hide Find, ClustersFor, Clusters, CutSize, CeilDiv, FirstOpen, SameName, Proper, NameEntries, Put, Moved, Removed,
         Nameable;
    FindFirst(up, v.kids, name);
    RenameStep(h, up, v, RenameOp(1, name, 0));
    RenamedIs(h, up, v, 1, name);
    RemovedTo(h, v, 0, v.size, 0);
    var w := Cleared(h, v, 0);
    assert w.kids == [v.kids[1]] && w.size == v.size && w.free == 0;
    MovedIs(h, w, 0, name);
    var info := w.kids[0].info.(continuations := 1 + NameEntries(|name|), name := name);
    HoldsIff(h, 0, v.size);
    PutIs(h, w, Without(w.kids, 0), Kid(w.kids[0].slot, info, w.kids[0].leaf), 4, v.size, 0);
  }

  lemma FullIsProper()
    ensures Proper(Heap(16, 512), FullDirectory())
  {
    var items := ItemsIn(FullDirectory().kids);
    assert items[0].End() == 3 && items[1].End() == 16;
  }

  lemma LongerMatches(up: Upcase, c: nat)
    requires 0 < c < 0x1_0000 && up(c) == up(0)
    ensures var name := [1, c] + seq(14, _ => 1);
            SameName(up, name, [1]) && Nameable(name) && |name| == 16 && NameEntries(|name|) == 2
  {
  }

  lemma FindFirst(up: Upcase, kids: seq<Kid>, name: seq<nat>)
    requires kids != [] && SameName(up, name, kids[0].info.name)
    ensures Find(up, kids, name) == 0
  {
  }

  lemma NoRoomLeft()
    ensures var h, v := Heap(16, 512), FullDirectory();
            && CutSize(h, ItemsIn(v.kids), 0, v.size) == v.size && CeilDiv(0, h.clusterSize) == 0
            && ClustersFor(h, ItemsIn([v.kids[1]]), v.size, 4) > Clusters(h, v.size)
  {
    hide FirstOpen;
    var v := FullDirectory();
    var items := ItemsIn([v.kids[1]]);
    assert ItemsIn(v.kids)[0].slot < ItemsIn(v.kids)[1].slot;
    assert items[0].slot == 3 && items[0].End() == 16;
    forall p | 3 <= p < 16
      ensures Covered(items, p)
    {
      assert items[0].Covers(p);
    }
    var f := FirstOpen(items, 4);
    assert Open(items, f, 4) && !Covered(items, f) && !Covered(items, f + 3);
  }

  // ----- A cached directory as the replay sees it -----

  ghost function KidOf(n: Node): Kid
    reads n`offset, n`info, n`child
  {
    Kid(n.offset / 32, n.info, n.child == null)
  }

  ghost function KidsOf(kids: seq<Node>): (r: seq<Kid>)
    reads kids`offset, kids`info, kids`child
    ensures |r| == |kids| && forall i | 0 <= i < |kids| :: r[i] == KidOf(kids[i])
  {
    if kids == [] then [] else [KidOf(kids[0])] + KidsOf(kids[1..])
  }

  ghost function Shown(dir: Node, free: nat): View
    reads dir`kids, dir`info, dir.kids`offset, dir.kids`info, dir.kids`child
  {
    View(KidsOf(dir.kids), dir.info.size, free)
  }

  /** Sets of the same length in the same places, with the same names. */
  ghost predicate SameShape(a: seq<Item>, b: seq<Item>) {
    && |a| == |b|
    && forall i | 0 <= i < |a| ::
         a[i].slot == b[i].slot && a[i].info.name == b[i].info.name
         && a[i].info.continuations == b[i].info.continuations
  }

  lemma ShapeCovers(a: seq<Item>, b: seq<Item>, p: int)
    requires SameShape(a, b)
    ensures Covered(a, p) ==> Covered(b, p)
  {
    if Covered(a, p) {
      var i :| 0 <= i < |a| && a[i].Covers(p);
      assert b[i].Covers(p);
    }
  }

  lemma ShapeOpens(a: seq<Item>, b: seq<Item>, n: nat)
    requires SameShape(a, b)
    ensures forall s: nat :: Open(a, s, n) ==> Open(b, s, n)
  {
    hide Covered;
    forall s: nat, p | s <= p < s + n && Open(a, s, n)
      ensures !Covered(b, p)
    {
      if Covered(b, p) {
        ShapeCovers(b, a, p);
      }
    }
  }

  lemma {:induction false} ShapeLast(a: seq<Item>, b: seq<Item>)
    requires SameShape(a, b) && a != []
    ensures LastItem(a).slot == LastItem(b).slot && LastItem(a).info.name == LastItem(b).info.name
    ensures LastItem(a).info.continuations == LastItem(b).info.continuations
  {
    if |a| > 1 {
      ShapeLast(a[1..], b[1..]);
    }
  }

  lemma ShapePlaces(a: seq<Item>, b: seq<Item>, n: nat)
    requires SameShape(a, b)
    ensures FirstOpen(a, n) <= FirstOpen(b, n)
  {
    hide SameShape, Open, FirstOpenFrom;
    SymmetricShape(a, b);
    ShapeOpens(b, a, n);
    assert Open(a, FirstOpen(b, n), n);
  }

  lemma ShapeNames(a: seq<Item>, b: seq<Item>)
    requires SameShape(a, b)
    ensures LastNamed(a) == LastNamed(b)
  {
    hide NameEntries, LastItem;
    if a != [] {
      ShapeLast(a, b);
    }
  }

  /** Where a set goes and how far the directory is cut depend on the shape alone. */
  lemma ShapeDecides(h: Heap, a: seq<Item>, b: seq<Item>, size: nat, n: nat)
    requires SameShape(a, b) && h.clusterSize > 0
    ensures FirstOpen(a, n) == FirstOpen(b, n) && ClustersFor(h, a, size, n) == ClustersFor(h, b, size, n)
    ensures LastNamed(a) == LastNamed(b) && (AllNormal(a) <==> AllNormal(b))
  {
    hide SameShape, FirstOpen, CeilDiv, Clusters, LastNamed, AllNormal;
    SymmetricShape(a, b);
    ShapePlaces(a, b, n);
    ShapePlaces(b, a, n);
    ShapeNames(a, b);
    NormalShape(a, b);
    NormalShape(b, a);
  }

  lemma NormalShape(a: seq<Item>, b: seq<Item>)
    requires SameShape(a, b)
    ensures AllNormal(a) ==> AllNormal(b)
  {
    if AllNormal(a) {
      forall i | 0 <= i < |b|
        ensures b[i].Normal()
      {
        assert a[i].Normal();
      }
    }
  }

  lemma ShownIs(h: Heap, dir: Node, free: nat)
    requires Valid(h, dir)
    ensures h.clusterSize > 0 && |Shown(dir, free).kids| == |dir.kids| == |Items(dir)|
    ensures Shown(dir, free).size == dir.info.size && Shown(dir, free).free == free
    ensures forall i | 0 <= i < |dir.kids| ::
              Shown(dir, free).kids[i] == Kid(dir.kids[i].offset / 32, dir.kids[i].info, dir.kids[i].child == null)
    ensures SameShape(Items(dir), ItemsIn(Shown(dir, free).kids))
  {
    hide Linked, Layout, Tidy;
    assert forall i | 0 <= i < |dir.kids| :: Kept(dir.kids[i]);
  }

  lemma FindIs(up: Upcase, kids: seq<Kid>, name: seq<nat>, k: nat)
    requires k <= |kids| && forall j | 0 <= j < k :: !SameName(up, name, kids[j].info.name)
    requires k < |kids| ==> SameName(up, name, kids[k].info.name)
    ensures Find(up, kids, name) == k
  {
    hide SameName;
  }

  /** Looks a name up, as the replay does. */
  method Lookup(h: Heap, up: Upcase, dir: Node, name: seq<nat>, ghost free: nat) returns (node: Node?, ghost k: nat)
    requires Valid(h, dir)
    ensures k == Find(up, Shown(dir, free).kids, name) && k <= |dir.kids|
    ensures node == null <==> k == |dir.kids|
    ensures k < |dir.kids| ==> dir.kids[k] == node
  {
    hide *;
    ValidParts(h, dir);
    ShownIs(h, dir, free);
    node, k := LookupName(up, dir, name);
    AtIs(dir.kids, k);
    FindIs(up, Shown(dir, free).kids, name, k);
  }

  lemma CreateStep(h: Heap, up: Upcase, v: View, op: Op)
    requires h.clusterSize > 0 && op.CreateOp?
    ensures Step(h, up, v, op) ==
            if !Nameable(op.name) || op.attrib >= 0x1_0000 then (v, BadName)
            else if Find(up, v.kids, op.name) < |v.kids| then (v, Exists)
            else Created(h, v, op.name, op.attrib)
  {
    hide Created, Find, Nameable;
  }

  /** The new first child is `kid`, and the clusters are accounted for. */
  lemma PutIs(h: Heap, v: View, kids: seq<Kid>, kid: Kid, n: nat, size: nat, left: nat)
    requires h.clusterSize > 0 && n == 2 + NameEntries(|kid.info.name|) && size == Clusters(h, size) * h.clusterSize
    ensures ClustersFor(h, ItemsIn(v.kids), v.size, n) > Clusters(h, v.size) + v.free ==>
              Put(h, v, kids, kid) == (v, NoRoom)
    ensures ClustersFor(h, ItemsIn(v.kids), v.size, n) <= Clusters(h, v.size) + v.free
            && Clusters(h, size) == ClustersFor(h, ItemsIn(v.kids), v.size, n)
            && left + Clusters(h, size) == v.free + Clusters(h, v.size) ==>
              Put(h, v, kids, kid) == (View([kid.(slot := FirstOpen(ItemsIn(v.kids), n))] + kids, size, left), Done)
  {
    hide NameEntries, ClustersFor, Clusters, FirstOpen, ItemsIn;
  }

  lemma CreatedIs(h: Heap, v: View, name: seq<nat>, attrib: nat)
    requires h.clusterSize > 0
    ensures Created(h, v, name, attrib) ==
            Put(h, v, v.kids,
                Kid(0, Info(attrib, 1 + NameEntries(|name|), 0, 0, Chains.CLUSTER_FREE, false, name), true))
  {
  }

  lemma MovedIs(h: Heap, v: View, i: nat, name: seq<nat>)
    requires h.clusterSize > 0 && i < |v.kids|
    ensures Moved(h, v, i, name) ==
            Put(h, v, Without(v.kids, i),
                Kid(v.kids[i].slot, v.kids[i].info.(continuations := 1 + NameEntries(|name|), name := name),
                    v.kids[i].leaf))
  {
  }

  method RunCreate(h: Heap, up: Upcase, dir: Node, op: Op, free: nat) returns (r: Result, left: nat)
    requires Valid(h, dir) && op.CreateOp?
    modifies dir`slots, dir`info, dir`dirty, dir`child, dir`kids, dir.kids`prev
    ensures Valid(h, dir) && h.clusterSize > 0
    ensures forall n | n in dir.kids :: fresh(n) || n in old(dir.kids)
    ensures (Shown(dir, left), r) == Step(h, up, old(Shown(dir, free)), op)
  {
    hide *;
    ValidParts(h, dir);
    ShownIs(h, dir, free);
    ghost var v := Shown(dir, free);
    CreateStep(h, up, v, op);
    if !Nameable(op.name) || op.attrib >= 0x1_0000 {
      return BadName, free;
    }
    ghost var k;
    var existing;
    existing, k := Lookup(h, up, dir, op.name, free);
    if existing != null {
      return Exists, free;
    }
    ShapeDecides(h, Items(dir), ItemsIn(v.kids), dir.info.size, 2 + NameEntries(|op.name|));
    var rc, node, es;
    rc, left, node, es := Create(h, dir, op.name, op.attrib, op.hash, op.times, free);
    ShownIs(h, dir, left);
    ValidParts(h, dir);
    HoldsIff(h, 0, dir.info.size);
    CreatedIs(h, v, op.name, op.attrib);
    PutIs(h, v, v.kids,
          Kid(0, Info(op.attrib, 1 + NameEntries(|op.name|), 0, 0, Chains.CLUSTER_FREE, false, op.name), true),
          2 + NameEntries(|op.name|), dir.info.size, left);
    if rc != Volumes.OK {
      assert Shown(dir, left).kids == v.kids;
      return NoRoom, left;
    }
    assert Shown(dir, left).kids == [Kid(node.offset / 32, node.info, true)] + v.kids;
    return Done, left;
  }

  lemma ShapeWithout(h: Heap, a: seq<Item>, b: seq<Item>, i: nat, size: nat)
    requires SameShape(a, b) && i < |a| && h.clusterSize > 0
    ensures SameShape(Without(a, i), Without(b, i)) && CutSize(h, a, i, size) == CutSize(h, b, i, size)
  {
    hide LastNamed, Needed;
    var c, d := Without(a, i), Without(b, i);
    forall k | 0 <= k < |c|
      ensures c[k].slot == d[k].slot && c[k].info.name == d[k].info.name
      ensures c[k].info.continuations == d[k].info.continuations
    {
      assert c[k] == a[if k < i then k else k + 1] && d[k] == b[if k < i then k else k + 1];
    }
    ShapeDecides(h, c, d, size, 1);
    assert forall k | 0 <= k < |a| :: a[i].slot < a[k].slot <==> b[i].slot < b[k].slot;
  }

  lemma ItemsWithout(kids: seq<Kid>, i: nat)
    requires i < |kids|
    ensures ItemsIn(Without(kids, i)) == Without(ItemsIn(kids), i)
  {
    var a, b := ItemsIn(Without(kids, i)), Without(ItemsIn(kids), i);
    assert forall k | 0 <= k < |kids| - 1 :: a[k] == b[k];
  }

  lemma RemovedTo(h: Heap, v: View, i: nat, size: nat, left: nat)
    requires h.clusterSize > 0 && i < |v.kids| && size == CutSize(h, ItemsIn(v.kids), i, v.size)
    requires left + Clusters(h, size) == v.free + Clusters(h, v.size)
    ensures Removed(h, v, i) == View(Without(v.kids, i), size, left)
  {
    hide CutSize, Clusters;
  }

  method RunDelete(h: Heap, up: Upcase, dir: Node, i: nat, free: nat) returns (r: Result, left: nat)
    requires Valid(h, dir) && AllNormal(Items(dir))
    modifies dir`slots, dir`info, dir`dirty, dir`child, dir`kids
    modifies dir.kids`prev, dir.kids`next, dir.kids`parent, dir.kids`unlinked
    ensures Valid(h, dir) && h.clusterSize > 0
    ensures forall n | n in dir.kids :: n in old(dir.kids)
    ensures (Shown(dir, left), r) == Step(h, up, old(Shown(dir, free)), DeleteOp(i))
  {
    hide *;
    ValidParts(h, dir);
    ShownIs(h, dir, free);
    ghost var v := Shown(dir, free);
    DeleteStep(h, up, v, i);
    var node := Nth(dir, i);
    AtIs(dir.kids, if i < |dir.kids| then i else 0);
    if node == null {
      return Missing, free;
    }
    ShapeWithout(h, Items(dir), ItemsIn(v.kids), i, dir.info.size);
    NormalWithout(Items(dir), i);
    WithoutIn(dir.kids, i);
    var rc;
    rc, left := Delete(h, dir, node, free, i);
    ShownIs(h, dir, left);
    RemovedTo(h, v, i, dir.info.size, left);
    ShownWithout(dir, left, old(dir.kids), v.kids, i);
    r := Done;
  }

  lemma ShownWithout(dir: Node, free: nat, nodes: seq<Node>, kids: seq<Kid>, i: nat)
    requires |kids| == |nodes| && i < |kids| && dir.kids == Without(nodes, i)
    requires forall k | 0 <= k < |nodes| :: kids[k] == Kid(nodes[k].offset / 32, nodes[k].info, nodes[k].child == null)
    ensures Shown(dir, free).kids == Without(kids, i)
  {
    var a, b := Shown(dir, free).kids, Without(kids, i);
    forall k | 0 <= k < |b|
      ensures a[k] == b[k]
    {
      assert dir.kids[k] == nodes[if k < i then k else k + 1];
    }
  }

  lemma DeleteStep(h: Heap, up: Upcase, v: View, i: nat)
    requires h.clusterSize > 0
    ensures Step(h, up, v, DeleteOp(i)) == if i >= |v.kids| then (v, Missing) else (Removed(h, v, i), Done)
  {
    hide Removed;
  }

  method RunUpdate(h: Heap, up: Upcase, dir: Node, op: Op, free: nat) returns (r: Result)
    requires Valid(h, dir) && op.UpdateOp?
    modifies dir.kids`info, dir.kids`dirty
    ensures Valid(h, dir) && h.clusterSize > 0
    ensures (Shown(dir, free), r) == Step(h, up, old(Shown(dir, free)), op)
  {
    hide *;
    ValidParts(h, dir);
    ShownIs(h, dir, free);
    ghost var v := Shown(dir, free);
    UpdateStep(h, up, v, op);
    var node := Nth(dir, op.i);
    if node == null {
      AtIs(dir.kids, if op.i < |dir.kids| then op.i else 0);
      return Missing;
    }
    Others(dir, op.i);
    assert node in dir.kids;
    Update(h, dir, node, op.size, op.validSize, op.start, op.contiguous, op.i);
    ShownIs(h, dir, free);
    assert Shown(dir, free).kids == v.kids[op.i := v.kids[op.i].(info := node.info)];
    r := Done;
  }

  lemma UpdateStep(h: Heap, up: Upcase, v: View, op: Op)
    requires h.clusterSize > 0 && op.UpdateOp?
    ensures Step(h, up, v, op) ==
            if op.i >= |v.kids| then (v, Missing)
            else
              (v.(kids := v.kids[op.i := v.kids[op.i].(info := v.kids[op.i].info.(
                size := op.size, validSize := op.validSize, start := op.start, contiguous := op.contiguous))]), Done)
  {
  }

  lemma ShapeApart(a: seq<Item>, b: seq<Item>)
    requires SameShape(a, b) && AllApart(a)
    ensures AllApart(b)
  {
    forall i, k | 0 <= i < k < |b|
      ensures Apart(b[i], b[k])
    {
      assert Apart(a[i], a[k]);
    }
  }

  /** A valid directory without tail entries is properly laid out. */
  lemma ProperFrom(h: Heap, dir: Node, free: nat)
    requires Valid(h, dir) && AllNormal(Items(dir))
    ensures Proper(h, Shown(dir, free))
  {
    hide Layout, Linked, Tidy, Valid, AllApart, ItemsOf, KidsOf, NameEntries;
    ValidParts(h, dir);
    ShownIs(h, dir, free);
    var v := Shown(dir, free);
    NormalShape(Items(dir), ItemsIn(v.kids));
    forall i | 0 <= i < |v.kids|
      ensures Plain(v.kids[i]) && 32 * ItemsIn(v.kids)[i].End() <= v.size && AllApart(Items(dir))
    {
      TargetLength(h, dir, i);
      assert ItemsIn(v.kids)[i].Normal();
    }
    if v.kids == [] {
      assert Items(dir) == [];
      NothingApart();
    }
    ShapeApart(Items(dir), ItemsIn(v.kids));
  }

  lemma NothingApart()
    ensures AllApart([])
  {
  }

  lemma ShownMoved(dir: Node, free: nat, node: Node, nodes: seq<Node>, kids: seq<Kid>, i: nat)
    requires |kids| == |nodes| && i < |kids| && dir.kids == [node] + Without(nodes, i)
    requires forall k | 0 <= k < |nodes| && k != i ::
               kids[k] == Kid(nodes[k].offset / 32, nodes[k].info, nodes[k].child == null)
    ensures Shown(dir, free).kids == [Kid(node.offset / 32, node.info, node.child == null)] + Without(kids, i)
  {
    var a, b := Shown(dir, free).kids, [Kid(node.offset / 32, node.info, node.child == null)] + Without(kids, i);
    forall k | 0 <= k < |b|
      ensures a[k] == b[k]
    {
      assert k > 0 ==> dir.kids[k] == nodes[if k - 1 < i then k - 1 else k];
    }
  }

  lemma MovedIn(node: Node, kids: seq<Node>, i: nat)
    requires i < |kids| && kids[i] == node
    ensures forall n | n in [node] + Without(kids, i) :: n in kids
  {
  }

  /** After a plain rename the directory is what the replay makes of it. */
  lemma MoveShown(h: Heap, dir: Node, left: nat, node: Node, nodes: seq<Node>, v: View, items: seq<Item>, i: nat,
                  name: seq<nat>, done: bool)
    requires Valid(h, dir) && h.clusterSize > 0 && SameShape(items, ItemsIn(v.kids))
    requires |v.kids| == |nodes| && i < |nodes| && nodes[i] == node
    requires forall k | 0 <= k < |nodes| && k != i ::
               v.kids[k] == Kid(nodes[k].offset / 32, nodes[k].info, nodes[k].child == null)
    requires !done <==> ClustersFor(h, items, v.size, 2 + NameEntries(|name|)) > Clusters(h, v.size) + v.free
    requires !done ==>
               && dir.kids == nodes && dir.info.size == v.size && left == v.free
               && v.kids[i] == Kid(node.offset / 32, node.info, node.child == null)
    requires done ==>
               && dir.kids == [node] + Without(nodes, i)
               && node.info == v.kids[i].info.(continuations := 1 + NameEntries(|name|), name := name)
               && node.offset == 32 * FirstOpen(items, 2 + NameEntries(|name|))
               && (node.child == null) == v.kids[i].leaf
               && Clusters(h, dir.info.size) == ClustersFor(h, items, v.size, 2 + NameEntries(|name|))
               && left + Clusters(h, dir.info.size) == v.free + Clusters(h, v.size)
    ensures (Shown(dir, left), if done then Done else NoRoom) == Moved(h, v, i, name)
  {
    hide *;
    var n := 2 + NameEntries(|name|);
    ShapeDecides(h, items, ItemsIn(v.kids), v.size, n);
    MovedIs(h, v, i, name);
    ShownIs(h, dir, left);
    ValidParts(h, dir);
    HoldsIff(h, 0, dir.info.size);
    var kid := Kid(v.kids[i].slot, v.kids[i].info.(continuations := 1 + NameEntries(|name|), name := name),
                   v.kids[i].leaf);
    PutIs(h, v, Without(v.kids, i), kid, n, dir.info.size, left);
    if done {
      ShownMoved(dir, left, node, nodes, v.kids, i);
    } else {
      assert Shown(dir, left).kids == v.kids;
    }
  }

  /** Renames a child of the directory to a name that no other child has. */
  method RunMove(h: Heap, dir: Node, node: Node, name: seq<nat>, hash: nat, free: nat, ghost i: nat)
      returns (r: Result, left: nat)
    requires Valid(h, dir) && i < |dir.kids| && dir.kids[i] == node && Nameable(name)
    modifies dir`slots, dir`info, dir`dirty, dir`child, dir`kids, dir.kids`prev, dir.kids`next
    modifies node`parent, node`offset, node`info, node`disk
    ensures Valid(h, dir) && h.clusterSize > 0 && forall n | n in dir.kids :: n in old(dir.kids)
    ensures i < |old(Shown(dir, free)).kids| && (Shown(dir, left), r) == Moved(h, old(Shown(dir, free)), i, name)
  {
    hide *;
    ValidParts(h, dir);
    ShownIs(h, dir, free);
    Others(dir, i);
    LinkedDistinct(dir, i);
    ghost var v, nodes, items := Shown(dir, free), dir.kids, Items(dir);
    MovedIn(node, nodes, i);
    var rc, es;
    rc, left, es := Rename(h, dir, dir, node, name, hash, free, i);
    MoveShown(h, dir, left, node, nodes, v, items, i, name, rc == Volumes.OK);
    r := if rc == Volumes.OK then Done else NoRoom;
  }

  lemma RestShown(nodes: seq<Node>, kids: seq<Kid>, i: nat, k: nat)
    requires |kids| == |nodes| && i < |kids| && k < |kids| && i != k
    requires forall m | 0 <= m < |nodes| && m != i ::
               kids[m] == Kid(nodes[m].offset / 32, nodes[m].info, nodes[m].child == null)
    ensures var j := if i < k then i else i - 1;
            && 0 <= j < |kids| - 1 && Without(kids, k)[j] == kids[i] && Without(nodes, k)[j] == nodes[i]
            && forall m | 0 <= m < |nodes| - 1 && m != j ::
                 Without(kids, k)[m] ==
                 Kid(Without(nodes, k)[m].offset / 32, Without(nodes, k)[m].info, Without(nodes, k)[m].child == null)
    ensures |Without(nodes, k)| == |Without(kids, k)| == |kids| - 1
    ensures forall n | n in [nodes[i]] + Without(Without(nodes, k), if i < k then i else i - 1) :: n in nodes
    ensures forall n | n in Without(nodes, k) :: n in nodes
  {
    RestNodes(nodes, i, k);
    var a, b, j := Without(kids, k), Without(nodes, k), if i < k then i else i - 1;
    forall m | 0 <= m < |b| && m != j
      ensures a[m] == Kid(b[m].offset / 32, b[m].info, b[m].child == null)
    {
      var was := if m < k then m else m + 1;
      assert a[m] == kids[was] && b[m] == nodes[was] && was != i;
    }
  }

  lemma RestNodes(nodes: seq<Node>, i: nat, k: nat)
    requires i < |nodes| && k < |nodes| && i != k
    ensures forall n | n in Without(nodes, k) :: n in nodes
    ensures forall n | n in [nodes[i]] + Without(Without(nodes, k), if i < k then i else i - 1) :: n in nodes
  {
    var b := Without(nodes, k);
    assert forall m | 0 <= m < |b| :: b[m] == nodes[if m < k then m else m + 1];
    MovedIn(nodes[i], b, if i < k then i else i - 1);
  }

  /** The view between the two halves of a replacing rename. */
  ghost function Cleared(h: Heap, v: View, k: nat): View
    requires h.clusterSize > 0 && k < |v.kids|
  {
    var w := Removed(h, v, k);
    w.(free := w.free + CeilDiv(v.kids[k].info.size, h.clusterSize))
  }

  lemma ClearedIs(h: Heap, v: View, k: nat, items: seq<Item>, n: nat)
    requires Proper(h, v) && k < |v.kids| && SameShape(items, ItemsIn(v.kids))
    ensures var w := Cleared(h, v, k);
            && w.kids == Without(v.kids, k) && |w.kids| == |v.kids| - 1 && w.size == CutSize(h, items, k, v.size)
            && w.free + Clusters(h, w.size)
               == v.free + Clusters(h, v.size) + CeilDiv(v.kids[k].info.size, h.clusterSize)
            && ClustersFor(h, ItemsIn(w.kids), w.size, n) == ClustersFor(h, Without(items, k), w.size, n)
            && FirstOpen(ItemsIn(w.kids), n) == FirstOpen(Without(items, k), n)
            && (ClustersFor(h, ItemsIn(w.kids), w.size, n) > Clusters(h, w.size) + w.free
                <==> ReplacedClusters(h, items, k, n)
                     > v.free + Clusters(h, v.size) + CeilDiv(v.kids[k].info.size, h.clusterSize))
  {
    hide *;
    HasClusters(h, v);
    RemovedIs(h, v, k);
    ClearedOf(h, v, k);
    ShapeIs(items, ItemsIn(v.kids));
    ShapeWithout(h, items, ItemsIn(v.kids), k, v.size);
    var w := Cleared(h, v, k);
    ShapeDecides(h, Without(items, k), ItemsIn(w.kids), w.size, n);
    ReplacedRoom(h, items, k, w.size, n, v.free + Clusters(h, v.size) + CeilDiv(v.kids[k].info.size, h.clusterSize));
  }

  lemma HasClusters(h: Heap, v: View)
    requires Proper(h, v)
    ensures h.clusterSize > 0 && v.free >= 0
  {
  }

  lemma ClearedOf(h: Heap, v: View, k: nat)
    requires h.clusterSize > 0 && k < |v.kids|
    ensures var w := Removed(h, v, k);
            Cleared(h, v, k) == View(w.kids, w.size, w.free + CeilDiv(v.kids[k].info.size, h.clusterSize))
  {
  }

  lemma ShapeIs(a: seq<Item>, b: seq<Item>)
    requires SameShape(a, b)
    ensures |a| == |b|
  {
  }

  lemma RenamedIs(h: Heap, up: Upcase, v: View, i: nat, name: seq<nat>)
    requires h.clusterSize > 0 && i < |v.kids|
    ensures var k := Find(up, v.kids, name);
            && (k == |v.kids| || k == i ==> Renamed(h, up, v, i, name) == Moved(h, v, i, name))
            && (k < |v.kids| && k != i ==>
                  var why := Refusal(IsDirectory(v.kids[i].info.attrib), IsDirectory(v.kids[k].info.attrib),
                                     v.kids[k].leaf);
                  Renamed(h, up, v, i, name) ==
                  if why != RenameStatus.Renamed then (v, Refused(why))
                  else Moved(h, Cleared(h, v, k), if i < k then i else i - 1, name))
  {
    hide Moved, Removed, CeilDiv, Refusal, IsDirectory;
  }

  /** After a replacing rename the directory is what the replay makes of the cleared view. */
  lemma ReplaceShown(h: Heap, dir: Node, left: nat, node: Node, nodes: seq<Node>, v: View, items: seq<Item>,
                     i: nat, k: nat, name: seq<nat>, done: bool)
    requires Proper(h, v) && Valid(h, dir) && SameShape(items, ItemsIn(v.kids)) && |items| == |v.kids| == |nodes|
    requires i < |nodes| && k < |nodes| && i != k && nodes[i] == node && h.clusterSize > 0
    requires forall m | 0 <= m < |nodes| && m != i ::
               v.kids[m] == Kid(nodes[m].offset / 32, nodes[m].info, nodes[m].child == null)
    requires left + Clusters(h, dir.info.size)
             == v.free + Clusters(h, v.size) + CeilDiv(v.kids[k].info.size, h.clusterSize)
    requires !done <==> ReplacedClusters(h, items, k, 2 + NameEntries(|name|))
                        > v.free + Clusters(h, v.size) + CeilDiv(v.kids[k].info.size, h.clusterSize)
    requires !done ==>
               && dir.kids == Without(nodes, k) && dir.info.size == CutSize(h, items, k, v.size)
               && v.kids[i] == Kid(node.offset / 32, node.info, node.child == null)
    requires done ==>
               && dir.kids == [node] + Without(Without(nodes, k), if i < k then i else i - 1)
               && node.info == v.kids[i].info.(continuations := 1 + NameEntries(|name|), name := name)
               && node.offset == 32 * FirstOpen(Without(items, k), 2 + NameEntries(|name|))
               && (node.child == null) == v.kids[i].leaf
               && Clusters(h, dir.info.size)
                  == ClustersFor(h, Without(items, k), CutSize(h, items, k, v.size), 2 + NameEntries(|name|))
    ensures |Cleared(h, v, k).kids| == |v.kids| - 1
    ensures (Shown(dir, left), if done then Done else NoRoom)
            == Moved(h, Cleared(h, v, k), if i < k then i else i - 1, name)
  {
    hide *;
    var n := 2 + NameEntries(|name|);
    ClearedIs(h, v, k, items, n);
    var w, j := Cleared(h, v, k), if i < k then i else i - 1;
    RestShown(nodes, v.kids, i, k);
    MovedIs(h, w, j, name);
    ShownIs(h, dir, left);
    ValidParts(h, dir);
    HoldsIff(h, 0, dir.info.size);
    var kid := Kid(w.kids[j].slot, w.kids[j].info.(continuations := 1 + NameEntries(|name|), name := name),
                   w.kids[j].leaf);
    PutIs(h, w, Without(w.kids, j), kid, n, dir.info.size, left);
    if done {
      ShownMoved(dir, left, node, Without(nodes, k), w.kids, j);
    } else {
      ShownWithout(dir, left, nodes, v.kids, k);
    }
  }

  /** Renames a child over another one. */
  method RunReplace(h: Heap, dir: Node, node: Node, existing: Node, name: seq<nat>, hash: nat, free: nat,
                    ghost i: nat, ghost k: nat) returns (r: Result, left: nat)
    requires Valid(h, dir) && AllNormal(Items(dir)) && i < |dir.kids| && dir.kids[i] == node
    requires k < |dir.kids| && dir.kids[k] == existing && existing != node && Nameable(name)
    modifies dir`slots, dir`info, dir`dirty, dir`child, dir`kids, dir.kids`prev, dir.kids`next
    modifies node`parent, node`offset, node`info, node`disk, existing`parent, existing`unlinked
    ensures Valid(h, dir) && h.clusterSize > 0 && forall n | n in dir.kids :: n in old(dir.kids)
    ensures var v := old(Shown(dir, free));
            && |v.kids| == |old(dir.kids)|
            && (Shown(dir, left), r) ==
               var why := Refusal(IsDirectory(v.kids[i].info.attrib), IsDirectory(v.kids[k].info.attrib),
                                  v.kids[k].leaf);
               if why != RenameStatus.Renamed then (v, Refused(why))
               else Moved(h, Cleared(h, v, k), if i < k then i else i - 1, name)
  {
    hide *;
    ValidParts(h, dir);
    ShownIs(h, dir, free);
    ProperFrom(h, dir, free);
    Others(dir, i);
    LinkedDistinct(dir, i);
    LinkedDistinct(dir, k);
    ghost var v, nodes, items := Shown(dir, free), dir.kids, Items(dir);
    RestShown(nodes, v.kids, i, k);
    var rc;
    rc, left := RenameOver(h, dir, dir, node, existing, name, hash, free, i, k);
    if rc != RenameStatus.Renamed && rc != NoSpace {
      ShownIs(h, dir, left);
      assert Shown(dir, left).kids == v.kids;
      return Refused(rc), left;
    }
    ReplaceShown(h, dir, left, node, nodes, v, items, i, k, name, rc == RenameStatus.Renamed);
    r := if rc == RenameStatus.Renamed then Done else NoRoom;
  }

  lemma RenameStep(h: Heap, up: Upcase, v: View, op: Op)
    requires h.clusterSize > 0 && op.RenameOp?
    ensures Step(h, up, v, op) ==
            if op.i >= |v.kids| then (v, Missing)
            else if !Nameable(op.name) then (v, BadName)
            else Renamed(h, up, v, op.i, op.name)
  {
    hide Renamed, Nameable;
  }

  method RunRename(h: Heap, up: Upcase, dir: Node, op: Op, free: nat) returns (r: Result, left: nat)
    requires Valid(h, dir) && AllNormal(Items(dir)) && op.RenameOp?
    modifies dir`slots, dir`info, dir`dirty, dir`child, dir`kids, dir.kids
    ensures Valid(h, dir) && h.clusterSize > 0 && forall n | n in dir.kids :: n in old(dir.kids)
    ensures (Shown(dir, left), r) == Step(h, up, old(Shown(dir, free)), op)
  {
    hide *;
    ValidParts(h, dir);
    ShownIs(h, dir, free);
    ghost var v := Shown(dir, free);
    RenameStep(h, up, v, op);
    var node := Nth(dir, op.i);
    AtIs(dir.kids, if op.i < |dir.kids| then op.i else 0);
    if node == null {
      return Missing, free;
    }
    if !Nameable(op.name) {
      return BadName, free;
    }
    assert node in dir.kids;
    Others(dir, op.i);
    RenamedIs(h, up, v, op.i, op.name);
    ghost var k;
    var existing;
    existing, k := Lookup(h, up, dir, op.name, free);
    if existing == null || existing == node {
      r, left := RunMove(h, dir, node, op.name, op.hash, free, op.i);
    } else {
      assert existing in dir.kids;
      r, left := RunReplace(h, dir, node, existing, op.name, op.hash, free, op.i, k);
    }
  }

  ghost predicate NormalKids(kids: seq<Kid>) {
    forall i | 0 <= i < |kids| :: Item(kids[i].slot, kids[i].info).Normal()
  }

  lemma NormalIff(h: Heap, dir: Node, free: nat)
    requires Valid(h, dir)
    ensures AllNormal(Items(dir)) <==> NormalKids(Shown(dir, free).kids)
  {
    hide Valid, Items, Shown, SameShape, NameEntries;
    ShownIs(h, dir, free);
    var v := Shown(dir, free);
    NormalShape(Items(dir), ItemsIn(v.kids));
    SymmetricShape(Items(dir), ItemsIn(v.kids));
    NormalShape(ItemsIn(v.kids), Items(dir));
    assert forall i | 0 <= i < |v.kids| :: ItemsIn(v.kids)[i] == Item(v.kids[i].slot, v.kids[i].info);
  }

  lemma SymmetricShape(a: seq<Item>, b: seq<Item>)
    requires SameShape(a, b)
    ensures SameShape(b, a)
  {
  }

  lemma PutNormal(h: Heap, v: View, kids: seq<Kid>, kid: Kid)
    requires h.clusterSize > 0 && NormalKids(v.kids) && NormalKids(kids)
    requires kid.info.name != [] && kid.info.continuations == 1 + NameEntries(|kid.info.name|)
    ensures NormalKids(Put(h, v, kids, kid).0.kids)
  {
    hide ClustersFor, Clusters, FirstOpen, NameEntries, ItemsIn;
  }

  lemma MovedNormal(h: Heap, v: View, i: nat, name: seq<nat>)
    requires h.clusterSize > 0 && NormalKids(v.kids) && i < |v.kids| && name != []
    ensures NormalKids(Moved(h, v, i, name).0.kids)
  {
    hide Put, Moved, NameEntries;
    MovedIs(h, v, i, name);
    var rest := Without(v.kids, i);
    assert forall k | 0 <= k < |rest| :: rest[k] == v.kids[if k < i then k else k + 1];
    PutNormal(h, v, rest,
              Kid(v.kids[i].slot, v.kids[i].info.(continuations := 1 + NameEntries(|name|), name := name),
                  v.kids[i].leaf));
  }

  lemma RenamedNormal(h: Heap, up: Upcase, v: View, i: nat, name: seq<nat>)
    requires h.clusterSize > 0 && NormalKids(v.kids) && i < |v.kids| && name != []
    ensures NormalKids(Renamed(h, up, v, i, name).0.kids)
  {
    hide Moved, Removed, Renamed, Find, NameEntries;
    RenamedIs(h, up, v, i, name);
    var k := Find(up, v.kids, name);
    if k < |v.kids| && k != i {
      RemovedKids(h, v, k);
      var rest := Without(v.kids, k);
      assert forall m | 0 <= m < |rest| :: rest[m] == v.kids[if m < k then m else m + 1];
      MovedNormal(h, Cleared(h, v, k), if i < k then i else i - 1, name);
    } else {
      MovedNormal(h, v, i, name);
    }
  }

  /** No operation leaves a child with tail entries. */
  lemma StepKeepsNormal(h: Heap, up: Upcase, v: View, op: Op)
    requires h.clusterSize > 0 && NormalKids(v.kids)
    ensures NormalKids(Step(h, up, v, op).0.kids)
  {
    hide Find, Put, Removed, Renamed, NameEntries;
    match op
    case CreateOp(name, attrib, _, _) =>
      CreatedIs(h, v, name, attrib);
      if Nameable(name) {
        PutNormal(h, v, v.kids,
                  Kid(0, Info(attrib, 1 + NameEntries(|name|), 0, 0, Chains.CLUSTER_FREE, false, name), true));
      }
    case RenameOp(i, name, _) =>
      if i < |v.kids| && Nameable(name) {
        RenamedNormal(h, up, v, i, name);
      }
    case DeleteOp(i) =>
      if i < |v.kids| {
        RemovedKids(h, v, i);
        var rest := Without(v.kids, i);
        assert forall m | 0 <= m < |rest| :: rest[m] == v.kids[if m < i then m else m + 1];
      }
    case UpdateOp(i, _, _, _, _) =>
      if i < |v.kids| {
        assert Item(v.kids[i].slot, v.kids[i].info).Normal();
      }
  }

  /** One operation on the directory. */
  method RunOne(h: Heap, up: Upcase, dir: Node, op: Op, free: nat) returns (r: Result, left: nat)
    requires Valid(h, dir) && AllNormal(Items(dir))
    modifies dir, dir.kids
    ensures Valid(h, dir) && h.clusterSize > 0 && AllNormal(Items(dir))
    ensures forall n | n in dir.kids :: fresh(n) || n in old(dir.kids)
    ensures (Shown(dir, left), r) == Step(h, up, old(Shown(dir, free)), op)
  {
    hide *;
    ValidParts(h, dir);
    NormalIff(h, dir, free);
    StepKeepsNormal(h, up, Shown(dir, free), op);
    match op {
      case CreateOp(_, _, _, _) =>
        r, left := RunCreate(h, up, dir, op, free);
      case RenameOp(_, _, _) =>
        r, left := RunRename(h, up, dir, op, free);
      case DeleteOp(i) =>
        r, left := RunDelete(h, up, dir, i, free);
      case UpdateOp(_, _, _, _, _) =>
        r := RunUpdate(h, up, dir, op, free);
        left := free;
    }
    NormalIff(h, dir, left);
  }

  /** Any run of operations on a directory: it stays valid, and its children, its size, the free
      clusters and the results are those of the replay. When zero is alone in the upper case
      table, names stay unique and an operation that does not succeed changes nothing. */
  method Run(h: Heap, up: Upcase, dir: Node, ops: seq<Op>, free: nat) returns (results: seq<Result>, left: nat)
    requires Valid(h, dir) && AllNormal(Items(dir))
    modifies dir, dir.kids
    ensures Valid(h, dir) && AllNormal(Items(dir)) && h.clusterSize > 0
    ensures (Shown(dir, left), results) == Replay(h, up, old(Shown(dir, free)), ops)
    ensures ZeroAlone(up) && Unique(up, old(Shown(dir, free)).kids) ==> Unique(up, Shown(dir, left).kids)
    ensures ZeroAlone(up) ==> AllOrNothingRun(h, up, old(Shown(dir, free)), ops)
  {
    hide *;
    ValidParts(h, dir);
    ghost var v, kids := Shown(dir, free), dir.kids;
    results, left := [], free;
    ReplayStart(h, up, v, ops);
    for k := 0 to |ops|
      invariant Valid(h, dir) && AllNormal(Items(dir))
      invariant forall n | n in dir.kids :: fresh(n) || n in kids
      invariant (Shown(dir, left), results) == Replay(h, up, v, ops[..k])
      invariant ZeroAlone(up) && Unique(up, v.kids) ==> Unique(up, Shown(dir, left).kids)
      invariant ZeroAlone(up) ==> AllOrNothingRun(h, up, v, ops[..k])
    {
      ProperFrom(h, dir, left);
      ReplayStep(h, up, v, ops, k);
      if ZeroAlone(up) {
        AllOrNothing(h, up, Shown(dir, left), ops[k]);
        if Unique(up, Shown(dir, left).kids) {
          StepKeepsUnique(h, up, Shown(dir, left), ops[k]);
        }
      }
      assert forall j | 0 <= j < |dir.kids| :: dir.kids[j] in dir.kids;
      var r;
      r, left := RunOne(h, up, dir, ops[k], left);
      results := results + [r];
    }
    assert ops[..|ops|] == ops;
  }

  /** Every step of the run either succeeds or changes nothing. */
  ghost predicate AllOrNothingRun(h: Heap, up: Upcase, v: View, ops: seq<Op>)
    requires h.clusterSize > 0
  {
    forall k | 0 <= k < |ops| ::
      var w := Replay(h, up, v, ops[..k]).0;
      Step(h, up, w, ops[k]).1 != Done ==> Step(h, up, w, ops[k]).0 == w
  }

  lemma ReplayStart(h: Heap, up: Upcase, v: View, ops: seq<Op>)
    requires h.clusterSize > 0
    ensures Replay(h, up, v, ops[..0]) == (v, []) && AllOrNothingRun(h, up, v, ops[..0])
  {
  }

  lemma ReplayStep(h: Heap, up: Upcase, v: View, ops: seq<Op>, k: nat)
    requires h.clusterSize > 0 && k < |ops|
    ensures var before := Replay(h, up, v, ops[..k]);
            && Replay(h, up, v, ops[..k + 1])
               == (Step(h, up, before.0, ops[k]).0, before.1 + [Step(h, up, before.0, ops[k]).1])
            && (AllOrNothingRun(h, up, v, ops[..k])
                && (Step(h, up, before.0, ops[k]).1 != Done ==> Step(h, up, before.0, ops[k]).0 == before.0)
                ==> AllOrNothingRun(h, up, v, ops[..k + 1]))
  {
    hide Step;
    assert ops[..k + 1][..k] == ops[..k];
    forall m | 0 <= m < k
      ensures ops[..k][..m] == ops[..k + 1][..m] && ops[..k][m] == ops[..k + 1][m]
    {
    }
  }
}
