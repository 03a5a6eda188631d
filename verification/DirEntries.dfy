/** Directory entry sets as bytes: the type automaton, the checksum, and the sets written for
    a new, renamed or flushed file together with what parsing them gives back. */
module DirEntries {
  import opened Basics
  import opened Chains
  import opened Machine

  const ENTRY_VALID := 0x80
  const ENTRY_FILE := 0x85
  const ENTRY_FILE_INFO := 0xc0
  const ENTRY_FILE_NAME := 0xc1
  const ENTRY_FILE_TAIL := 0xe0
  const ENAME_MAX := 15
  const NAME_MAX := 255
  const ATTRIB_DIR: nat := 0x10

  /** A directory entry: 32 bytes, the first one its type. */
  type Entry = seq<byte>

  predicate Sized(es: seq<Entry>) {
    forall i | 0 <= i < |es| :: |es[i]| == 32
  }

  // ----- Fields -----

  function Number(s: seq<byte>): nat {
    if s == [] then 0 else s[0] as nat + 0x100 * Number(s[1..])
  }

  function Power256(k: nat): (p: nat)
    ensures p > 0
  {
    if k == 0 then 1 else 0x100 * Power256(k - 1)
  }

  lemma {:induction false} NumberOfLittleEndian(v: nat, k: nat)
    requires v < Power256(k)
    ensures Number(LittleEndian(v, k)) == v
  {
    if k > 0 {
      NumberOfLittleEndian(v / 0x100, k - 1);
    }
  }

  /** The `k`-byte number at `off`. */
  function Get(e: Entry, off: nat, k: nat): nat
    requires off + k <= |e|
  {
    Number(e[off..off + k])
  }

  function With(e: Entry, off: nat, k: nat, v: nat): (r: Entry)
    requires off + k <= |e|
    ensures |r| == |e|
  {
    e[..off] + LittleEndian(v, k) + e[off + k..]
  }

  lemma GetWith(e: Entry, off: nat, k: nat, v: nat)
    requires off + k <= |e| && v < Power256(k)
    ensures Get(With(e, off, k, v), off, k) == v
  {
    NumberOfLittleEndian(v, k);
    assert With(e, off, k, v)[off..off + k] == LittleEndian(v, k);
  }

  lemma GetOther(e: Entry, off: nat, k: nat, v: nat, other: nat, m: nat)
    requires off + k <= |e| && other + m <= |e| && (other + m <= off || off + k <= other)
    ensures Get(With(e, off, k, v), other, m) == Get(e, other, m)
  {
    assert With(e, off, k, v)[other..other + m] == e[other..other + m];
  }

  function Type(e: Entry): nat
    requires |e| == 32
  {
    e[0] as nat
  }

  // ----- The order of entry types in a set -----

  /** FILE, INFO, one or more NAME, then any number of tail entries. */
  ghost predicate Shaped(es: seq<Entry>)
    requires Sized(es)
  {
    exists names: nat :: ShapedWith(es, names)
  }

  ghost predicate ShapedWith(es: seq<Entry>, names: nat)
    requires Sized(es)
  {
    && 1 <= names && 2 + names <= |es|
    && Type(es[0]) == ENTRY_FILE && Type(es[1]) == ENTRY_FILE_INFO
    && (forall i | 2 <= i < 2 + names :: Type(es[i]) == ENTRY_FILE_NAME)
    && (forall i | 2 + names <= i < |es| :: Type(es[i]) >= ENTRY_FILE_TAIL)
  }

  const ENTRY_NONE := -1

  predicate Follows(previous: int, current: int) {
    if previous == ENTRY_NONE then current == ENTRY_FILE
    else if previous == ENTRY_FILE then current == ENTRY_FILE_INFO
    else if previous == ENTRY_FILE_INFO then current == ENTRY_FILE_NAME
    else if previous == ENTRY_FILE_NAME then
      current == ENTRY_FILE_NAME || current == ENTRY_NONE || current >= ENTRY_FILE_TAIL
    else if ENTRY_FILE_TAIL <= previous <= 0xff then current >= ENTRY_FILE_TAIL || current == ENTRY_NONE
    else false
  }

  /** What the automaton knows after `i` entries. */
  ghost predicate Prefix(es: seq<Entry>, i: nat, names: nat)
    requires Sized(es) && i <= |es|
  {
    && (i > 0 ==> Type(es[0]) == ENTRY_FILE)
    && (i > 1 ==> Type(es[1]) == ENTRY_FILE_INFO)
    && (if i <= 2 then names == 0 else 1 <= names && 2 + names <= i)
    && (forall k | 2 <= k < 2 + names :: Type(es[k]) == ENTRY_FILE_NAME)
    && (forall k | 2 + names <= k < i :: Type(es[k]) >= ENTRY_FILE_TAIL)
  }

  method CheckEntries(es: seq<Entry>) returns (ok: bool)
    requires Sized(es)
    ensures ok <==> Shaped(es)
  {
    var previous := ENTRY_NONE;
    var i := 0;
    ghost var names := 0;
    while i < |es| + 1
      invariant 0 <= i <= |es| + 1
      invariant i <= |es| ==> Prefix(es, i, names) && previous == if i == 0 then ENTRY_NONE else Type(es[i - 1])
      invariant i == |es| + 1 ==> Shaped(es)
    {
      var current := if i < |es| then Type(es[i]) else ENTRY_NONE;
      if !Follows(previous, current) {
        NotShaped(es, i, names);
        return false;
      }
      if i >= 2 && current == ENTRY_FILE_NAME {
        names := names + 1;
      }
      if i == |es| {
        assert ShapedWith(es, names);
      }
      previous := current;
      i := i + 1;
    }
    return true;
  }

  /** An entry that may not follow the ones before it spoils every reading of the set. */
  lemma NotShaped(es: seq<Entry>, i: nat, names: nat)
    requires Sized(es) && i <= |es| && Prefix(es, i, names)
    requires !Follows(if i == 0 then ENTRY_NONE else Type(es[i - 1]), if i < |es| then Type(es[i]) else ENTRY_NONE)
    ensures !Shaped(es)
  {
    forall m: nat
      ensures !ShapedWith(es, m)
    {
    }
  }

  // ----- The checksum of a set -----

  /** Rotate the 16-bit sum right by one, then add the byte. */
  function AddByte(sum: nat, b: byte): (r: nat)
    ensures r < 0x1_0000
  {
    ((sum % 2) * 0x8000 + sum / 2 + b as nat) % 0x1_0000
  }

  function Sum(sum: nat, s: seq<byte>): nat {
    if s == [] then sum else AddByte(Sum(sum, s[..|s| - 1]), s[|s| - 1])
  }

  /** All bytes of the set except those of the checksum field itself. */
  function Checksum(es: seq<Entry>): nat
    requires Sized(es) && es != []
  {
    if |es| == 1 then Sum(Sum(0, es[0][..2]), es[0][4..])
    else Sum(Checksum(es[..|es| - 1]), es[|es| - 1])
  }

  lemma {:induction false} ChecksumBound(es: seq<Entry>)
    requires Sized(es) && es != []
    ensures Checksum(es) < 0x1_0000
  {
  }

  /** The checksum does not depend on the field that holds it. */
  lemma {:induction false} ChecksumIgnoresItself(es: seq<Entry>, v: nat)
    requires Sized(es) && es != []
    ensures Checksum(es[0 := With(es[0], 2, 2, v)]) == Checksum(es)
  {
    hide Sum;
    var e := With(es[0], 2, 2, v);
    if |es| == 1 {
      assert e[..2] == es[0][..2] && e[4..] == es[0][4..];
    } else {
      ChecksumIgnoresItself(es[..|es| - 1], v);
      assert es[0 := e][..|es| - 1] == es[..|es| - 1][0 := e];
    }
  }

  method AddChecksumBytes(start: nat, s: seq<byte>) returns (sum: nat)
    ensures sum == Sum(start, s)
  {
    sum := start;
    for i := 0 to |s|
      invariant sum == Sum(start, s[..i])
    {
      sum := AddByte(sum, s[i]);
      assert s[..i + 1][..i] == s[..i];
    }
    assert s[..|s|] == s;
  }

  method StartChecksum(e: Entry) returns (sum: nat)
    requires |e| == 32
    ensures sum == Checksum([e])
  {
    hide AddByte;
    sum := 0;
    for i := 0 to 32
      invariant sum == if i <= 4 then Sum(0, e[..if i < 2 then i else 2]) else Sum(Sum(0, e[..2]), e[4..i])
    {
      if i != 2 && i != 3 {
        sum := AddByte(sum, e[i]);
        assert i < 2 ==> e[..i + 1][..i] == e[..i];
        assert i >= 4 ==> e[4..i + 1][..i - 4] == e[4..i];
      }
    }
    assert e[4..32] == e[4..];
  }

  method CalcChecksum(es: seq<Entry>) returns (sum: nat)
    requires Sized(es) && es != []
    ensures sum == Checksum(es)
  {
    hide Sum;
    sum := StartChecksum(es[0]);
    assert es[..1] == [es[0]];
    for i := 1 to |es|
      invariant sum == Checksum(es[..i])
    {
      sum := AddChecksumBytes(sum, es[i]);
      assert es[..i + 1][..i] == es[..i];
    }
    assert es[..|es|] == es;
  }

  // ----- Parsing a set -----

  /** The cluster heap, as far as a directory entry can refer to it. */
  datatype Heap = Heap(count: nat, clusterSize: nat)

  /** What a node knows from its entry set; the name ends before its first zero. */
  datatype Info = Info(
    attrib: nat,
    continuations: nat,
    validSize: nat,
    size: nat,
    start: nat,
    contiguous: bool,
    name: seq<nat>
  )

  predicate IsDirectory(attrib: nat) {
    attrib / ATTRIB_DIR % 2 == 1
  }

  /** The consistency conditions a node must meet. */
  predicate Sound(h: Heap, i: Info)
    requires h.clusterSize > 0
  {
    && i.validSize <= i.size
    && (i.size == 0 ==> i.start == CLUSTER_FREE)
    && (i.size > 0 ==> ValidCluster(h.count, i.start))
    && i.size <= h.count * h.clusterSize
    && (i.size == 0 ==> !i.contiguous)
    && (IsDirectory(i.attrib) ==> i.size % h.clusterSize == 0)
  }

  /** Entries that hold a name of `length` characters. */
  function NameEntries(length: nat): nat {
    (length + ENAME_MAX - 1) / ENAME_MAX
  }

  function Units(e: Entry): (u: seq<nat>)
    requires |e| == 32
    ensures |u| == ENAME_MAX
  {
    seq(ENAME_MAX, j requires 0 <= j < ENAME_MAX => Get(e, 2 + 2 * j, 2))
  }

  function NameUnits(es: seq<Entry>): seq<nat>
    requires Sized(es)
  {
    if es == [] then [] else NameUnits(es[..|es| - 1]) + Units(es[|es| - 1])
  }

  function Cut(u: seq<nat>): seq<nat> {
    if u == [] || u[0] == 0 then [] else [u[0]] + Cut(u[1..])
  }

  function Described(es: seq<Entry>): Info
    requires Sized(es) && |es| >= 2 && |es| >= 2 + NameEntries(Get(es[1], 3, 1))
  {
    Info(Get(es[0], 4, 2), Get(es[0], 1, 1), Get(es[1], 8, 8), Get(es[1], 24, 8), Get(es[1], 20, 4),
         Get(es[1], 1, 1) / 2 % 2 == 1, Cut(NameUnits(es[2..2 + NameEntries(Get(es[1], 3, 1))])))
  }

  /** A set is read with as many entries as its first one asks for. */
  ghost predicate Readable(h: Heap, es: seq<Entry>)
    requires Sized(es) && h.clusterSize > 0
  {
    && Shaped(es)
    && |es| == 1 + Get(es[0], 1, 1)
    && Get(es[1], 1, 1) < 4
    && |es| >= 2 + NameEntries(Get(es[1], 3, 1))
    && Checksum(es) == Get(es[0], 2, 2)
    && Sound(h, Described(es))
  }

  method ParseFileEntries(h: Heap, es: seq<Entry>) returns (r: Option<Info>)
    requires Sized(es) && es != [] && |es| == 1 + Get(es[0], 1, 1) && h.clusterSize > 0
    ensures r.Some? <==> Readable(h, es)
    ensures r.Some? ==> r.value == Described(es)
  {
    var shaped := CheckEntries(es);
    if !shaped {
      return None;
    }
    var continuations := Get(es[0], 1, 1);
    if continuations < 2 {
      return None;
    }
    var flags := Get(es[1], 1, 1);
    if flags / 4 != 0 {
      return None;
    }
    var mandatory := 2 + NameEntries(Get(es[1], 3, 1));
    if continuations < mandatory - 1 {
      return None;
    }
    var units := [];
    for i := 0 to mandatory - 2
      invariant units == NameUnits(es[2..2 + i])
    {
      units := units + Units(es[2 + i]);
      assert es[2..2 + i + 1][..i] == es[2..2 + i];
    }
    var info := Info(Get(es[0], 4, 2), continuations, Get(es[1], 8, 8), Get(es[1], 24, 8),
                     Get(es[1], 20, 4), flags / 2 % 2 == 1, Cut(units));
    var sum := CalcChecksum(es);
    if sum == Get(es[0], 2, 2) && Sound(h, info) {
      return Some(info);
    }
    return None;
  }

  // ----- Name entries -----

  /** What a name buffer can hold: up to 255 UTF-16 units, none of them zero. */
  predicate NameFits(name: seq<nat>) {
    |name| <= NAME_MAX && forall i | 0 <= i < |name| :: 0 < name[i] < 0x1_0000
  }

  predicate Nameable(name: seq<nat>) {
    name != [] && NameFits(name)
  }

  /** The 256-unit buffer that holds a name, zero after its end. */
  function Buffer(name: seq<nat>): (b: seq<nat>)
    requires |name| <= NAME_MAX
    ensures |b| == NAME_MAX + 1
  {
    name + seq(NAME_MAX + 1 - |name|, _ => 0)
  }

  function Packed(u: seq<nat>): (s: seq<byte>)
    ensures |s| == 2 * |u|
  {
    if u == [] then [] else LittleEndian(u[0], 2) + Packed(u[1..])
  }

  lemma {:induction false} UnpackedAt(u: seq<nat>, j: nat)
    requires j < |u| && u[j] < 0x1_0000
    ensures Number(Packed(u)[2 * j..2 * j + 2]) == u[j]
    decreases j
  {
    hide Number, LittleEndian;
    if j == 0 {
      assert Power256(2) == 0x1_0000;
      NumberOfLittleEndian(u[0], 2);
      assert Packed(u)[0..2] == LittleEndian(u[0], 2);
    } else {
      UnpackedAt(u[1..], j - 1);
      assert Packed(u)[2..] == Packed(u[1..]);
      assert Packed(u)[2 * j..2 * j + 2] == Packed(u[1..])[2 * (j - 1)..2 * (j - 1) + 2];
    }
  }

  function NameEntry(u: seq<nat>): (e: Entry)
    requires |u| == ENAME_MAX
    ensures |e| == 32
  {
    [ENTRY_FILE_NAME as byte, 0] + Packed(u)
  }

  lemma UnitsOfNameEntry(u: seq<nat>)
    requires |u| == ENAME_MAX && forall i | 0 <= i < |u| :: u[i] < 0x1_0000
    ensures Units(NameEntry(u)) == u && Type(NameEntry(u)) == ENTRY_FILE_NAME
  {
    hide Number, Packed;
    var e := NameEntry(u);
    forall j | 0 <= j < ENAME_MAX
      ensures Units(e)[j] == u[j]
    {
      UnpackedAt(u, j);
      assert e[2 + 2 * j..2 + 2 * j + 2] == Packed(u)[2 * j..2 * j + 2];
    }
  }

  lemma {:induction false} CutPadded(name: seq<nat>, u: seq<nat>)
    requires forall i | 0 <= i < |name| :: name[i] > 0
    requires u != [] ==> u[0] == 0
    ensures Cut(name + u) == name
  {
    if name == [] {
      assert name + u == u;
    } else {
      CutPadded(name[1..], u);
      assert (name + u)[1..] == name[1..] + u;
    }
  }

  lemma NameRoom(length: nat)
    requires length <= NAME_MAX
    ensures NameEntries(length) <= 17 && length <= ENAME_MAX * NameEntries(length) <= NAME_MAX
    ensures length == 0 <==> NameEntries(length) == 0
  {
  }

  method WriteName(name: seq<nat>) returns (ns: seq<Entry>)
    requires NameFits(name)
    ensures Sized(ns) && |ns| == NameEntries(|name|)
    ensures forall i | 0 <= i < |ns| :: Type(ns[i]) == ENTRY_FILE_NAME
    ensures Cut(NameUnits(ns)) == name
  {
    hide Units, NameEntry, Cut;
    var buffer := Buffer(name);
    var n := NameEntries(|name|);
    NameRoom(|name|);
    ns := [];
    for i := 0 to n
      invariant Sized(ns) && |ns| == i
      invariant forall k | 0 <= k < i :: Type(ns[k]) == ENTRY_FILE_NAME
      invariant NameUnits(ns) == buffer[..ENAME_MAX * i]
    {
      var u := buffer[ENAME_MAX * i..ENAME_MAX * i + ENAME_MAX];
      UnitsOfNameEntry(u);
      ghost var before := ns;
      ns := ns + [NameEntry(u)];
      assert ns[..|ns| - 1] == before;
    }
    ghost var rest := buffer[|name|..ENAME_MAX * n];
    assert buffer[..ENAME_MAX * n] == name + rest;
    CutPadded(name, rest);
  }

  // ----- Sets that are written -----

  ghost predicate Head(e: Entry, continuations: nat, attrib: nat) {
    && |e| == 32
    && Get(e, 0, 1) == ENTRY_FILE && Get(e, 1, 1) == continuations && Get(e, 4, 2) == attrib
  }

  ghost predicate Second(e: Entry, flags: nat, length: nat, validSize: nat, start: nat, size: nat) {
    && |e| == 32
    && Get(e, 0, 1) == ENTRY_FILE_INFO && Get(e, 1, 1) == flags && Get(e, 3, 1) == length
    && Get(e, 8, 8) == validSize && Get(e, 20, 4) == start && Get(e, 24, 8) == size
  }

  lemma TypeIsGet(e: Entry)
    requires |e| == 32
    ensures Type(e) == Get(e, 0, 1)
  {
    assert e[0..1] == [e[0]];
    assert Number([e[0]]) == e[0] as nat + 0x100 * Number([]);
  }

  /** Any field of the first entry but its type, count and attributes may change. */
  lemma HeadKept(e: Entry, off: nat, k: nat, v: nat, continuations: nat, attrib: nat)
    requires Head(e, continuations, attrib) && off + k <= 32 && (off >= 6 || (off >= 2 && off + k <= 4))
    ensures Head(With(e, off, k, v), continuations, attrib)
  {
    hide Get, With;
    GetOther(e, off, k, v, 0, 1);
    GetOther(e, off, k, v, 1, 1);
    GetOther(e, off, k, v, 4, 2);
  }

  lemma ShapeKept(was: seq<Entry>, es: seq<Entry>)
    requires Sized(was) && Sized(es) && |was| == |es| && Shaped(was)
    requires forall i | 0 <= i < |es| :: Get(was[i], 0, 1) == Get(es[i], 0, 1)
    ensures Shaped(es)
  {
    hide Get, Type;
    forall i | 0 <= i < |es|
      ensures Type(es[i]) == Type(was[i])
    {
      TypeIsGet(was[i]);
      TypeIsGet(es[i]);
    }
    var names: nat :| ShapedWith(was, names);
    assert ShapedWith(es, names);
  }

  /** A set with these fields, and its checksum put in, reads back as `info`. */
  lemma SetReads(h: Heap, m1: Entry, m2: Entry, ns: seq<Entry>, info: Info, flags: nat, length: nat)
    requires h.clusterSize > 0 && Sized(ns) && Head(m1, info.continuations, info.attrib)
    requires Second(m2, flags, length, info.validSize, info.start, info.size)
    requires Shaped([m1, m2] + ns) && info.continuations == 1 + |ns| && NameEntries(length) <= |ns|
    requires flags < 4 && info.contiguous == (flags / 2 % 2 == 1)
    requires info.name == Cut(NameUnits(ns[..NameEntries(length)])) && Sound(h, info)
    ensures var es := [With(m1, 2, 2, Checksum([m1, m2] + ns)), m2] + ns;
            Sized(es) && Readable(h, es) && Described(es) == info
  {
    hide Checksum, With, Get, NameUnits, NameEntries, Cut, Sound, Shaped;
    var was := [m1, m2] + ns;
    var sum := Checksum(was);
    var es := [With(m1, 2, 2, sum), m2] + ns;
    ChecksumBound(was);
    assert Power256(2) == 0x1_0000;
    GetWith(m1, 2, 2, sum);
    HeadKept(m1, 2, 2, sum, info.continuations, info.attrib);
    ChecksumIgnoresItself(was, sum);
    assert was[0 := With(m1, 2, 2, sum)] == es;
    ShapeKept(was, es);
    assert es[2..2 + NameEntries(length)] == ns[..NameEntries(length)];
  }

  lemma PlainShape(m1: Entry, m2: Entry, ns: seq<Entry>)
    requires |m1| == 32 && |m2| == 32 && Sized(ns) && ns != []
    requires Get(m1, 0, 1) == ENTRY_FILE && Get(m2, 0, 1) == ENTRY_FILE_INFO
    requires forall i | 0 <= i < |ns| :: Type(ns[i]) == ENTRY_FILE_NAME
    ensures Shaped([m1, m2] + ns)
  {
    hide Get, Type;
    TypeIsGet(m1);
    TypeIsGet(m2);
    assert ShapedWith([m1, m2] + ns, |ns|);
  }

  /** The encoded times of a node; the creation time of a new one is its modification time. */
  datatype Times = Times(mtime: nat, mdate: nat, mcs: nat, mtzo: nat, atime: nat, adate: nat, atzo: nat)

  function Stamped(e: Entry, t: Times): (r: Entry)
    requires |e| == 32
    ensures |r| == 32
  {
    var e := With(With(e, 12, 2, t.mtime), 14, 2, t.mdate);
    var e := With(With(e, 21, 1, t.mcs), 23, 1, t.mtzo);
    With(With(With(e, 16, 2, t.atime), 18, 2, t.adate), 24, 1, t.atzo)
  }

  lemma StampedKeeps(e: Entry, t: Times, continuations: nat, attrib: nat)
    requires Head(e, continuations, attrib)
    ensures Head(Stamped(e, t), continuations, attrib)
  {
    hide Head, With;
    HeadSize(e, continuations, attrib);
    HeadKept(e, 12, 2, t.mtime, continuations, attrib);
    var a := With(e, 12, 2, t.mtime);
    HeadKept(a, 14, 2, t.mdate, continuations, attrib);
    var b := With(a, 14, 2, t.mdate);
    HeadKept(b, 21, 1, t.mcs, continuations, attrib);
    var c := With(b, 21, 1, t.mcs);
    HeadKept(c, 23, 1, t.mtzo, continuations, attrib);
    var d := With(c, 23, 1, t.mtzo);
    HeadKept(d, 16, 2, t.atime, continuations, attrib);
    var f := With(d, 16, 2, t.atime);
    HeadKept(f, 18, 2, t.adate, continuations, attrib);
    var g := With(f, 18, 2, t.adate);
    HeadKept(g, 24, 1, t.atzo, continuations, attrib);
  }

  lemma HeadSize(e: Entry, continuations: nat, attrib: nat)
    requires Head(e, continuations, attrib)
    ensures |e| == 32
  {
  }

  const BLANK: Entry := seq(32, _ => 0)

  lemma BlankFields(off: nat, k: nat)
    requires off + k <= 32
    ensures Get(BLANK, off, k) == 0
  {
    ZeroNumber(BLANK[off..off + k]);
  }

  lemma {:induction false} ZeroNumber(s: seq<byte>)
    requires forall i | 0 <= i < |s| :: s[i] == 0
    ensures Number(s) == 0
  {
    if s != [] {
      ZeroNumber(s[1..]);
    }
  }

  lemma Powers()
    ensures Power256(1) == 0x100 && Power256(2) == 0x1_0000 && Power256(4) == 0x1_0000_0000
    ensures Power256(8) == 0x1_0000_0000_0000_0000
  {
    assert Power256(4) == 0x100 * (0x100 * Power256(2));
    assert Power256(6) == 0x100 * (0x100 * Power256(4));
    assert Power256(8) == 0x100 * (0x100 * Power256(6));
  }

  method FirstEntry(continuations: nat, attrib: nat, t: Times) returns (e: Entry)
    requires continuations < 0x100 && attrib < 0x1_0000
    ensures Head(e, continuations, attrib)
  {
    hide With, Get, Stamped;
    Powers();
    e := With(BLANK, 0, 1, ENTRY_FILE);
    GetWith(BLANK, 0, 1, ENTRY_FILE);
    GetOther(e, 1, 1, continuations, 0, 1);
    GetWith(e, 1, 1, continuations);
    e := With(e, 1, 1, continuations);
    GetOther(e, 4, 2, attrib, 0, 1);
    GetOther(e, 4, 2, attrib, 1, 1);
    GetWith(e, 4, 2, attrib);
    e := With(e, 4, 2, attrib);
    HeadKept(e, 8, 2, t.mtime, continuations, attrib);
    e := With(e, 8, 2, t.mtime);
    HeadKept(e, 10, 2, t.mdate, continuations, attrib);
    e := With(e, 10, 2, t.mdate);
    HeadKept(e, 20, 1, t.mcs, continuations, attrib);
    e := With(e, 20, 1, t.mcs);
    HeadKept(e, 22, 1, t.mtzo, continuations, attrib);
    e := With(e, 22, 1, t.mtzo);
    StampedKeeps(e, t, continuations, attrib);
    e := Stamped(e, t);
  }

  method SecondEntry(length: nat, hash: nat) returns (e: Entry)
    requires length < 0x100
    ensures Second(e, 1, length, 0, CLUSTER_FREE, 0)
  {
    hide With, Get;
    Powers();
    BlankFields(8, 8);
    BlankFields(24, 8);
    GetWith(BLANK, 0, 1, ENTRY_FILE_INFO);
    GetOther(BLANK, 0, 1, ENTRY_FILE_INFO, 8, 8);
    GetOther(BLANK, 0, 1, ENTRY_FILE_INFO, 24, 8);
    e := With(BLANK, 0, 1, ENTRY_FILE_INFO);
    GetWith(e, 1, 1, 1);
    GetOther(e, 1, 1, 1, 0, 1);
    GetOther(e, 1, 1, 1, 8, 8);
    GetOther(e, 1, 1, 1, 24, 8);
    e := With(e, 1, 1, 1);
    GetWith(e, 20, 4, CLUSTER_FREE);
    GetOther(e, 20, 4, CLUSTER_FREE, 0, 1);
    GetOther(e, 20, 4, CLUSTER_FREE, 1, 1);
    GetOther(e, 20, 4, CLUSTER_FREE, 8, 8);
    GetOther(e, 20, 4, CLUSTER_FREE, 24, 8);
    e := With(e, 20, 4, CLUSTER_FREE);
    e := WriteLength(e, length, hash, 1, 0, CLUSTER_FREE, 0);
  }

  /** Puts a new name length and hash into a second entry. */
  method WriteLength(was: Entry, length: nat, hash: nat,
                     ghost flags: nat, ghost validSize: nat, ghost start: nat, ghost size: nat) returns (e: Entry)
    requires length < 0x100 && |was| == 32 && Second(was, flags, Get(was, 3, 1), validSize, start, size)
    ensures Second(e, flags, length, validSize, start, size)
  {
    hide With, Get;
    Powers();
    GetWith(was, 3, 1, length);
    GetOther(was, 3, 1, length, 0, 1);
    GetOther(was, 3, 1, length, 1, 1);
    GetOther(was, 3, 1, length, 8, 8);
    GetOther(was, 3, 1, length, 20, 4);
    GetOther(was, 3, 1, length, 24, 8);
    e := With(was, 3, 1, length);
    GetOther(e, 4, 2, hash, 0, 1);
    GetOther(e, 4, 2, hash, 1, 1);
    GetOther(e, 4, 2, hash, 3, 1);
    GetOther(e, 4, 2, hash, 8, 8);
    GetOther(e, 4, 2, hash, 20, 4);
    GetOther(e, 4, 2, hash, 24, 8);
    e := With(e, 4, 2, hash);
  }

  /** The set written for a new, empty file reads back as that file, exactly when the name is
      not empty. */
  method CommitEntries(h: Heap, name: seq<nat>, attrib: nat, hash: nat, t: Times) returns (es: seq<Entry>)
    requires h.clusterSize > 0 && NameFits(name) && attrib < 0x1_0000
    ensures Sized(es) && |es| == 2 + NameEntries(|name|)
    ensures Readable(h, es) <==> name != []
    ensures Readable(h, es) ==>
              Described(es) == Info(attrib, 1 + NameEntries(|name|), 0, 0, CLUSTER_FREE, false, name)
  {
    hide Head, Second, Shaped, NameUnits, Cut, With, Get, Readable, Described, NameEntries;
    NameRoom(|name|);
    var n := NameEntries(|name|);
    var m1 := FirstEntry(1 + n, attrib, t);
    var m2 := SecondEntry(|name|, hash);
    var ns := WriteName(name);
    Exposed(m1, m2, 1 + n, attrib, 1, |name|, 0, CLUSTER_FREE, 0);
    var sum := CalcChecksum([m1, m2] + ns);
    es := [With(m1, 2, 2, sum), m2] + ns;
    if name == [] {
      Nameless(h, es);
    } else {
      PlainShape(m1, m2, ns);
      assert ns[..n] == ns;
      SetReads(h, m1, m2, ns, Info(attrib, 1 + n, 0, 0, CLUSTER_FREE, false, name), 1, |name|);
    }
  }

  /** A set without name entries cannot be read. */
  lemma Nameless(h: Heap, es: seq<Entry>)
    requires h.clusterSize > 0 && Sized(es) && |es| == 2
    ensures !Readable(h, es)
  {
  }

  lemma Exposed(m1: Entry, m2: Entry, continuations: nat, attrib: nat,
                flags: nat, length: nat, validSize: nat, start: nat, size: nat)
    requires Head(m1, continuations, attrib) && Second(m2, flags, length, validSize, start, size)
    ensures |m1| == 32 && |m2| == 32 && Get(m1, 0, 1) == ENTRY_FILE && Get(m2, 0, 1) == ENTRY_FILE_INFO
  {
  }

  /** The set written when a file is renamed reads back as the file under its new name, exactly
      when the name is not empty. */
  method RenameEntries(h: Heap, first: Entry, second: Entry, name: seq<nat>, hash: nat, ghost was: seq<Entry>)
      returns (es: seq<Entry>)
    requires h.clusterSize > 0 && NameFits(name) && Sized(was) && Readable(h, was)
    requires first == was[0] && second == was[1]
    ensures Sized(es) && |es| == 2 + NameEntries(|name|)
    ensures Readable(h, es) <==> name != []
    ensures Readable(h, es) ==>
              Described(es) == Described(was).(continuations := 1 + NameEntries(|name|), name := name)
  {
    hide NameEntries, Second, Head, Shaped, NameUnits, Cut, With, Get, Readable, Described;
    NameRoom(|name|);
    var n := NameEntries(|name|);
    ReadableFields(h, was);
    ghost var info, flags := Described(was), Get(second, 1, 1);
    var m1 := Recount(first, 1 + n, info.continuations, info.attrib);
    var m2 := WriteLength(second, |name|, hash, flags, info.validSize, info.start, info.size);
    var ns := WriteName(name);
    Exposed(m1, m2, 1 + n, info.attrib, flags, |name|, info.validSize, info.start, info.size);
    var sum := CalcChecksum([m1, m2] + ns);
    es := [With(m1, 2, 2, sum), m2] + ns;
    if name == [] {
      Nameless(h, es);
    } else {
      PlainShape(m1, m2, ns);
      assert ns[..n] == ns;
      SetReads(h, m1, m2, ns, info.(continuations := 1 + n, name := name), flags, |name|);
    }
  }

  method Recount(was: Entry, continuations: nat, ghost before: nat, ghost attrib: nat) returns (e: Entry)
    requires continuations < 0x100 && Head(was, before, attrib)
    ensures Head(e, continuations, attrib)
  {
    hide With, Get;
    Powers();
    GetWith(was, 1, 1, continuations);
    GetOther(was, 1, 1, continuations, 0, 1);
    GetOther(was, 1, 1, continuations, 4, 2);
    e := With(was, 1, 1, continuations);
  }

  lemma ReadableFields(h: Heap, es: seq<Entry>)
    requires h.clusterSize > 0 && Sized(es) && Readable(h, es)
    ensures |es| >= 3 && |es| >= 2 + NameEntries(Get(es[1], 3, 1)) && |es| == 1 + Described(es).continuations
    ensures var i := Described(es);
            && Sound(h, i) && Get(es[1], 1, 1) < 4 && i.contiguous == (Get(es[1], 1, 1) / 2 % 2 == 1)
            && Head(es[0], i.continuations, i.attrib)
            && Second(es[1], Get(es[1], 1, 1), Get(es[1], 3, 1), i.validSize, i.start, i.size)
            && Shaped(es) && i.name == Cut(NameUnits(es[2..2 + NameEntries(Get(es[1], 3, 1))]))
  {
    hide Get, NameUnits, Cut, Checksum;
    TypeIsGet(es[0]);
    TypeIsGet(es[1]);
    var names: nat :| ShapedWith(es, names);
  }

  lemma {:induction false} CutIs(u: seq<nat>)
    ensures |Cut(u)| <= |u| && forall i | 0 <= i < |Cut(u)| :: Cut(u)[i] == u[i] != 0
  {
    if u != [] && u[0] != 0 {
      CutIs(u[1..]);
    }
  }

  lemma {:induction false} NameUnitsLength(es: seq<Entry>)
    requires Sized(es)
    ensures |NameUnits(es)| == ENAME_MAX * |es|
  {
    if es != [] {
      NameUnitsLength(es[..|es| - 1]);
    }
  }

  lemma OneByte(s: seq<byte>)
    requires |s| == 1
    ensures Number(s) <= NAME_MAX
  {
    assert s[1..] == [];
  }

  lemma TwoBytes(s: seq<byte>)
    requires |s| == 2
    ensures Number(s) < 0x1_0000
  {
    assert Number(s[1..]) == s[1] as nat + 0x100 * Number(s[1..][1..]);
  }

  lemma UnitsBelow(e: Entry)
    requires |e| == 32
    ensures forall j | 0 <= j < ENAME_MAX :: Units(e)[j] < 0x1_0000
  {
    forall j | 0 <= j < ENAME_MAX
      ensures Units(e)[j] < 0x1_0000
    {
      TwoBytes(e[2 + 2 * j..4 + 2 * j]);
    }
  }

  lemma {:induction false} NameUnitsBelow(es: seq<Entry>)
    requires Sized(es)
    ensures forall j | 0 <= j < |NameUnits(es)| :: NameUnits(es)[j] < 0x1_0000
  {
    if es != [] {
      NameUnitsBelow(es[..|es| - 1]);
      UnitsBelow(es[|es| - 1]);
    }
  }

  /** The name of a readable set has no zeros, and the set has room for it. */
  lemma NameInSet(h: Heap, es: seq<Entry>)
    requires h.clusterSize > 0 && Sized(es) && Readable(h, es)
    ensures |es| >= 2 + NameEntries(Get(es[1], 3, 1)) && |es| == 1 + Described(es).continuations
    ensures forall i | 0 <= i < |Described(es).name| :: 0 < Described(es).name[i] < 0x1_0000
    ensures 2 + NameEntries(|Described(es).name|) <= |es| && |Described(es).name| <= NAME_MAX
  {
    hide NameUnits, Cut;
    ReadableFields(h, es);
    var k := NameEntries(Get(es[1], 3, 1));
    NameUnitsLength(es[2..2 + k]);
    NameUnitsBelow(es[2..2 + k]);
    CutIs(NameUnits(es[2..2 + k]));
    FewerEntries(|Described(es).name|, k);
    OneByte(es[1][3..4]);
    NameRoom(Get(es[1], 3, 1));
  }

  lemma FewerEntries(length: nat, k: nat)
    requires length <= ENAME_MAX * k
    ensures NameEntries(length) <= k
  {
  }

  /** A node as its entries can record it: an empty file is never marked contiguous. */
  function Stored(i: Info): Info {
    i.(contiguous := i.size != 0 && i.contiguous)
  }

  /** Node fields that fit their places in the entries. */
  predicate Storable(i: Info) {
    && i.attrib < 0x1_0000 && i.start < 0x1_0000_0000
    && i.validSize < 0x1_0000_0000_0000_0000 && i.size < 0x1_0000_0000_0000_0000
  }

  method WriteHead(was: Entry, attrib: nat, t: Times, ghost continuations: nat, ghost before: nat) returns (e: Entry)
    requires attrib < 0x1_0000 && Head(was, continuations, before)
    ensures Head(e, continuations, attrib)
  {
    hide With, Get, Stamped;
    Powers();
    GetWith(was, 4, 2, attrib);
    GetOther(was, 4, 2, attrib, 0, 1);
    GetOther(was, 4, 2, attrib, 1, 1);
    e := With(was, 4, 2, attrib);
    StampedKeeps(e, t, continuations, attrib);
    e := Stamped(e, t);
  }

  method WriteSecond(was: Entry, flags: nat, validSize: nat, start: nat, size: nat, ghost length: nat)
      returns (e: Entry)
    requires flags < 0x100 && start < 0x1_0000_0000
    requires validSize < 0x1_0000_0000_0000_0000 && size < 0x1_0000_0000_0000_0000
    requires |was| == 32 && Get(was, 0, 1) == ENTRY_FILE_INFO && Get(was, 3, 1) == length
    ensures Second(e, flags, length, validSize, start, size)
  {
    hide With, Get;
    Powers();
    GetWith(was, 8, 8, validSize);
    GetOther(was, 8, 8, validSize, 0, 1);
    GetOther(was, 8, 8, validSize, 3, 1);
    e := With(was, 8, 8, validSize);
    GetWith(e, 24, 8, size);
    GetOther(e, 24, 8, size, 0, 1);
    GetOther(e, 24, 8, size, 3, 1);
    GetOther(e, 24, 8, size, 8, 8);
    e := With(e, 24, 8, size);
    GetWith(e, 20, 4, start);
    GetOther(e, 20, 4, start, 0, 1);
    GetOther(e, 20, 4, start, 3, 1);
    GetOther(e, 20, 4, start, 8, 8);
    GetOther(e, 20, 4, start, 24, 8);
    e := With(e, 20, 4, start);
    GetWith(e, 1, 1, flags);
    GetOther(e, 1, 1, flags, 0, 1);
    GetOther(e, 1, 1, flags, 3, 1);
    GetOther(e, 1, 1, flags, 8, 8);
    GetOther(e, 1, 1, flags, 20, 4);
    GetOther(e, 1, 1, flags, 24, 8);
    e := With(e, 1, 1, flags);
  }

  /** The set written when a node is flushed reads back as the node, its contiguity kept
      unless it is empty. */
  method FlushEntries(h: Heap, was: seq<Entry>, info: Info, t: Times) returns (es: seq<Entry>)
    requires h.clusterSize > 0 && Sized(was) && Readable(h, was)
    requires Described(was).name == info.name && Described(was).continuations == info.continuations
    requires Sound(h, Stored(info)) && Storable(info)
    ensures Sized(es) && |es| == |was|
    ensures Readable(h, es) && Described(es) == Stored(info)
  {
    hide Second, Head, Shaped, NameUnits, Cut, With, Get, Readable, Described;
    ReadableFields(h, was);
    ghost var before, length := Described(was), Get(was[1], 3, 1);
    Exposed(was[0], was[1], before.continuations, before.attrib,
            Get(was[1], 1, 1), length, before.validSize, before.start, before.size);
    var m1 := WriteHead(was[0], info.attrib, t, info.continuations, before.attrib);
    var flags := if info.size != 0 && info.contiguous then 3 else 1;
    var m2 := WriteSecond(was[1], flags, info.validSize, info.start, info.size, length);
    var ns := was[2..];
    Exposed(m1, m2, info.continuations, info.attrib, flags, length, info.validSize, info.start, info.size);
    ShapeKept(was, [m1, m2] + ns);
    assert ns[..NameEntries(length)] == was[2..2 + NameEntries(length)];
    SetReads(h, m1, m2, ns, Stored(info), flags, length);
    var sum := CalcChecksum([m1, m2] + ns);
    es := [With(m1, 2, 2, sum), m2] + ns;
  }
}
