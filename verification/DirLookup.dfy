/** Looking a name up among the children of a directory, up to upper case. */
module DirLookup {
  import opened DirNodes

  /** The upper case table: a unit for every unit. */
  type Upcase = nat -> nat

  /** Unit `i` of a name that ends in a zero. */
  function UnitAt(a: seq<nat>, i: nat): nat {
    if i < |a| then a[i] else 0
  }

  /** Names that compare equal: unit by unit up to the end of the shorter one, inclusive. */
  ghost predicate SameName(up: Upcase, a: seq<nat>, b: seq<nat>) {
    forall i: nat | i <= |a| && i <= |b| :: up(UnitAt(a, i)) == up(UnitAt(b, i))
  }

  method CompareName(up: Upcase, a: seq<nat>, b: seq<nat>) returns (r: int)
    ensures r == 0 <==> SameName(up, a, b)
  {
    var i := 0;
    while i < |a| && i < |b|
      invariant i <= |a| && i <= |b|
      invariant forall k: nat | k < i :: up(UnitAt(a, k)) == up(UnitAt(b, k))
    {
      var rc := up(a[i]) - up(b[i]);
      if rc != 0 {
        assert up(UnitAt(a, i)) != up(UnitAt(b, i));
        return rc;
      }
      i := i + 1;
    }
    return up(UnitAt(a, i)) - up(UnitAt(b, i));
  }

  /** Units of sixteen bits, none of them zero. */
  ghost predicate IsName(a: seq<nat>) {
    forall i | 0 <= i < |a| :: 0 < a[i] < 0x1_0000
  }

  /** No unit but zero has the upper case of zero. */
  ghost predicate ZeroAlone(up: Upcase) {
    forall c: nat | 0 < c < 0x1_0000 :: up(c) != up(0)
  }

  lemma SameLength(up: Upcase, a: seq<nat>, b: seq<nat>)
    requires ZeroAlone(up) && IsName(a) && IsName(b) && SameName(up, a, b)
    ensures |a| == |b|
  {
    var k := if |a| < |b| then |a| else |b|;
    assert up(UnitAt(a, k)) == up(UnitAt(b, k));
  }

  /** Names that compare equal have the same length, exactly when zero is alone. */
  lemma LengthsAgreeIff(up: Upcase)
    ensures (forall a, b | IsName(a) && IsName(b) && SameName(up, a, b) :: |a| == |b|) <==> ZeroAlone(up)
  {
    if ZeroAlone(up) {
      forall a, b | IsName(a) && IsName(b) && SameName(up, a, b)
        ensures |a| == |b|
      {
        SameLength(up, a, b);
      }
    } else {
      var c: nat :| 0 < c < 0x1_0000 && up(c) == up(0);
      var a, b: seq<nat> := [c], [];
      assert IsName(a) && IsName(b) && SameName(up, a, b);
    }
  }

  lemma Symmetric(up: Upcase, a: seq<nat>, b: seq<nat>)
    requires SameName(up, a, b)
    ensures SameName(up, b, a)
  {
    forall i: nat | i <= |b| && i <= |a|
      ensures up(UnitAt(b, i)) == up(UnitAt(a, i))
    {
      assert up(UnitAt(a, i)) == up(UnitAt(b, i));
    }
  }

  /** With zero alone, comparing equal is transitive. */
  lemma Transitive(up: Upcase, a: seq<nat>, b: seq<nat>, c: seq<nat>)
    requires ZeroAlone(up) && IsName(a) && IsName(b) && IsName(c)
    requires SameName(up, a, b) && SameName(up, b, c)
    ensures SameName(up, a, c)
  {
    SameLength(up, a, b);
    SameLength(up, b, c);
    forall i: nat | i <= |a| && i <= |c|
      ensures up(UnitAt(a, i)) == up(UnitAt(c, i))
    {
      assert up(UnitAt(a, i)) == up(UnitAt(b, i)) && up(UnitAt(b, i)) == up(UnitAt(c, i));
    }
  }

  /** The first child in list order whose name compares equal; `k` is its number, or the number
      of children when there is none. */
  method LookupName(up: Upcase, dir: Node, name: seq<nat>) returns (node: Node?, ghost k: nat)
    requires Linked(dir)
    ensures k <= |dir.kids| && node == At(dir.kids, k)
    ensures forall j | 0 <= j < k :: !SameName(up, name, dir.kids[j].info.name)
    ensures k < |dir.kids| ==> SameName(up, name, dir.kids[k].info.name)
  {
    hide SameName;
    node, k := dir.child, 0;
    while node != null
      invariant k <= |dir.kids| && node == At(dir.kids, k)
      invariant forall j | 0 <= j < k :: !SameName(up, name, dir.kids[j].info.name)
      decreases |dir.kids| - k
    {
      var r := CompareName(up, name, node.info.name);
      if r == 0 {
        return;
      }
      assert LinkedAt(dir, dir.kids, k);
      node, k := node.next, k + 1;
    }
  }
}
