/** Where the entry sets of a directory's children lie among its slots, and how erasing,
    writing and resizing keep the sets readable and apart. */
module DirLayout {
  import opened Basics
  import opened DirEntries

  /** An entry set of one child: its first slot and what it describes. */
  datatype Item = Item(slot: nat, info: Info) {
    function Length(): nat {
      1 + info.continuations
    }

    function End(): nat {
      slot + Length()
    }

    predicate Covers(p: int) {
      slot <= p < End()
    }

    /** The set has no tail entries: its length follows from the name. */
    predicate Normal() {
      1 <= |info.name| && info.continuations == 1 + NameEntries(|info.name|)
    }
  }

  predicate Apart(a: Item, b: Item) {
    a.End() <= b.slot || b.End() <= a.slot
  }

  predicate Live(e: Entry) {
    |e| > 0 && e[0] >= ENTRY_VALID as byte
  }

  ghost predicate Placed(h: Heap, slots: seq<Entry>, item: Item)
    requires Sized(slots) && h.clusterSize > 0
  {
    && item.End() <= |slots|
    && Sized(slots[item.slot..item.End()])
    && Readable(h, slots[item.slot..item.End()])
    && Described(slots[item.slot..item.End()]) == item.info
  }

  ghost predicate Covered(items: seq<Item>, p: int) {
    exists i | 0 <= i < |items| :: items[i].Covers(p)
  }

  /** Every child reads back from its own slots, and no two share one. */
  ghost predicate Layout(h: Heap, slots: seq<Entry>, items: seq<Item>) {
    && h.clusterSize > 0 && Sized(slots)
    && (forall i | 0 <= i < |items| :: Placed(h, slots, items[i]))
    && (forall i, j | 0 <= i < j < |items| :: Apart(items[i], items[j]))
  }

  /** Every slot in use belongs to a child. */
  ghost predicate Tidy(slots: seq<Entry>, items: seq<Item>) {
    forall p | 0 <= p < |slots| && Live(slots[p]) :: Covered(items, p)
  }

  // ----- Erasing a child's set -----

  function Erased(e: Entry): Entry {
    if e == [] then e else e[0 := e[0] % ENTRY_VALID as byte]
  }

  function EraseAt(slots: seq<Entry>, a: nat, n: nat): (r: seq<Entry>)
    requires a + n <= |slots|
    ensures |r| == |slots|
    ensures forall p | 0 <= p < |slots| :: r[p] == if a <= p < a + n then Erased(slots[p]) else slots[p]
  {
    seq(|slots|, p requires 0 <= p < |slots| => if a <= p < a + n then Erased(slots[p]) else slots[p])
  }

  function Without<T>(s: seq<T>, i: nat): (r: seq<T>)
    requires i < |s|
    ensures |r| == |s| - 1
    ensures forall k | 0 <= k < |r| :: r[k] == if k < i then s[k] else s[k + 1]
  {
    s[..i] + s[i + 1..]
  }

  lemma CoveredWithout(items: seq<Item>, i: nat, p: int)
    requires i < |items|
    ensures Covered(items, p) <==> Covered(Without(items, i), p) || items[i].Covers(p)
  {
    var r := Without(items, i);
    if Covered(items, p) {
      var k :| 0 <= k < |items| && items[k].Covers(p);
      if k < i {
        assert r[k].Covers(p);
      } else if k > i {
        assert r[k - 1].Covers(p);
      }
    }
    if Covered(r, p) {
      var k :| 0 <= k < |r| && r[k].Covers(p);
      assert items[if k < i then k else k + 1].Covers(p);
    }
  }

  /** A set stays readable while its own slots keep their bytes. */
  lemma PlacedStays(h: Heap, slots: seq<Entry>, other: seq<Entry>, item: Item)
    requires Sized(slots) && Sized(other) && h.clusterSize > 0 && Placed(h, slots, item)
    requires item.End() <= |other|
    requires forall p | item.Covers(p) :: other[p] == slots[p]
    ensures Placed(h, other, item)
  {
    hide Readable, Described;
    assert other[item.slot..item.End()] == slots[item.slot..item.End()];
  }

  lemma EraseKeeps(h: Heap, slots: seq<Entry>, items: seq<Item>, i: nat)
    requires Layout(h, slots, items) && i < |items|
    ensures items[i].End() <= |slots|
    ensures Layout(h, EraseAt(slots, items[i].slot, items[i].Length()), Without(items, i))
  {
    hide Readable, Described, EraseAt, Placed;
    var item, rest := items[i], Without(items, i);
    PlacedFits(h, slots, item);
    var s := EraseAt(slots, item.slot, item.Length());
    assert Sized(s);
    forall k | 0 <= k < |rest|
      ensures Placed(h, s, rest[k])
    {
      var was := if k < i then k else k + 1;
      assert rest[k] == items[was];
      assert Apart(items[was], item) by {
        assert was < i ==> Apart(items[was], items[i]);
        assert i < was ==> Apart(items[i], items[was]);
      }
      PlacedFits(h, slots, rest[k]);
      PlacedStays(h, slots, s, rest[k]);
    }
    forall j, k | 0 <= j < k < |rest|
      ensures Apart(rest[j], rest[k])
    {
      assert Apart(items[if j < i then j else j + 1], items[if k < i then k else k + 1]);
    }
  }

  lemma PlacedFits(h: Heap, slots: seq<Entry>, item: Item)
    requires Sized(slots) && h.clusterSize > 0 && Placed(h, slots, item)
    ensures item.End() <= |slots|
  {
  }

  lemma EraseTidies(slots: seq<Entry>, items: seq<Item>, i: nat)
    requires Tidy(slots, items) && i < |items| && items[i].End() <= |slots|
    ensures Tidy(EraseAt(slots, items[i].slot, items[i].Length()), Without(items, i))
  {
    var s := EraseAt(slots, items[i].slot, items[i].Length());
    forall p | 0 <= p < |s| && Live(s[p])
      ensures Covered(Without(items, i), p)
    {
      CoveredWithout(items, i, p);
    }
  }

  // ----- Writing a new set -----

  /** A set written over slots no child uses becomes the first child's. */
  lemma WriteKeeps(h: Heap, slots: seq<Entry>, items: seq<Item>, item: Item, es: seq<Entry>)
    requires Layout(h, slots, items) && item.End() <= |slots|
    requires forall p | item.Covers(p) :: !Covered(items, p)
    requires Sized(es) && |es| == item.Length() && Readable(h, es) && Described(es) == item.info
    ensures Layout(h, Patched(slots, item.slot, es), [item] + items)
  {
    hide Readable, Described, Patched, Placed;
    var s, all := Patched(slots, item.slot, es), [item] + items;
    PatchedSized(slots, item.slot, es);
    NewPlaced(h, slots, item, es);
    forall k | 0 <= k < |items|
      ensures Placed(h, s, items[k]) && Apart(item, items[k])
    {
      PlacedFits(h, slots, items[k]);
      Uncovered(items, item, k);
      PatchedElsewhere(slots, item.slot, es);
      PlacedStays(h, slots, s, items[k]);
    }
    forall j, k | 0 <= j < k < |all|
      ensures Apart(all[j], all[k])
    {
      assert j > 0 ==> Apart(items[j - 1], items[k - 1]);
    }
  }

  lemma PatchedElsewhere(s: seq<Entry>, base: nat, t: seq<Entry>)
    requires base + |t| <= |s|
    ensures forall p | 0 <= p < |s| && !(base <= p < base + |t|) :: Patched(s, base, t)[p] == s[p]
    ensures Patched(s, base, t)[base..base + |t|] == t
  {
  }

  lemma PatchedSized(s: seq<Entry>, base: nat, t: seq<Entry>)
    requires base + |t| <= |s| && Sized(s) && Sized(t)
    ensures Sized(Patched(s, base, t))
  {
  }

  lemma NewPlaced(h: Heap, slots: seq<Entry>, item: Item, es: seq<Entry>)
    requires h.clusterSize > 0 && Sized(slots) && item.End() <= |slots|
    requires Sized(es) && |es| == item.Length() && Readable(h, es) && Described(es) == item.info
    ensures Sized(Patched(slots, item.slot, es)) && Placed(h, Patched(slots, item.slot, es), item)
  {
    hide Readable, Described, Patched;
    PatchedSized(slots, item.slot, es);
    PatchedElsewhere(slots, item.slot, es);
  }

  lemma Uncovered(items: seq<Item>, item: Item, k: nat)
    requires k < |items| && forall p | item.Covers(p) :: !Covered(items, p)
    ensures Apart(item, items[k])
  {
    if !Apart(item, items[k]) {
      var p := if item.slot < items[k].slot then items[k].slot else item.slot;
      assert item.Covers(p) && items[k].Covers(p);
    }
  }

  lemma WriteTidies(slots: seq<Entry>, items: seq<Item>, item: Item, es: seq<Entry>)
    requires Tidy(slots, items) && item.End() <= |slots| && |es| == item.Length()
    ensures Tidy(Patched(slots, item.slot, es), [item] + items)
  {
    hide Patched, Live;
    PatchedElsewhere(slots, item.slot, es);
    var s := Patched(slots, item.slot, es);
    forall p | 0 <= p < |s| && Live(s[p])
      ensures Covered([item] + items, p)
    {
      if item.Covers(p) {
        assert ([item] + items)[0].Covers(p);
      } else {
        assert Covered(items, p);
        var k :| 0 <= k < |items| && items[k].Covers(p);
        assert ([item] + items)[k + 1].Covers(p);
      }
    }
  }

  // ----- Resizing the directory -----

  function Resized(slots: seq<Entry>, n: nat): (r: seq<Entry>)
    ensures |r| == n
  {
    if n <= |slots| then slots[..n] else slots + seq(n - |slots|, _ => BLANK)
  }

  lemma ResizeKeeps(h: Heap, slots: seq<Entry>, items: seq<Item>, n: nat)
    requires Layout(h, slots, items) && forall i | 0 <= i < |items| :: items[i].End() <= n
    ensures Layout(h, Resized(slots, n), items)
  {
    hide Readable, Described, Placed;
    var s := Resized(slots, n);
    forall i | 0 <= i < |items|
      ensures Placed(h, s, items[i])
    {
      PlacedFits(h, slots, items[i]);
      PlacedStays(h, slots, s, items[i]);
    }
  }

  lemma ResizeTidies(slots: seq<Entry>, items: seq<Item>, n: nat)
    requires Tidy(slots, items)
    ensures Tidy(Resized(slots, n), items)
  {
    var s := Resized(slots, n);
    forall p | 0 <= p < |s| && Live(s[p])
      ensures Covered(items, p)
    {
      assert p < |slots| && s[p] == slots[p];
    }
  }

  // ----- Rewriting a set in place -----

  lemma RewriteKeeps(h: Heap, slots: seq<Entry>, items: seq<Item>, i: nat, es: seq<Entry>, item: Item)
    requires Layout(h, slots, items) && i < |items| && item.slot == items[i].slot && item.Length() == items[i].Length()
    requires Sized(es) && |es| == item.Length() && Readable(h, es) && Described(es) == item.info
    ensures items[i].End() <= |slots|
    ensures Layout(h, Patched(slots, item.slot, es), items[i := item])
  {
    hide Readable, Described, Patched, Placed;
    PlacedFits(h, slots, items[i]);
    var s, all := Patched(slots, item.slot, es), items[i := item];
    PatchedSized(slots, item.slot, es);
    NewPlaced(h, slots, item, es);
    forall k | 0 <= k < |items|
      ensures Placed(h, s, all[k])
    {
      if k != i {
        assert Apart(items[if k < i then k else i], items[if k < i then i else k]);
        PlacedFits(h, slots, items[k]);
        PatchedElsewhere(slots, item.slot, es);
        PlacedStays(h, slots, s, items[k]);
      }
    }
    forall j, k | 0 <= j < k < |all|
      ensures Apart(all[j], all[k])
    {
      assert Apart(items[j], items[k]);
    }
  }

  lemma RewriteTidies(slots: seq<Entry>, items: seq<Item>, i: nat, es: seq<Entry>, item: Item)
    requires Tidy(slots, items) && i < |items| && items[i].End() <= |slots| && |es| == items[i].Length()
    requires item.slot == items[i].slot && item.Length() == items[i].Length()
    ensures Tidy(Patched(slots, items[i].slot, es), items[i := item])
  {
    hide Patched, Live;
    PatchedElsewhere(slots, items[i].slot, es);
    var s, all := Patched(slots, items[i].slot, es), items[i := item];
    forall p | 0 <= p < |s| && Live(s[p])
      ensures Covered(all, p)
    {
      if items[i].Covers(p) {
        assert all[i].Covers(p);
      } else {
        assert Covered(items, p);
        var k :| 0 <= k < |items| && items[k].Covers(p);
        assert all[k].Covers(p);
      }
    }
  }
}
