/** Argon2 (RFC 9106): the shape of the memory, and which block a new block refers to. */
module ArgonIndex {
  import opened Arithmetic

  const SYNC_POINTS: nat := 4
  const TWO32: nat := 0x1_0000_0000
  const TWO64: nat := 0x1_0000_0000_0000_0000
  const MAX_LANES: nat := 0xFF_FFFF

  function U32(x: int): nat {
    x % TWO32
  }

  function U64(x: int): nat {
    x % TWO64
  }

  /** `lanes` rows of `SYNC_POINTS` segments each. */
  datatype Shape = Shape(lanes: nat, segment: nat) {
    function LaneLength(): nat {
      SYNC_POINTS * segment
    }

    /** First column of a slice. */
    function SliceStart(slice: nat): nat {
      slice * segment
    }

    /** At least two blocks per segment, and fewer than 2^32 blocks in all. */
    predicate Valid() {
      && 1 <= lanes <= MAX_LANES && 2 <= segment
      && lanes * LaneLength() < TWO32
    }
  }

  /** The memory shape as `argon2_ctx` computes it in 32 bits. */
  function MemoryShape(mCost: nat, lanes: nat): Shape
    requires 1 <= lanes <= MAX_LANES
  {
    var least := U32(2 * SYNC_POINTS * lanes);
    var blocks := if mCost < least then least else mCost;
    Shape(lanes, blocks / U32(lanes * SYNC_POINTS))
  }

  /** For every accepted cost the shape is valid and is the largest one that fits. */
  lemma MemoryShapeFits(mCost: nat, lanes: nat)
    requires 1 <= lanes <= MAX_LANES && 8 * lanes <= mCost < TWO32
    ensures var s := MemoryShape(mCost, lanes);
            && s.Valid() && s.lanes == lanes
            && lanes * s.LaneLength() <= mCost < lanes * s.LaneLength() + SYNC_POINTS * lanes
  {
    var q := lanes * SYNC_POINTS;
    assert U32(8 * lanes) == 8 * lanes && U32(q) == q;
    var segment := mCost / q;
    assert mCost == segment * q + mCost % q;
    assert lanes * (SYNC_POINTS * segment) == segment * q;
    assert 2 * q <= mCost;
  }

  /** The reference area and block, with the widths and wrap-around of the code. */
  function AreaSize(s: Shape, pass: nat, slice: nat, index: nat, sameLane: bool): nat {
    if pass == 0 then
      if slice == 0 then U32(index - 1)
      else if sameLane then U32(s.SliceStart(slice) + index - 1)
      else U32(s.SliceStart(slice) + if index == 0 then -1 else 0)
    else
      if sameLane then U32(s.LaneLength() - s.segment + index - 1)
      else U32(s.LaneLength() - s.segment + if index == 0 then -1 else 0)
  }

  function RelativePosition(area: nat, pseudoRand: nat): nat {
    var x := U64(pseudoRand * pseudoRand) / TWO32;
    U64(U32(area - 1) - U64(area * x) / TWO32)
  }

  function StartPosition(s: Shape, pass: nat, slice: nat): nat {
    if pass == 0 || slice == SYNC_POINTS - 1 then 0 else U32(s.SliceStart(slice + 1))
  }

  function IndexAlpha(s: Shape, pass: nat, slice: nat, index: nat, pseudoRand: nat, sameLane: bool): nat
    requires 0 < s.segment
  {
    var relative := RelativePosition(AreaSize(s, pass, slice, index, sameLane), pseudoRand);
    var start := StartPosition(s, pass, slice);
    U64(start + relative) % s.LaneLength()
  }

  /** A block position at which `fill_segment` asks for a reference. */
  predicate Filling(s: Shape, pass: nat, slice: nat, index: nat) {
    slice < SYNC_POINTS && index < s.segment && (pass == 0 && slice == 0 ==> 2 <= index)
  }

  /** The blocks a lane has filled before a pass starts. */
  function PassTime(s: Shape, pass: nat): nat {
    if pass == 0 then 0 else PassTime(s, pass - 1) + s.LaneLength()
  }

  /** Time at which a lane starts filling a segment, counted in blocks since the start. */
  function SegmentTime(s: Shape, pass: nat, slice: nat): nat {
    PassTime(s, pass) + s.SliceStart(slice)
  }

  /** The window of section 3.4.2 of RFC 9106, as the times at which its blocks were
      written. It begins with the last three finished segments (of those there are), and
      in the same lane goes on up to the block before the previous one; in another lane it
      ends with the last finished segment, less its last block for the first block of a
      segment. */
  function WindowStart(s: Shape, pass: nat, slice: nat): nat {
    var t := SegmentTime(s, pass, slice);
    if t < 3 * s.segment then 0 else t - 3 * s.segment
  }

  function WindowEnd(s: Shape, pass: nat, slice: nat, index: nat, sameLane: bool): int {
    var t := SegmentTime(s, pass, slice);
    if sameLane then t + index - 1 else if index == 0 then t - 1 else t
  }

  lemma LaneBound(s: Shape)
    requires s.Valid()
    ensures 8 <= s.LaneLength() < TWO32
  {
    MulMonotone(1, s.lanes, s.LaneLength());
  }

  /** How far the window reaches past the finished segments. */
  function Reach(index: nat, sameLane: bool): int {
    if sameLane then index - 1 else if index == 0 then -1 else 0
  }

  lemma AreaValue(s: Shape, pass: nat, slice: nat, index: nat, sameLane: bool)
    requires s.Valid() && Filling(s, pass, slice, index)
    requires pass == 0 && slice == 0 ==> sameLane
    ensures AreaSize(s, pass, slice, index, sameLane)
         == (if pass == 0 then s.SliceStart(slice) else 3 * s.segment) + Reach(index, sameLane)
  {
    LaneBound(s);
    SliceStarts(s, slice);
    hide Shape.Valid;
    hide Shape.SliceStart;
    hide U32;
    SmallIsSame(s.SliceStart(slice) + Reach(index, sameLane));
    SmallIsSame(3 * s.segment + Reach(index, sameLane));
  }

  /** The code's area is the window's size: never empty, and computed without wrap-around. */
  lemma AreaIsWindow(s: Shape, pass: nat, slice: nat, index: nat, sameLane: bool)
    requires s.Valid() && Filling(s, pass, slice, index)
    requires pass == 0 && slice == 0 ==> sameLane
    ensures AreaSize(s, pass, slice, index, sameLane)
         == WindowEnd(s, pass, slice, index, sameLane) - WindowStart(s, pass, slice)
    ensures 1 <= AreaSize(s, pass, slice, index, sameLane) < s.LaneLength()
  {
    SliceStarts(s, slice);
    AreaValue(s, pass, slice, index, sameLane);
    hide Shape.SliceStart;
    hide AreaSize;
  }

  lemma SmallIsSame(x: int)
    ensures 0 <= x < TWO32 ==> U32(x) == x
  {
  }

  lemma SliceStarts(s: Shape, slice: nat)
    requires slice < SYNC_POINTS
    ensures s.SliceStart(slice) == if slice == 0 then 0 else if slice == 1 then s.segment
                                   else if slice == 2 then 2 * s.segment else 3 * s.segment
    ensures s.SliceStart(slice + 1) == s.SliceStart(slice) + s.segment
  {
  }

  /** No intermediate product overflows 64 bits, and the result stays below the area. */
  lemma RelativePositionInArea(area: nat, pseudoRand: nat)
    requires 1 <= area < TWO32 && pseudoRand < TWO32
    ensures pseudoRand * pseudoRand < TWO64 && area * (pseudoRand * pseudoRand / TWO32) < TWO64
    ensures RelativePosition(area, pseudoRand) == area - 1 - area * (pseudoRand * pseudoRand / TWO32) / TWO32
    ensures RelativePosition(area, pseudoRand) < area
  {
    var square := pseudoRand * pseudoRand;
    ProductBelow(pseudoRand, pseudoRand);
    SmallIsSame(area - 1);
    var x := square / TWO32;
    ProductBelow(area, x);
    MulMonotone(x, TWO32 - 1, area);
    Scaled(area, area * x, square);
  }

  lemma Scaled(area: nat, product: nat, square: nat)
    requires 1 <= area < TWO32 && square < TWO64 && product <= area * (TWO32 - 1)
    ensures square / TWO32 < TWO32 && U64(square) == square && U64(product) == product
    ensures product / TWO32 < area
    ensures U64(area - 1 - product / TWO32) == area - 1 - product / TWO32
  {
  }

  lemma ProductBelow(a: nat, b: nat)
    requires a < TWO32 && b < TWO32
    ensures a * b < TWO64
  {
    MulMonotone(b, TWO32 - 1, a);
  }

  /** The reference block is the one written inside the window at the mapped position. */
  lemma IndexAlphaInWindow(s: Shape, pass: nat, slice: nat, index: nat, pseudoRand: nat, sameLane: bool)
      returns (t: nat)
    requires s.Valid() && Filling(s, pass, slice, index) && pseudoRand < TWO32
    requires pass == 0 && slice == 0 ==> sameLane
    ensures WindowStart(s, pass, slice) <= t < WindowEnd(s, pass, slice, index, sameLane)
    ensures var window := WindowEnd(s, pass, slice, index, sameLane) - WindowStart(s, pass, slice);
            t == WindowStart(s, pass, slice) + window - 1 - window * (pseudoRand * pseudoRand / TWO32) / TWO32
    ensures IndexAlpha(s, pass, slice, index, pseudoRand, sameLane) == t % s.LaneLength()
  {
    AreaIsWindow(s, pass, slice, index, sameLane);
    var area := AreaSize(s, pass, slice, index, sameLane);
    LaneBound(s);
    RelativePositionInArea(area, pseudoRand);
    var relative := RelativePosition(area, pseudoRand);
    WindowColumn(s, pass, slice, relative);
    t := WindowStart(s, pass, slice) + relative;
    Unwrapped(StartPosition(s, pass, slice) + relative);
  }

  /** The code's start position is the column of the first block of the window. */
  lemma WindowColumn(s: Shape, pass: nat, slice: nat, x: nat)
    requires s.Valid() && slice < SYNC_POINTS
    ensures StartPosition(s, pass, slice) < TWO32
    ensures (WindowStart(s, pass, slice) + x) % s.LaneLength() == (StartPosition(s, pass, slice) + x) % s.LaneLength()
  {
    LaneBound(s);
    SliceStarts(s, slice);
    hide Shape.Valid;
    hide Shape.SliceStart;
    SmallIsSame(s.SliceStart(slice + 1));
    if pass == 0 {
      assert WindowStart(s, pass, slice) == 0;
    } else if slice == SYNC_POINTS - 1 {
      assert WindowStart(s, pass, slice) == PassTime(s, pass);
      PassesVanish(s, pass, x);
    } else {
      assert WindowStart(s, pass, slice) == PassTime(s, pass - 1) + s.SliceStart(slice + 1);
      PassesVanish(s, pass - 1, s.SliceStart(slice + 1) + x);
    }
  }

  lemma Unwrapped(x: nat)
    requires x < TWO64
    ensures U64(x) == x
  {
  }

  /** Whole passes do not change the column. */
  lemma {:induction false} PassesVanish(s: Shape, pass: nat, x: nat)
    requires 0 < s.segment
    ensures (PassTime(s, pass) + x) % s.LaneLength() == x % s.LaneLength()
  {
    if pass > 0 {
      PassesVanish(s, pass - 1, x);
      AddModulus(PassTime(s, pass - 1) + x, s.LaneLength());
    }
  }

  /** The column written at time `t`, for times from three segments back to the end of the
      current segment. */
  lemma ColumnAt(s: Shape, pass: nat, slice: nat, t: nat)
    requires 0 < s.segment && slice < SYNC_POINTS
    requires WindowStart(s, pass, slice) <= t < SegmentTime(s, pass, slice) + s.segment
    ensures var x := s.SliceStart(slice) + (t - SegmentTime(s, pass, slice));
            t % s.LaneLength() == if 0 <= x then x else x + s.LaneLength()
  {
    SliceStarts(s, slice);
    hide Shape.SliceStart;
    var x := s.SliceStart(slice) + (t - SegmentTime(s, pass, slice));
    if 0 <= x {
      assert t == PassTime(s, pass) + x && x < s.LaneLength();
      PassesVanish(s, pass, x);
      SmallModulus(x, s.LaneLength());
    } else {
      assert 0 < pass && t == PassTime(s, pass - 1) + (x + s.LaneLength()) && 0 <= x + s.LaneLength();
      PassesVanish(s, pass - 1, x + s.LaneLength());
      SmallModulus(x + s.LaneLength(), s.LaneLength());
    }
  }

  /** The column just before `column`, wrapping around the lane. */
  function Before(s: Shape, column: nat): nat
    requires 0 < s.segment
  {
    if column == 0 then s.LaneLength() - 1 else column - 1
  }

  /** The reference of the block at `index` of a segment: in the same lane neither the block
      itself nor the previous one; in another lane no block of the slice being filled. */
  lemma ReferenceAvoids(s: Shape, pass: nat, slice: nat, index: nat, pseudoRand: nat, sameLane: bool)
    requires s.Valid() && Filling(s, pass, slice, index) && pseudoRand < TWO32
    requires pass == 0 && slice == 0 ==> sameLane
    ensures var r := IndexAlpha(s, pass, slice, index, pseudoRand, sameLane);
            var column := s.SliceStart(slice) + index;
            && r < s.LaneLength()
            && (sameLane ==> r != column && r != Before(s, column))
            && (!sameLane ==> !(s.SliceStart(slice) <= r < s.SliceStart(slice) + s.segment))
  {
    var t := IndexAlphaInWindow(s, pass, slice, index, pseudoRand, sameLane);
    SliceStarts(s, slice);
    ColumnAt(s, pass, slice, t);
    hide Shape.SliceStart;
    hide IndexAlpha;
  }
}
