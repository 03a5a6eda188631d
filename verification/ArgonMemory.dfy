/** The Argon2 fill on the flat block array, as `fill_segment` and the single-threaded
    `fill_memory_blocks` run it. */
module ArgonMemory {
  import opened Arithmetic
  import opened ArgonIndex
  import opened ArgonFill

  /** Index of a block in the flat array. */
  function Offset(s: Shape, lane: nat, column: nat): nat {
    lane * s.LaneLength() + column
  }

  lemma OffsetInRange(s: Shape, lane: nat, column: nat)
    requires lane < s.lanes && column < s.LaneLength()
    ensures Offset(s, lane, column) < s.lanes * s.LaneLength()
  {
    MulMonotone(lane + 1, s.lanes, s.LaneLength());
  }

  lemma OffsetUnique(s: Shape, lane: nat, column: nat, lane': nat, column': nat)
    requires column < s.LaneLength() && column' < s.LaneLength()
    ensures Offset(s, lane, column) == Offset(s, lane', column') ==> lane == lane' && column == column'
  {
    if Offset(s, lane, column) == Offset(s, lane', column') {
      QuotientUnique(s.LaneLength(), lane, lane', column, column');
    }
  }

  /** The flat memory by lane and column. */
  ghost function GridOf(s: Shape, flat: seq<Block>): (m: Grid)
    requires |flat| == s.lanes * s.LaneLength()
    ensures IsGrid(s, m)
  {
    seq(s.lanes, l requires 0 <= l < s.lanes => Row(s, flat, l))
  }

  ghost function Row(s: Shape, flat: seq<Block>, l: nat): (r: seq<Block>)
    requires |flat| == s.lanes * s.LaneLength() && l < s.lanes
    ensures |r| == s.LaneLength()
  {
    seq(s.LaneLength(), c requires 0 <= c < s.LaneLength() => OffsetInRange(s, l, c); flat[Offset(s, l, c)])
  }

  lemma RowAfterWrite(s: Shape, flat: seq<Block>, lane: nat, column: nat, b: Block, l: nat)
    requires |flat| == s.lanes * s.LaneLength() && lane < s.lanes && column < s.LaneLength() && l < s.lanes
    ensures Offset(s, lane, column) < |flat|
    ensures Row(s, flat[Offset(s, lane, column) := b], l)
         == if l == lane then Row(s, flat, l)[column := b] else Row(s, flat, l)
  {
    hide Offset;
    OffsetInRange(s, lane, column);
    forall c: nat | c < s.LaneLength()
      ensures Offset(s, l, c) < |flat| && (Offset(s, l, c) == Offset(s, lane, column) <==> l == lane && c == column)
    {
      OffsetInRange(s, l, c);
      OffsetUnique(s, lane, column, l, c);
    }
  }

  /** Writing one block of the flat memory writes one block of the grid. */
  lemma WriteBlock(s: Shape, flat: seq<Block>, lane: nat, column: nat, b: Block)
    requires |flat| == s.lanes * s.LaneLength() && lane < s.lanes && column < s.LaneLength()
    ensures Offset(s, lane, column) < |flat|
    ensures var row: seq<Block> := GridOf(s, flat)[lane];
            var row': seq<Block> := row[column := b];
            GridOf(s, flat[Offset(s, lane, column) := b]) == GridOf(s, flat)[lane := row']
  {
    hide Offset;
    hide Row;
    OffsetInRange(s, lane, column);
    forall l: nat | l < s.lanes
      ensures Row(s, flat[Offset(s, lane, column) := b], l)
           == if l == lane then Row(s, flat, l)[column := b] else Row(s, flat, l)
    {
      RowAfterWrite(s, flat, lane, column, b, l);
    }
  }

  /** The cyclic predecessor of an offset, as the loop keeps it: right except when the
      column is 1, where the loop sets it again. */
  ghost predicate PrevTracks(s: Shape, lane: nat, column: nat, prev: nat)
    requires 0 < s.segment
  {
    column == 1 || prev == Offset(s, lane, Before(s, column))
  }

  lemma ColumnOfOffset(s: Shape, lane: nat, column: nat)
    requires column < s.LaneLength()
    ensures Offset(s, lane, column) % s.LaneLength() == column <= Offset(s, lane, column)
  {
    var n := s.LaneLength();
    var x := Offset(s, lane, column);
    assert x == x / n * n + x % n;
    QuotientUnique(n, lane, x / n, column, x % n);
    MulMonotone(0, lane, n);
  }

  lemma GridAt(s: Shape, flat: seq<Block>, lane: nat, column: nat)
    requires |flat| == s.lanes * s.LaneLength() && lane < s.lanes && column < s.LaneLength()
    ensures Offset(s, lane, column) < |flat| && GridOf(s, flat)[lane][column] == flat[Offset(s, lane, column)]
  {
    OffsetInRange(s, lane, column);
  }

  /** Fills one block: the memory goes through one step of the lane. */
  method FillOne(inst: Instance, memory: array<Block>, pass: Word, slice: nat, lane: nat, i: nat,
                 curr: nat, prev: nat, rand: Word)
    requires Position(inst, slice, lane) && memory.Length == inst.shape.lanes * inst.shape.LaneLength()
    requires Filling(inst.shape, pass, slice, i)
    requires curr == Offset(inst.shape, lane, inst.shape.SliceStart(slice) + i)
    requires prev == Offset(inst.shape, lane, Before(inst.shape, inst.shape.SliceStart(slice) + i))
    requires rand == PseudoRand(inst, GridOf(inst.shape, memory[..]), pass, slice, lane, i)
    modifies memory
    ensures GridOf(inst.shape, memory[..])
         == Step(inst, old(GridOf(inst.shape, memory[..])), pass, slice, lane, i)
  {
    hide PseudoRand;
    hide IndexAlpha;
    hide GridOf;
    var s := inst.shape;
    var refLane := rand / TWO32 % s.lanes;
    if pass == 0 && slice == 0 {
      refLane := lane;
    }
    var refIndex := IndexAlpha(s, pass, slice, i, rand % TWO32, refLane == lane);
    ReferenceAvoids(s, pass, slice, i, rand % TWO32, refLane == lane);
    var ref := s.LaneLength() * refLane + refIndex;
    SliceStarts(s, slice);
    ghost var column := s.SliceStart(slice) + i;
    GridAt(s, memory[..], lane, column);
    GridAt(s, memory[..], lane, Before(s, column));
    GridAt(s, memory[..], refLane, refIndex);
    assert ref == Offset(s, refLane, refIndex);
    hide Offset;
    hide Shape.SliceStart;
    var b := FillBlock(inst, memory[prev], memory[ref], memory[curr], inst.version != VERSION_10 && pass != 0);
    assert b == NewBlock(inst, GridOf(s, memory[..]), pass, slice, lane, i);
    WriteBlock(s, memory[..], lane, column, b);
    ghost var flat := memory[..];
    memory[curr] := b;
    assert memory[..] == flat[curr := b];
  }

  /** After the block at `i - 1`, this many blocks of addresses have been made. */
  function Addresses(i: nat): nat {
    if i == 0 then 0 else (i - 1) / QWORDS + 1
  }

  /** The address block in use after the block at `i - 1`. */
  ghost predicate Ready(inst: Instance, pass: Word, lane: Word, slice: Word, i: nat, counter: Word, address: Block)
    requires inst.Valid()
  {
    counter == Addresses(i) && (0 < counter ==> address == AddressBlock(inst, pass, lane, slice, counter))
  }

  /** The address for block `i`, making a new block of addresses when the last one is used up. */
  method NextAddress(inst: Instance, pass: Word, lane: Word, slice: Word, i: nat, counter: Word, address: Block)
    returns (rand: Word, counter': Word, address': Block)
    requires inst.Valid() && i < TWO32 && Ready(inst, pass, lane, slice, i, counter, address)
    ensures rand == AddressBlock(inst, pass, lane, slice, i / QWORDS + 1)[i % QWORDS]
    ensures Ready(inst, pass, lane, slice, i + 1, counter', address')
  {
    counter', address' := counter, address;
    if i % QWORDS == 0 {
      counter' := counter + 1;
      address' := AddressBlock(inst, pass, lane, slice, counter');
    }
    rand := address'[i % QWORDS];
  }

  /** Fills one segment of one lane. */
  method FillSegment(inst: Instance, memory: array<Block>, pass: Word, slice: Word, lane: Word)
    requires Position(inst, slice, lane) && memory.Length == inst.shape.lanes * inst.shape.LaneLength()
    modifies memory
    ensures GridOf(inst.shape, memory[..])
         == RunLane(inst, old(GridOf(inst.shape, memory[..])), pass, slice, lane, inst.shape.segment)
  {
    hide Step;
    hide GridOf;
    hide AddressBlock;
    var s := inst.shape;
    var laneLength := s.LaneLength();
    LaneBound(s);
    SliceStarts(s, slice);
    var independent := DataIndependent(inst, pass, slice);
    var counter: Word := 0;
    var address := ZERO;
    var start: nat := 0;
    if pass == 0 && slice == 0 {
      start := 2;
      if independent {
        counter := counter + 1;
        address := AddressBlock(inst, pass, lane, slice, counter);
      }
    }
    assert independent ==> Ready(inst, pass, lane, slice, start, counter, address);
    ghost var column := s.SliceStart(slice) + start;
    var curr := lane * laneLength + slice * s.segment + start;
    assert curr == Offset(s, lane, column);
    var prev: nat := FirstPrev(s, lane, column, curr);
    var i: nat := start;
    ghost var before := GridOf(s, memory[..]);
    hide Shape.SliceStart;
    hide Shape.Valid;
    hide Ready;
    hide Offset;
    hide PrevTracks;
    while i < s.segment
      invariant start <= i <= s.segment && column == s.SliceStart(slice) + i
      invariant curr == Offset(s, lane, column)
      invariant i < s.segment ==> PrevTracks(s, lane, column, prev)
      invariant independent ==> Ready(inst, pass, lane, slice, i, counter, address)
      invariant GridOf(s, memory[..]) == RunLane(inst, before, pass, slice, lane, i)
    {
      ColumnOfOffset(s, lane, column);
      if curr % laneLength == 1 {
        prev := curr - 1;
      }
      PrevIsBefore(s, lane, column, curr, prev);
      GridAt(s, memory[..], lane, Before(s, column));
      var rand: Word;
      if independent {
        rand, counter, address := NextAddress(inst, pass, lane, slice, i, counter, address);
      } else {
        rand := memory[prev][0];
      }
      FillOne(inst, memory, pass, slice, lane, i, curr, prev, rand);
      i := i + 1;
      column := column + 1;
      curr := curr + 1;
      prev := prev + 1;
    }
  }

  /** The offset before the first block of the loop. */
  method FirstPrev(s: Shape, ghost lane: nat, ghost column: nat, curr: nat) returns (prev: nat)
    requires 0 < s.segment && column < s.LaneLength() && curr == Offset(s, lane, column)
    ensures PrevTracks(s, lane, column, prev)
  {
    ColumnOfOffset(s, lane, column);
    if curr % s.LaneLength() == 0 {
      prev := curr + s.LaneLength() - 1;
    } else {
      prev := curr - 1;
    }
  }

  /** The offset in use is the cyclic predecessor, and one step on it tracks again. */
  lemma PrevIsBefore(s: Shape, lane: nat, column: nat, curr: nat, prev: nat)
    requires 0 < s.segment && column < s.LaneLength() && curr == Offset(s, lane, column)
    requires if column == 1 then prev == curr - 1 else PrevTracks(s, lane, column, prev)
    ensures prev == Offset(s, lane, Before(s, column))
    ensures PrevTracks(s, lane, column + 1, prev + 1)
    ensures curr + 1 == Offset(s, lane, column + 1)
  {
  }

  /** Fills the whole memory lane after lane. */
  method FillMemoryBlocksSt(inst: Instance, memory: array<Block>)
    requires inst.Valid() && memory.Length == inst.shape.lanes * inst.shape.LaneLength()
    modifies memory
    ensures GridOf(inst.shape, memory[..]) == FillPasses(inst, old(GridOf(inst.shape, memory[..])), inst.passes)
  {
    hide RunLane;
    hide GridOf;
    ghost var m := GridOf(inst.shape, memory[..]);
    for r := 0 to inst.passes
      invariant GridOf(inst.shape, memory[..]) == FillPasses(inst, m, r)
    {
      for slice := 0 to SYNC_POINTS
        invariant GridOf(inst.shape, memory[..]) == FillSlices(inst, FillPasses(inst, m, r), r, slice)
      {
        for lane := 0 to inst.shape.lanes
          invariant GridOf(inst.shape, memory[..])
                 == FillLanes(inst, FillSlices(inst, FillPasses(inst, m, r), r, slice), r, slice, lane)
        {
          FillSegment(inst, memory, r, slice, lane);
        }
      }
    }
  }
}
