/** Argon2 (RFC 9106): filling the memory, one block at a time. The compression function
    and the block XOR are parameters. */
module ArgonFill {
  import opened ArgonIndex

  const QWORDS: nat := 128
  const VERSION_10: nat := 0x10

  type Word = x: nat | x < 0x1_0000_0000_0000_0000
  type Block = b: seq<Word> | |b| == 128 witness seq(128, _ => 0)

  /** The variants, numbered 0, 1 and 2. */
  datatype Variant = Argon2d | Argon2i | Argon2id {
    function Number(): Word {
      match this case Argon2d => 0 case Argon2i => 1 case Argon2id => 2
    }
  }

  datatype Instance = Instance(
    shape: Shape,
    passes: Word,
    threads: nat,
    variant: Variant,
    version: nat,
    compress: (Block, Block) -> Block,
    xor: (Block, Block) -> Block)
  {
    predicate Valid() {
      shape.Valid() && 1 <= threads <= shape.lanes && passes < TWO32
    }
  }

  /** The memory by lane and column. */
  type Grid = seq<seq<Block>>

  predicate IsGrid(s: Shape, m: Grid) {
    |m| == s.lanes && forall l | 0 <= l < |m| :: |m[l]| == s.LaneLength()
  }

  predicate Position(inst: Instance, slice: nat, lane: nat) {
    inst.Valid() && slice < SYNC_POINTS && lane < inst.shape.lanes
  }

  predicate DataIndependent(inst: Instance, pass: nat, slice: nat) {
    inst.variant.Argon2i? || (inst.variant.Argon2id? && pass == 0 && slice < SYNC_POINTS / 2)
  }

  /** The first two blocks of every lane are made from the hashed inputs. */
  function FirstIndex(pass: nat, slice: nat): nat {
    if pass == 0 && slice == 0 then 2 else 0
  }

  const ZERO: Block := seq(128, _ => 0)

  function InputBlock(inst: Instance, pass: Word, lane: Word, slice: Word, counter: Word): Block
    requires inst.Valid()
  {
    [pass, lane, slice, inst.shape.lanes * inst.shape.LaneLength(), inst.passes, inst.variant.Number(), counter]
    + seq(121, _ => 0)
  }

  /** Block number `counter` of the pseudo-random addresses of a segment. */
  function AddressBlock(inst: Instance, pass: Word, lane: Word, slice: Word, counter: Word): Block
    requires inst.Valid()
  {
    var a := inst.compress(ZERO, InputBlock(inst, pass, lane, slice, counter));
    inst.compress(ZERO, a)
  }

  /** The pseudo-random value for one block: word `index` of the segment's addresses, or
      the first word of the previous block. */
  function PseudoRand(inst: Instance, m: Grid, pass: Word, slice: nat, lane: nat, index: nat): Word
    requires Position(inst, slice, lane) && IsGrid(inst.shape, m) && index < inst.shape.segment
  {
    SliceStarts(inst.shape, slice);
    LaneBound(inst.shape);
    if DataIndependent(inst, pass, slice)
    then AddressBlock(inst, pass, lane, slice, index / QWORDS + 1)[index % QWORDS]
    else m[lane][Before(inst.shape, inst.shape.SliceStart(slice) + index)][0]
  }

  function RefLane(inst: Instance, pass: nat, slice: nat, lane: nat, rand: Word): nat
    requires Position(inst, slice, lane)
  {
    if pass == 0 && slice == 0 then lane else rand / TWO32 % inst.shape.lanes
  }

  function RefColumn(inst: Instance, pass: nat, slice: nat, lane: nat, index: nat, rand: Word): nat
    requires Position(inst, slice, lane)
  {
    IndexAlpha(inst.shape, pass, slice, index, rand % TWO32, RefLane(inst, pass, slice, lane, rand) == lane)
  }

  function FillBlock(inst: Instance, prev: Block, ref: Block, old_: Block, withXor: bool): Block {
    if withXor then inst.xor(inst.compress(prev, ref), old_) else inst.compress(prev, ref)
  }

  /** The block that `fill_segment` puts at `index` of a segment. */
  function NewBlock(inst: Instance, m: Grid, pass: Word, slice: nat, lane: nat, index: nat): Block
    requires Position(inst, slice, lane) && IsGrid(inst.shape, m) && Filling(inst.shape, pass, slice, index)
  {
    SliceStarts(inst.shape, slice);
    var rand := PseudoRand(inst, m, pass, slice, lane, index);
    var refLane := RefLane(inst, pass, slice, lane, rand);
    ReferenceAvoids(inst.shape, pass, slice, index, rand % TWO32, refLane == lane);
    var column := inst.shape.SliceStart(slice) + index;
    FillBlock(inst, m[lane][Before(inst.shape, column)], m[refLane][RefColumn(inst, pass, slice, lane, index, rand)],
              m[lane][column], inst.version != VERSION_10 && pass != 0)
  }

  /** One block-fill step of one lane. */
  function Step(inst: Instance, m: Grid, pass: Word, slice: nat, lane: nat, index: nat): (m': Grid)
    requires Position(inst, slice, lane) && IsGrid(inst.shape, m) && Filling(inst.shape, pass, slice, index)
    ensures IsGrid(inst.shape, m')
  {
    SliceStarts(inst.shape, slice);
    var row: seq<Block> := m[lane];
    var filled: seq<Block> := row[inst.shape.SliceStart(slice) + index := NewBlock(inst, m, pass, slice, lane, index)];
    m[lane := filled]
  }

  /** One lane's steps up to index `k` of a segment, from the first. */
  function RunLane(inst: Instance, m: Grid, pass: Word, slice: nat, lane: nat, k: nat): (m': Grid)
    requires Position(inst, slice, lane) && IsGrid(inst.shape, m) && k <= inst.shape.segment
    ensures IsGrid(inst.shape, m')
  {
    if k <= FirstIndex(pass, slice) then m
    else Step(inst, RunLane(inst, m, pass, slice, lane, k - 1), pass, slice, lane, k - 1)
  }

  /** The lanes `0 .. j` of a slice, filled one after the other. */
  function FillLanes(inst: Instance, m: Grid, pass: Word, slice: nat, j: nat): (m': Grid)
    requires inst.Valid() && slice < SYNC_POINTS && IsGrid(inst.shape, m) && j <= inst.shape.lanes
    ensures IsGrid(inst.shape, m')
  {
    if j == 0 then m
    else RunLane(inst, FillLanes(inst, m, pass, slice, j - 1), pass, slice, j - 1, inst.shape.segment)
  }

  /** The first `j` slices of a pass. */
  function FillSlices(inst: Instance, m: Grid, pass: Word, j: nat): (m': Grid)
    requires inst.Valid() && j <= SYNC_POINTS && IsGrid(inst.shape, m)
    ensures IsGrid(inst.shape, m')
  {
    if j == 0 then m
    else FillLanes(inst, FillSlices(inst, m, pass, j - 1), pass, j - 1, inst.shape.lanes)
  }

  /** The first `r` passes. */
  function FillPasses(inst: Instance, m: Grid, r: nat): (m': Grid)
    requires inst.Valid() && r <= inst.passes && IsGrid(inst.shape, m)
    ensures IsGrid(inst.shape, m')
  {
    if r == 0 then m else FillSlices(inst, FillPasses(inst, m, r - 1), r - 1, SYNC_POINTS)
  }

  // ----- Lanes do not interfere within a slice -----

  /** A lane's steps write its own row only, and there only the current segment. */
  lemma {:induction false} RunLaneWrites(inst: Instance, m: Grid, pass: Word, slice: nat, lane: nat, k: nat)
    requires Position(inst, slice, lane) && IsGrid(inst.shape, m) && k <= inst.shape.segment
    ensures forall l | 0 <= l < |m| && l != lane :: RunLane(inst, m, pass, slice, lane, k)[l] == m[l]
    ensures forall c | 0 <= c < inst.shape.LaneLength() &&
                       !(inst.shape.SliceStart(slice) <= c < inst.shape.SliceStart(slice) + inst.shape.segment) ::
              RunLane(inst, m, pass, slice, lane, k)[lane][c] == m[lane][c]
  {
    hide NewBlock;
    if k > FirstIndex(pass, slice) {
      RunLaneWrites(inst, m, pass, slice, lane, k - 1);
    }
  }

  /** How far every lane has got in the current segment. */
  predicate IsProgress(inst: Instance, progress: seq<nat>) {
    |progress| == inst.shape.lanes && forall l | 0 <= l < |progress| :: progress[l] <= inst.shape.segment
  }

  /** Every lane advanced on its own from the memory `m` at the start of the slice. */
  function Merged(inst: Instance, m: Grid, pass: Word, slice: nat, progress: seq<nat>): (m': Grid)
    requires inst.Valid() && slice < SYNC_POINTS && IsGrid(inst.shape, m) && IsProgress(inst, progress)
    ensures IsGrid(inst.shape, m')
  {
    seq(inst.shape.lanes, l requires 0 <= l < inst.shape.lanes => RunLane(inst, m, pass, slice, l, progress[l])[l])
  }

  /** A lane computes the same block whatever the other lanes have done in this slice. */
  lemma SameNewBlock(inst: Instance, m: Grid, pass: Word, slice: nat, lane: nat, progress: seq<nat>)
    requires Position(inst, slice, lane) && IsGrid(inst.shape, m) && IsProgress(inst, progress)
    requires Filling(inst.shape, pass, slice, progress[lane])
    ensures NewBlock(inst, Merged(inst, m, pass, slice, progress), pass, slice, lane, progress[lane])
         == NewBlock(inst, RunLane(inst, m, pass, slice, lane, progress[lane]), pass, slice, lane, progress[lane])
  {
    var k := progress[lane];
    var a := Merged(inst, m, pass, slice, progress);
    var b := RunLane(inst, m, pass, slice, lane, k);
    assert a[lane] == b[lane];
    var rand := PseudoRand(inst, b, pass, slice, lane, k);
    var refLane := RefLane(inst, pass, slice, lane, rand);
    ReferenceAvoids(inst.shape, pass, slice, k, rand % TWO32, refLane == lane);
    var refColumn := RefColumn(inst, pass, slice, lane, k, rand);
    if refLane != lane {
      RunLaneWrites(inst, m, pass, slice, refLane, progress[refLane]);
      RunLaneWrites(inst, m, pass, slice, lane, k);
      assert a[refLane][refColumn] == m[refLane][refColumn] == b[refLane][refColumn];
    }
  }

  /** A step of one lane commutes with whatever the others have done: it advances that
      lane's own progress and nothing else. */
  lemma StepMerged(inst: Instance, m: Grid, pass: Word, slice: nat, lane: nat, progress: seq<nat>)
    requires Position(inst, slice, lane) && IsGrid(inst.shape, m) && IsProgress(inst, progress)
    requires Filling(inst.shape, pass, slice, progress[lane])
    ensures Step(inst, Merged(inst, m, pass, slice, progress), pass, slice, lane, progress[lane])
         == Merged(inst, m, pass, slice, progress[lane := progress[lane] + 1])
  {
    hide *;
    NextProgress(inst, pass, slice, progress, lane);
    var k := progress[lane];
    var next := progress[lane := k + 1];
    var a := Step(inst, Merged(inst, m, pass, slice, progress), pass, slice, lane, k);
    var b := Merged(inst, m, pass, slice, next);
    SameNewBlock(inst, m, pass, slice, lane, progress);
    OneMoreBlock(inst, m, pass, slice, lane, k);
    LanesOf(inst, a);
    LanesOf(inst, b);
    forall l | 0 <= l < inst.shape.lanes
      ensures a[l] == b[l]
    {
      MergedAt(inst, m, pass, slice, progress, l);
      MergedAt(inst, m, pass, slice, next, l);
      StepAt(inst, Merged(inst, m, pass, slice, progress), pass, slice, lane, k, l);
      StepAt(inst, RunLane(inst, m, pass, slice, lane, k), pass, slice, lane, k, l);
    }
  }

  lemma NextProgress(inst: Instance, pass: Word, slice: nat, progress: seq<nat>, lane: nat)
    requires Position(inst, slice, lane) && IsProgress(inst, progress)
    requires Filling(inst.shape, pass, slice, progress[lane])
    ensures inst.Valid() && slice < SYNC_POINTS && lane < inst.shape.lanes == |progress|
    ensures progress[lane] + 1 <= inst.shape.segment && IsProgress(inst, progress[lane := progress[lane] + 1])
  {
  }

  lemma LanesOf(inst: Instance, m: Grid)
    requires IsGrid(inst.shape, m)
    ensures |m| == inst.shape.lanes
  {
  }

  lemma MergedAt(inst: Instance, m: Grid, pass: Word, slice: nat, progress: seq<nat>, l: nat)
    requires inst.Valid() && slice < SYNC_POINTS && IsGrid(inst.shape, m) && IsProgress(inst, progress)
    requires l < inst.shape.lanes
    ensures Merged(inst, m, pass, slice, progress)[l] == RunLane(inst, m, pass, slice, l, progress[l])[l]
  {
    hide RunLane;
  }

  lemma StepAt(inst: Instance, m: Grid, pass: Word, slice: nat, lane: nat, index: nat, l: nat)
    requires Position(inst, slice, lane) && IsGrid(inst.shape, m) && Filling(inst.shape, pass, slice, index)
    requires l < inst.shape.lanes
    ensures 0 <= inst.shape.SliceStart(slice) + index < |m[lane]|
    ensures Step(inst, m, pass, slice, lane, index)[l] ==
            if l == lane then m[l][inst.shape.SliceStart(slice) + index := NewBlock(inst, m, pass, slice, lane, index)]
            else m[l]
  {
    hide NewBlock;
    SliceStarts(inst.shape, slice);
  }

  lemma OneMoreBlock(inst: Instance, m: Grid, pass: Word, slice: nat, lane: nat, k: nat)
    requires Position(inst, slice, lane) && IsGrid(inst.shape, m) && Filling(inst.shape, pass, slice, k)
    ensures RunLane(inst, m, pass, slice, lane, k + 1)
         == Step(inst, RunLane(inst, m, pass, slice, lane, k), pass, slice, lane, k)
  {
    hide NewBlock;
  }

  /** No lane has started. */
  function Unstarted(inst: Instance, pass: nat, slice: nat): (p: seq<nat>)
    requires inst.Valid()
    ensures IsProgress(inst, p)
  {
    LaneBound(inst.shape);
    seq(inst.shape.lanes, _ => FirstIndex(pass, slice))
  }

  lemma MergedUnstarted(inst: Instance, m: Grid, pass: Word, slice: nat)
    requires inst.Valid() && slice < SYNC_POINTS && IsGrid(inst.shape, m)
    ensures Merged(inst, m, pass, slice, Unstarted(inst, pass, slice)) == m
  {
    hide NewBlock;
  }

  /** Running one lane to `k` on its own, after any progress of the others. */
  lemma {:induction false} RunLaneMerged(inst: Instance, m: Grid, pass: Word, slice: nat, lane: nat,
                                         progress: seq<nat>, k: nat)
    requires Position(inst, slice, lane) && IsGrid(inst.shape, m) && IsProgress(inst, progress)
    requires progress[lane] == FirstIndex(pass, slice) <= k <= inst.shape.segment
    ensures RunLane(inst, Merged(inst, m, pass, slice, progress), pass, slice, lane, k)
         == Merged(inst, m, pass, slice, progress[lane := k])
  {
    hide Step;
    hide Merged;
    if k == FirstIndex(pass, slice) {
      assert progress[lane := k] == progress;
    } else {
      RunLaneMerged(inst, m, pass, slice, lane, progress, k - 1);
      StepMerged(inst, m, pass, slice, lane, progress[lane := k - 1]);
      assert progress[lane := k - 1][lane := k] == progress[lane := k];
    }
  }

  /** Lanes below `j` have finished the segment, the others have not started. */
  function FinishedBelow(inst: Instance, pass: nat, slice: nat, j: nat): (p: seq<nat>)
    requires inst.Valid() && j <= inst.shape.lanes
    ensures IsProgress(inst, p)
  {
    LaneBound(inst.shape);
    seq(j, _ => inst.shape.segment) + seq(inst.shape.lanes - j, _ => FirstIndex(pass, slice))
  }

  lemma {:induction false} FillLanesMerged(inst: Instance, m: Grid, pass: Word, slice: nat, j: nat)
    requires inst.Valid() && slice < SYNC_POINTS && IsGrid(inst.shape, m) && j <= inst.shape.lanes
    ensures FillLanes(inst, m, pass, slice, j) == Merged(inst, m, pass, slice, FinishedBelow(inst, pass, slice, j))
  {
    hide RunLane;
    hide Merged;
    if j == 0 {
      MergedUnstarted(inst, m, pass, slice);
      assert FinishedBelow(inst, pass, slice, 0) == Unstarted(inst, pass, slice);
    } else {
      FillLanesMerged(inst, m, pass, slice, j - 1);
      var before := FinishedBelow(inst, pass, slice, j - 1);
      RunLaneMerged(inst, m, pass, slice, j - 1, before, inst.shape.segment);
      assert before[j - 1 := inst.shape.segment] == FinishedBelow(inst, pass, slice, j);
    }
  }

  /** When every lane has finished its segment, in whatever order, the memory is what the
      sequential order leaves. */
  lemma SliceIsSequential(inst: Instance, m: Grid, pass: Word, slice: nat, progress: seq<nat>)
    requires inst.Valid() && slice < SYNC_POINTS && IsGrid(inst.shape, m) && IsProgress(inst, progress)
    requires forall l | 0 <= l < |progress| :: progress[l] == inst.shape.segment
    ensures Merged(inst, m, pass, slice, progress) == FillLanes(inst, m, pass, slice, inst.shape.lanes)
  {
    hide FillLanes;
    FillLanesMerged(inst, m, pass, slice, inst.shape.lanes);
    assert progress == FinishedBelow(inst, pass, slice, inst.shape.lanes);
  }
}
