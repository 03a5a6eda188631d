/** The multi-threaded Argon2 fill as a state machine: the main thread creates and joins
    one thread per lane and slice, and between its steps any running thread may fill one
    block. Every run ends with the memory that the sequential order leaves. */
module ArgonThreads {
  import opened ArgonIndex
  import opened ArgonFill

  /** A lane's thread in the current slice: not created yet, running (or finished) with
      `next` the index of the next block, or joined. */
  datatype Thread = Idle | Alive(next: nat) | Joined

  /** Where the main thread is in a slice: about to start on lane `l` (and to join an old
      thread first when the limit is reached), about to create the thread of lane `l`,
      in the final join loop, or through. */
  datatype Main = Launch(l: nat) | Create(l: nat) | Collect(l: nat) | Finished

  datatype State = State(memory: Grid, pass: nat, slice: nat, main: Main, threads: seq<Thread>)

  function AllIdle(inst: Instance): seq<Thread> {
    seq(inst.shape.lanes, _ => Idle)
  }

  ghost predicate Init(inst: Instance, m: Grid, s: State)
    requires inst.Valid()
  {
    s == State(m, 0, 0, if inst.passes == 0 then Finished else Launch(0), AllIdle(inst))
  }

  /** `argon2_thread_join` returns once the thread has filled its segment. */
  ghost predicate Join(inst: Instance, s: State, l: nat, s': State) {
    && l < |s.threads|
    && s.threads[l] == Alive(inst.shape.segment)
    && s' == s.(main := s'.main, threads := s.threads[l := Joined])
  }

  /** One step of the main thread. */
  ghost predicate MainStep(inst: Instance, s: State, s': State)
    requires inst.Valid()
  {
    match s.main
    case Launch(l) =>
      if l == inst.shape.lanes then s' == s.(main := Collect(inst.shape.lanes - inst.threads))
      else if l >= inst.threads then Join(inst, s, l - inst.threads, s') && s'.main == Create(l)
      else s' == s.(main := Create(l))
    case Create(l) =>
      && l < |s.threads|
      && s' == s.(main := Launch(l + 1), threads := s.threads[l := Alive(FirstIndex(s.pass, s.slice))])
    case Collect(l) =>
      if l < inst.shape.lanes then Join(inst, s, l, s') && s'.main == Collect(l + 1)
      else if s.slice + 1 < SYNC_POINTS then
        s' == s.(slice := s.slice + 1, main := Launch(0), threads := AllIdle(inst))
      else if s.pass + 1 < inst.passes then
        s' == s.(pass := s.pass + 1, slice := 0, main := Launch(0), threads := AllIdle(inst))
      else s' == s.(main := Finished)
    case Finished => false
  }

  /** One running thread fills one block. */
  ghost predicate LaneStep(inst: Instance, s: State, l: nat, s': State)
    requires inst.Valid()
  {
    && Position(inst, s.slice, l) && IsGrid(inst.shape, s.memory) && s.pass < TWO64
    && l < |s.threads| && s.threads[l].Alive? && s.threads[l].next < inst.shape.segment
    && Filling(inst.shape, s.pass, s.slice, s.threads[l].next)
    && s' == s.(memory := Step(inst, s.memory, s.pass, s.slice, l, s.threads[l].next),
                threads := s.threads[l := Alive(s.threads[l].next + 1)])
  }

  ghost predicate Next(inst: Instance, s: State, s': State)
    requires inst.Valid()
  {
    MainStep(inst, s, s') || exists l: nat :: LaneStep(inst, s, l, s')
  }

  /** A run: a start state and steps. */
  ghost predicate Run(inst: Instance, m: Grid, run: seq<State>)
    requires inst.Valid()
  {
    && 0 < |run| && Init(inst, m, run[0])
    && forall i | 0 <= i < |run| - 1 :: Next(inst, run[i], run[i + 1])
  }

  // ----- The invariant -----

  function ThreadProgress(inst: Instance, s: State, t: Thread): nat {
    match t
    case Idle => FirstIndex(s.pass, s.slice)
    case Alive(next) => next
    case Joined => inst.shape.segment
  }

  function Progress(inst: Instance, s: State): seq<nat> {
    seq<nat>(|s.threads|, l requires 0 <= l < |s.threads| => ThreadProgress(inst, s, s.threads[l]))
  }

  /** Threads below `joined` have been joined, those from there to `created` are alive, and
      the rest have not been created. */
  ghost predicate Window(inst: Instance, s: State, joined: nat, created: nat) {
    && joined <= created <= |s.threads| == inst.shape.lanes
    && forall l | 0 <= l < |s.threads| ::
         && (l < joined ==> s.threads[l] == Joined)
         && (joined <= l < created ==> s.threads[l].Alive? &&
                                       FirstIndex(s.pass, s.slice) <= s.threads[l].next <= inst.shape.segment)
         && (created <= l ==> s.threads[l] == Idle)
  }

  /** How many threads have been joined and created at each point of the main thread. */
  function JoinedCount(inst: Instance, main: Main): int {
    match main
    case Launch(l) => if l >= inst.threads then l - inst.threads else 0
    case Create(l) => if l >= inst.threads then l - inst.threads + 1 else 0
    case Collect(l) => l
    case Finished => 0
  }

  function CreatedCount(inst: Instance, main: Main): nat {
    match main
    case Launch(l) => l
    case Create(l) => l
    case Collect(_) => inst.shape.lanes
    case Finished => 0
  }

  predicate MainInRange(inst: Instance, main: Main) {
    match main
    case Launch(l) => l <= inst.shape.lanes
    case Create(l) => l < inst.shape.lanes
    case Collect(l) => inst.shape.lanes - inst.threads <= l <= inst.shape.lanes
    case Finished => true
  }

  /** The memory when the sequential fill is about to start this slice. */
  function AtSlice(inst: Instance, m: Grid, pass: nat, slice: nat): (m': Grid)
    requires inst.Valid() && IsGrid(inst.shape, m) && pass < inst.passes && slice <= SYNC_POINTS
    ensures IsGrid(inst.shape, m')
  {
    FillSlices(inst, FillPasses(inst, m, pass), pass, slice)
  }

  ghost predicate Inv(inst: Instance, m: Grid, s: State)
    requires inst.Valid() && IsGrid(inst.shape, m)
  {
    if s.main.Finished? then s.memory == FillPasses(inst, m, inst.passes)
    else
      && s.pass < inst.passes && s.slice < SYNC_POINTS
      && MainInRange(inst, s.main)
      && Window(inst, s, JoinedCount(inst, s.main), CreatedCount(inst, s.main))
      && s.memory == Merged(inst, AtSlice(inst, m, s.pass, s.slice), s.pass, s.slice, Progress(inst, s))
  }

  lemma InitInv(inst: Instance, m: Grid, s: State)
    requires inst.Valid() && IsGrid(inst.shape, m) && Init(inst, m, s)
    ensures Inv(inst, m, s)
  {
    hide Merged;
    if inst.passes > 0 {
      MergedUnstarted(inst, m, 0, 0);
      assert Progress(inst, s) == Unstarted(inst, 0, 0);
    }
  }

  /** A block step keeps the invariant: it advances one lane's progress. */
  lemma LaneStepInv(inst: Instance, m: Grid, s: State, l: nat, s': State)
    requires inst.Valid() && IsGrid(inst.shape, m) && Inv(inst, m, s) && LaneStep(inst, s, l, s')
    requires !s.main.Finished?
    ensures Inv(inst, m, s')
  {
    hide Merged;
    hide Step;
    hide AtSlice;
    var progress := Progress(inst, s);
    assert progress[l] == s.threads[l].next;
    StepMerged(inst, AtSlice(inst, m, s.pass, s.slice), s.pass, s.slice, l, progress);
    assert Progress(inst, s') == progress[l := progress[l] + 1];
  }

  /** Creating a thread or joining a finished one leaves all progress as it is. */
  lemma SameProgress(inst: Instance, s: State, s': State)
    requires s'.pass == s.pass && s'.slice == s.slice && |s'.threads| == |s.threads|
    requires forall l | 0 <= l < |s.threads| ::
               ThreadProgress(inst, s, s.threads[l]) == ThreadProgress(inst, s', s'.threads[l])
    ensures Progress(inst, s') == Progress(inst, s)
  {
  }

  /** A step of the main thread within a slice keeps the invariant. */
  lemma MainStepInv(inst: Instance, m: Grid, s: State, s': State)
    requires inst.Valid() && IsGrid(inst.shape, m) && Inv(inst, m, s) && MainStep(inst, s, s')
    requires !(s.main == Collect(inst.shape.lanes))
    ensures Inv(inst, m, s')
  {
    hide Merged;
    hide AtSlice;
    SameProgress(inst, s, s');
  }

  /** When all threads have been joined, the next slice starts where the sequential fill
      would start it. */
  lemma SliceEndInv(inst: Instance, m: Grid, s: State, s': State)
    requires inst.Valid() && IsGrid(inst.shape, m) && Inv(inst, m, s) && MainStep(inst, s, s')
    requires s.main == Collect(inst.shape.lanes)
    ensures Inv(inst, m, s')
  {
    hide Merged;
    hide FillLanes;
    var before := AtSlice(inst, m, s.pass, s.slice);
    SliceIsSequential(inst, before, s.pass, s.slice, Progress(inst, s));
    assert s.memory == AtSlice(inst, m, s.pass, s.slice + 1);
    if !s'.main.Finished? {
      assert s.memory == AtSlice(inst, m, s'.pass, s'.slice);
      MergedUnstarted(inst, s.memory, s'.pass, s'.slice);
      assert Progress(inst, s') == Unstarted(inst, s'.pass, s'.slice);
    }
  }

  lemma NextInv(inst: Instance, m: Grid, s: State, s': State)
    requires inst.Valid() && IsGrid(inst.shape, m) && Inv(inst, m, s) && Next(inst, s, s')
    requires !s.main.Finished?
    ensures Inv(inst, m, s')
  {
    hide Inv;
    if MainStep(inst, s, s') {
      if s.main == Collect(inst.shape.lanes) {
        SliceEndInv(inst, m, s, s');
      } else {
        MainStepInv(inst, m, s, s');
      }
    } else {
      var l: nat :| LaneStep(inst, s, l, s');
      LaneStepInv(inst, m, s, l, s');
    }
  }

  // ----- The theorems -----

  /** The invariant with the threads' part kept in the finished state, where all threads of
      the last slice have been joined. */
  ghost predicate Quiet(s: State) {
    s.main.Finished? ==> forall l | 0 <= l < |s.threads| :: s.threads[l] == Joined || s.threads[l] == Idle
  }

  lemma {:induction false} RunInv(inst: Instance, m: Grid, run: seq<State>)
    requires inst.Valid() && IsGrid(inst.shape, m) && Run(inst, m, run)
    ensures Inv(inst, m, run[|run| - 1]) && Quiet(run[|run| - 1])
  {
    hide Inv;
    hide Next;
    if |run| == 1 {
      InitInv(inst, m, run[0]);
    } else {
      var front := run[..|run| - 1];
      RunInv(inst, m, front);
      var s, s' := run[|run| - 2], run[|run| - 1];
      assert front[|front| - 1] == s && Next(inst, s, s');
      if s.main.Finished? {
        NoStepWhenQuiet(inst, s, s');
        assert false;
      }
      NextInv(inst, m, s, s');
      NextQuiet(inst, m, s, s');
    }
  }

  lemma NoStepWhenQuiet(inst: Instance, s: State, s': State)
    requires inst.Valid() && s.main.Finished? && Quiet(s)
    ensures !Next(inst, s, s')
  {
  }

  lemma NextQuiet(inst: Instance, m: Grid, s: State, s': State)
    requires inst.Valid() && IsGrid(inst.shape, m) && Inv(inst, m, s) && Next(inst, s, s') && !s.main.Finished?
    ensures Quiet(s')
  {
    hide Merged;
    hide AtSlice;
    hide Step;
  }

  /** Whatever the order in which the threads' block steps and the main thread's steps were
      taken, a finished run leaves the memory that the single-threaded fill leaves. */
  lemma ThreadedIsSequential(inst: Instance, m: Grid, run: seq<State>)
    requires inst.Valid() && IsGrid(inst.shape, m) && Run(inst, m, run)
    requires run[|run| - 1].main.Finished?
    ensures run[|run| - 1].memory == FillPasses(inst, m, inst.passes)
  {
    RunInv(inst, m, run);
  }

  /** The lanes whose threads exist and have not been joined. */
  function AliveLanes(s: State): set<nat> {
    set l: nat | l < |s.threads| && s.threads[l].Alive?
  }

  /** At no time do more threads exist than allowed. */
  lemma AtMostThreads(inst: Instance, m: Grid, run: seq<State>)
    requires inst.Valid() && IsGrid(inst.shape, m) && Run(inst, m, run)
    ensures |AliveLanes(run[|run| - 1])| <= inst.threads
  {
    RunInv(inst, m, run);
    var s := run[|run| - 1];
    hide Merged;
    if s.main.Finished? {
      assert AliveLanes(s) == {};
    } else {
      var a, b := JoinedCount(inst, s.main), CreatedCount(inst, s.main);
      IntervalSize(a, b, AliveLanes(s));
    }
  }

  lemma {:induction false} IntervalSize(a: nat, b: nat, s: set<nat>)
    requires a <= b && forall l | l in s :: a <= l < b
    ensures |s| <= b - a
  {
    if a == b {
      assert s == {};
    } else {
      IntervalSize(a, b - 1, s - {b - 1});
    }
  }

  /** The thread the main thread is about to join, if any. */
  function JoinTarget(inst: Instance, main: Main): int {
    match main
    case Launch(l) => if inst.threads <= l < inst.shape.lanes then l - inst.threads else -1
    case Collect(l) => if l < inst.shape.lanes then l else -1
    case Create(_) => -1
    case Finished => -1
  }

  /** The step from `s` to `s'` joins the thread of lane `l` in the given slice. */
  ghost predicate JoinsAt(inst: Instance, s: State, s': State, pass: nat, slice: nat, l: nat) {
    s.pass == pass && s.slice == slice && s'.main != s.main && JoinTarget(inst, s.main) == l
  }

  /** How often a run joins the thread of lane `l` in the given slice. */
  ghost function Joins(inst: Instance, run: seq<State>, pass: nat, slice: nat, l: nat): nat {
    if |run| < 2 then 0
    else
      Joins(inst, run[..|run| - 1], pass, slice, l)
      + if JoinsAt(inst, run[|run| - 2], run[|run| - 1], pass, slice, l) then 1 else 0
  }

  /** The slice is over. */
  predicate Over(s: State, pass: nat, slice: nat) {
    s.main.Finished? || pass < s.pass || (pass == s.pass && slice < s.slice)
  }

  /** How often the thread should have been joined by now. */
  function JoinsDue(s: State, pass: nat, slice: nat, l: nat): nat {
    if Over(s, pass, slice) then 1
    else if pass == s.pass && slice == s.slice && l < |s.threads| && s.threads[l] == Joined then 1
    else 0
  }

  lemma OneMoreJoin(inst: Instance, m: Grid, s: State, s': State, pass: nat, slice: nat, l: nat)
    requires inst.Valid() && IsGrid(inst.shape, m) && Inv(inst, m, s) && Next(inst, s, s') && !s.main.Finished?
    requires pass < inst.passes && slice < SYNC_POINTS && l < inst.shape.lanes
    ensures JoinsDue(s', pass, slice, l)
            == JoinsDue(s, pass, slice, l) + if JoinsAt(inst, s, s', pass, slice, l) then 1 else 0
  {
    hide Merged, AtSlice, Step;
    if MainStep(inst, s, s') {
      assert s.main == Collect(inst.shape.lanes) ==> s.threads[l] == Joined;
    }
  }

  /** Every thread is joined exactly once: at any time in any run, the thread of a lane in a
      slice has been joined once if the slice is over or the thread is marked as joined, and
      else not at all. */
  lemma {:induction false} JoinedExactlyOnce(inst: Instance, m: Grid, run: seq<State>, pass: nat, slice: nat, l: nat)
    requires inst.Valid() && IsGrid(inst.shape, m) && Run(inst, m, run)
    requires pass < inst.passes && slice < SYNC_POINTS && l < inst.shape.lanes
    ensures Joins(inst, run, pass, slice, l) == JoinsDue(run[|run| - 1], pass, slice, l)
  {
    hide Inv, Next, JoinsAt, JoinsDue;
    if |run| == 1 {
      NoneJoined(inst, m, run[0], pass, slice, l);
    } else {
      var front := run[..|run| - 1];
      var s, s' := run[|run| - 2], run[|run| - 1];
      assert front[|front| - 1] == s && Next(inst, s, s');
      JoinedExactlyOnce(inst, m, front, pass, slice, l);
      RunInv(inst, m, front);
      if s.main.Finished? {
        NoStepWhenQuiet(inst, s, s');
        assert false;
      }
      OneMoreJoin(inst, m, s, s', pass, slice, l);
    }
  }

  lemma NoneJoined(inst: Instance, m: Grid, s: State, pass: nat, slice: nat, l: nat)
    requires inst.Valid() && Init(inst, m, s) && pass < inst.passes
    ensures JoinsDue(s, pass, slice, l) == 0
  {
  }

  /** What the main thread joins is a thread that has been created and not joined. */
  lemma JoinsAlive(inst: Instance, m: Grid, run: seq<State>)
    requires inst.Valid() && IsGrid(inst.shape, m) && Run(inst, m, run)
    ensures var s := run[|run| - 1]; var t := JoinTarget(inst, s.main);
            0 <= t ==> t < |s.threads| && s.threads[t].Alive?
  {
    RunInv(inst, m, run);
    hide Merged;
  }

  // ----- Every run finishes -----

  /** Blocks still to be filled in the current slice. */
  function BlocksLeft(inst: Instance, progress: seq<nat>): int {
    if progress == [] then 0
    else BlocksLeft(inst, progress[..|progress| - 1]) + (inst.shape.segment - progress[|progress| - 1])
  }

  lemma {:induction false} OneBlockLess(inst: Instance, progress: seq<nat>, l: nat)
    requires l < |progress|
    ensures BlocksLeft(inst, progress[l := progress[l] + 1]) == BlocksLeft(inst, progress) - 1
  {
    var n := |progress| - 1;
    var next := progress[l := progress[l] + 1];
    if l == n {
      assert next[..n] == progress[..n];
    } else {
      OneBlockLess(inst, progress[..n], l);
      assert next[..n] == progress[..n][l := progress[l] + 1];
    }
  }

  /** Steps of the main thread still to come in the current slice. */
  function MainLeft(inst: Instance, main: Main): int {
    match main
    case Launch(l) => 2 * (inst.shape.lanes - l) + inst.threads + 2
    case Create(l) => 2 * (inst.shape.lanes - l) + inst.threads + 1
    case Collect(l) => inst.shape.lanes - l + 1
    case Finished => 0
  }

  function SliceWork(inst: Instance, pass: nat, slice: nat): int
    requires inst.Valid()
  {
    MainLeft(inst, Launch(0)) + BlocksLeft(inst, Unstarted(inst, pass, slice))
  }

  /** Steps of all the slices from this one on. */
  function WorkFrom(inst: Instance, pass: nat, slice: nat): int
    requires inst.Valid()
    decreases inst.passes - pass, SYNC_POINTS - slice
  {
    if pass >= inst.passes then 0
    else if slice >= SYNC_POINTS then WorkFrom(inst, pass + 1, 0)
    else SliceWork(inst, pass, slice) + WorkFrom(inst, pass, slice + 1)
  }

  /** Steps still to come. */
  function Work(inst: Instance, s: State): int
    requires inst.Valid()
  {
    if s.main.Finished? then 0
    else MainLeft(inst, s.main) + BlocksLeft(inst, Progress(inst, s)) + WorkFrom(inst, s.pass, s.slice + 1)
  }

  lemma {:induction false} NothingLeft(inst: Instance, progress: seq<nat>)
    requires forall l | 0 <= l < |progress| :: progress[l] == inst.shape.segment
    ensures BlocksLeft(inst, progress) == 0
  {
    if progress != [] {
      NothingLeft(inst, progress[..|progress| - 1]);
    }
  }

  lemma SliceEndCounts(inst: Instance, m: Grid, s: State, s': State)
    requires inst.Valid() && IsGrid(inst.shape, m) && Inv(inst, m, s) && MainStep(inst, s, s')
    requires s.main == Collect(inst.shape.lanes)
    ensures Work(inst, s') == Work(inst, s) - 1
  {
    hide Merged;
    hide AtSlice;
    hide BlocksLeft;
    NothingLeft(inst, Progress(inst, s));
    if s.slice + 1 < SYNC_POINTS {
      assert Progress(inst, s') == Unstarted(inst, s.pass, s.slice + 1);
      assert WorkFrom(inst, s.pass, s.slice + 1)
          == SliceWork(inst, s.pass, s.slice + 1) + WorkFrom(inst, s.pass, s.slice + 2);
    } else {
      assert WorkFrom(inst, s.pass, s.slice + 1) == WorkFrom(inst, s.pass + 1, 0);
      if s.pass + 1 < inst.passes {
        assert Progress(inst, s') == Unstarted(inst, s.pass + 1, 0);
        assert WorkFrom(inst, s.pass + 1, 0) == SliceWork(inst, s.pass + 1, 0) + WorkFrom(inst, s.pass + 1, 1);
      }
    }
  }

  /** Every step is one of the remaining steps. */
  lemma StepCounts(inst: Instance, m: Grid, s: State, s': State)
    requires inst.Valid() && IsGrid(inst.shape, m) && Inv(inst, m, s) && Next(inst, s, s') && !s.main.Finished?
    ensures Work(inst, s') == Work(inst, s) - 1
  {
    hide Merged;
    hide AtSlice;
    hide Step;
    hide BlocksLeft;
    if MainStep(inst, s, s') {
      if s.main == Collect(inst.shape.lanes) {
        SliceEndCounts(inst, m, s, s');
      } else {
        SameProgress(inst, s, s');
      }
    } else {
      var l: nat :| LaneStep(inst, s, l, s');
      OneBlockLess(inst, Progress(inst, s), l);
      assert Progress(inst, s') == Progress(inst, s)[l := Progress(inst, s)[l] + 1];
    }
  }

  /** Any thread that has not filled its segment can take its next step at any time. */
  lemma AliveCanStep(inst: Instance, m: Grid, s: State, l: nat) returns (s': State)
    requires inst.Valid() && IsGrid(inst.shape, m) && Inv(inst, m, s) && !s.main.Finished?
    requires l < |s.threads| && s.threads[l].Alive? && s.threads[l].next < inst.shape.segment
    ensures LaneStep(inst, s, l, s')
  {
    hide Merged;
    hide AtSlice;
    hide Step;
    s' := s.(memory := Step(inst, s.memory, s.pass, s.slice, l, s.threads[l].next),
             threads := s.threads[l := Alive(s.threads[l].next + 1)]);
  }

  /** While a run has not finished it can go on. */
  lemma NoDeadlock(inst: Instance, m: Grid, s: State) returns (s': State)
    requires inst.Valid() && IsGrid(inst.shape, m) && Inv(inst, m, s) && !s.main.Finished?
    ensures Next(inst, s, s')
  {
    hide Merged;
    hide AtSlice;
    hide Step;
    var t := JoinTarget(inst, s.main);
    if 0 <= t && s.threads[t].next < inst.shape.segment {
      s' := AliveCanStep(inst, m, s, t);
    } else {
      match s.main
      case Launch(l) =>
        if l == inst.shape.lanes {
          s' := s.(main := Collect(inst.shape.lanes - inst.threads));
        } else if l >= inst.threads {
          s' := s.(main := Create(l), threads := s.threads[l - inst.threads := Joined]);
        } else {
          s' := s.(main := Create(l));
        }
      case Create(l) =>
        s' := s.(main := Launch(l + 1), threads := s.threads[l := Alive(FirstIndex(s.pass, s.slice))]);
      case Collect(l) =>
        if l < inst.shape.lanes {
          s' := s.(main := Collect(l + 1), threads := s.threads[l := Joined]);
        } else if s.slice + 1 < SYNC_POINTS {
          s' := s.(slice := s.slice + 1, main := Launch(0), threads := AllIdle(inst));
        } else if s.pass + 1 < inst.passes {
          s' := s.(pass := s.pass + 1, slice := 0, main := Launch(0), threads := AllIdle(inst));
        } else {
          s' := s.(main := Finished);
        }
    }
  }

  ghost predicate Stuck(inst: Instance, s: State)
    requires inst.Valid()
  {
    forall s' :: !Next(inst, s, s')
  }

  /** All runs have the same number of steps before them: after `i` steps a run has
      `WorkFrom(0, 0) - i` left, so it cannot go on for ever, and by `NoDeadlock` it can only
      stop finished. */
  lemma {:induction false} EveryRunFinishes(inst: Instance, m: Grid, run: seq<State>)
    requires inst.Valid() && 0 < inst.passes && IsGrid(inst.shape, m) && Run(inst, m, run)
    ensures Work(inst, run[|run| - 1]) == WorkFrom(inst, 0, 0) - (|run| - 1)
    ensures run[|run| - 1].main.Finished? <==> Stuck(inst, run[|run| - 1])
  {
    hide Inv;
    hide Next;
    var s' := run[|run| - 1];
    RunInv(inst, m, run);
    if s'.main.Finished? {
      forall t ensures !Next(inst, s', t) {
        NoStepWhenQuiet(inst, s', t);
      }
    } else {
      var t := NoDeadlock(inst, m, s');
    }
    if |run| == 1 {
      assert Progress(inst, s') == Unstarted(inst, 0, 0);
    } else {
      var front := run[..|run| - 1];
      EveryRunFinishes(inst, m, front);
      RunInv(inst, m, front);
      var s := run[|run| - 2];
      assert front[|front| - 1] == s && Next(inst, s, s');
      StepCounts(inst, m, s, s');
    }
  }
}
