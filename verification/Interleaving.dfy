/**
 Lanes are independent inside a slice (external/argon2/core.c:301-404): whatever order the lanes'
 single-block steps are taken in, each lane's row is what that lane alone would have made of it.
 */
module Interleaving {
  import opened Words
  import opened Layout
  import opened ReferenceWindow
  import opened Fill

  /** Two memories that look the same to one lane while it fills a slice. */
  ghost predicate SameForLane(inst: Instance, a: Rows, b: Rows, slice: u32, lane: u32) {
    && ValidRows(inst, a) && ValidRows(inst, b) && lane < inst.lanes
    && a[lane] == b[lane]
    && forall l, c :: 0 <= l < inst.lanes && 0 <= c < inst.laneLength && !InSlice(inst, slice, c) ==> a[l][c] == b[l][c]
  }

  /** A lane's next block depends only on what such memories share. */
  lemma NewBlockIsLocal(g: Compression, inst: Instance, a: Rows, b: Rows, pos: Position)
    requires inst.Shaped() && ValidPosition(inst, pos)
    requires SameForLane(inst, a, b, pos.slice, pos.lane)
    ensures NewBlock(g, inst, a, pos) == NewBlock(g, inst, b, pos)
  {
    ColumnInLane(inst, pos);
    var word := PseudoRand(g, inst, a, pos);
    assert word == PseudoRand(g, inst, b, pos);
    var lane, column := RefLane(inst, pos, word), RefColumn(inst, pos, word);
    if lane != pos.lane {
      OtherLaneIsSafe(inst, pos, LowHalf(word));
      assert !InSlice(inst, pos.slice, column);
    }
    assert a[lane][column] == b[lane][column];
  }

  /** A block construction that sees no more than such memories share. */
  ghost predicate Local(next: Construct, inst: Instance) {
    forall a, b, pos {:trigger next(a, pos), SameForLane(inst, a, b, pos.slice, pos.lane)} |
      inst.Shaped() && ValidPosition(inst, pos) && SameForLane(inst, a, b, pos.slice, pos.lane) ::
      next(a, pos) == next(b, pos)
  }

  /** The reference window rules make fill_segment's block construction local, for every compression function. */
  lemma ConstructorIsLocal(g: Compression, inst: Instance)
    ensures Local(Constructor(g, inst), inst)
  {
    forall a, b, pos | inst.Shaped() && ValidPosition(inst, pos) && SameForLane(inst, a, b, pos.slice, pos.lane)
      ensures Constructor(g, inst)(a, pos) == Constructor(g, inst)(b, pos)
    {
      NewBlockIsLocal(g, inst, a, b, pos);
    }
  }


  // ----- Interleaved steps -----

  /** How far each lane has come in the slice. */
  type Progress = seq<u32>

  ghost predicate ValidProgress(inst: Instance, pass: u32, slice: u32, progress: Progress) {
    && |progress| == inst.lanes
    && forall l :: 0 <= l < |progress| ==> StartIndex(pass, slice) <= progress[l] <= inst.segmentLength
  }

  /** A row is the row its lane would have made alone, starting from the memory before the slice. */
  ghost predicate RowAsIfAlone(next: Construct, inst: Instance, before: Rows, now: Rows,
                               pass: u32, slice: u32, progress: Progress, lane: u32)
    requires ValidSlice(inst, pass, slice) && ValidRows(inst, before) && ValidRows(inst, now)
    requires ValidProgress(inst, pass, slice, progress) && lane < inst.lanes
  {
    now[lane] == Segment(next, inst, before, pass, slice, lane, progress[lane])[lane]
  }

  ghost predicate RowsAsIfAlone(next: Construct, inst: Instance, before: Rows, now: Rows,
                                pass: u32, slice: u32, progress: Progress)
    requires ValidSlice(inst, pass, slice) && ValidRows(inst, before) && ValidRows(inst, now)
    requires ValidProgress(inst, pass, slice, progress)
  {
    forall l | 0 <= l < inst.lanes :: RowAsIfAlone(next, inst, before, now, pass, slice, progress, l)
  }

  /** The progress once the first lanes have finished their segments and the others have not begun. */
  function SequentialProgress(inst: Instance, pass: u32, slice: u32, lanes: u32): Progress
    requires ValidSlice(inst, pass, slice) && lanes <= inst.lanes
  {
    seq(lanes, _ => inst.segmentLength) + seq(inst.lanes - lanes, _ => StartIndex(pass, slice))
  }

  lemma NothingDoneYet(next: Construct, inst: Instance, before: Rows, pass: u32, slice: u32)
    requires ValidSlice(inst, pass, slice) && ValidRows(inst, before)
    ensures RowsAsIfAlone(next, inst, before, before, pass, slice, SequentialProgress(inst, pass, slice, 0))
  {
  }

  /** Outside the slice being filled nothing has changed. */
  lemma OutsideTheSlice(next: Construct, inst: Instance, before: Rows, now: Rows,
                        pass: u32, slice: u32, progress: Progress)
    requires ValidSlice(inst, pass, slice) && ValidRows(inst, before) && ValidRows(inst, now)
    requires ValidProgress(inst, pass, slice, progress)
    requires RowsAsIfAlone(next, inst, before, now, pass, slice, progress)
    ensures forall l, c :: 0 <= l < inst.lanes && 0 <= c < inst.laneLength && !InSlice(inst, slice, c) ==>
              now[l][c] == before[l][c]
  {
    forall l, c | 0 <= l < inst.lanes && 0 <= c < inst.laneLength && !InSlice(inst, slice, c)
      ensures now[l][c] == before[l][c]
    {
      assert RowAsIfAlone(next, inst, before, now, pass, slice, progress, l);
      SegmentFrame(next, inst, before, pass, slice, l, progress[l]);
    }
  }

  /** To a lane, the interleaved memory looks like the memory it would have made alone. */
  lemma LooksAlone(next: Construct, inst: Instance, before: Rows, now: Rows,
                   pass: u32, slice: u32, progress: Progress, lane: u32)
    requires ValidSlice(inst, pass, slice) && ValidRows(inst, before) && ValidRows(inst, now)
    requires ValidProgress(inst, pass, slice, progress) && lane < inst.lanes
    requires RowsAsIfAlone(next, inst, before, now, pass, slice, progress)
    ensures SameForLane(inst, now, Segment(next, inst, before, pass, slice, lane, progress[lane]), slice, lane)
  {
    OutsideTheSlice(next, inst, before, now, pass, slice, progress);
    SegmentFrame(next, inst, before, pass, slice, lane, progress[lane]);
    assert RowAsIfAlone(next, inst, before, now, pass, slice, progress, lane);
  }

  /** One more block in one lane: the key step of the schedule-independence argument. */
  lemma StepKeepsRowsAsIfAlone(next: Construct, inst: Instance, before: Rows, now: Rows,
                               pass: u32, slice: u32, progress: Progress, lane: u32)
    requires Local(next, inst)
    requires ValidSlice(inst, pass, slice) && ValidRows(inst, before) && ValidRows(inst, now)
    requires ValidProgress(inst, pass, slice, progress)
    requires RowsAsIfAlone(next, inst, before, now, pass, slice, progress)
    requires lane < inst.lanes && progress[lane] < inst.segmentLength
    ensures RowsAsIfAlone(next, inst, before, Step(next, inst, now, Position(pass, lane, slice, progress[lane])),
                          pass, slice, progress[lane := progress[lane] + 1])
  {
    var pos := Position(pass, lane, slice, progress[lane]);
    var alone := Segment(next, inst, before, pass, slice, lane, progress[lane]);
    LooksAlone(next, inst, before, now, pass, slice, progress, lane);
    assert next(now, pos) == next(alone, pos);
    assert Segment(next, inst, before, pass, slice, lane, progress[lane] + 1) == Step(next, inst, alone, pos);
    ColumnInLane(inst, pos);
    assert RowAsIfAlone(next, inst, before, now, pass, slice, progress, lane);
    StepFrame(next, inst, now, pos);
    StepFrame(next, inst, alone, pos);
    assert Step(next, inst, now, pos)[lane] == Step(next, inst, alone, pos)[lane];
    var now', progress' := Step(next, inst, now, pos), progress[lane := progress[lane] + 1];
    forall l | 0 <= l < inst.lanes
      ensures RowAsIfAlone(next, inst, before, now', pass, slice, progress', l)
    {
      assert RowAsIfAlone(next, inst, before, now, pass, slice, progress, l);
    }
  }

  /** What a schedule of single-block steps, one lane number per step, makes of the memory. */
  function Run(next: Construct, inst: Instance, now: Rows, pass: u32, slice: u32,
               progress: Progress, schedule: seq<u32>): (r: (Rows, Progress))
    requires ValidSlice(inst, pass, slice) && ValidRows(inst, now) && ValidProgress(inst, pass, slice, progress)
    ensures ValidRows(inst, r.0) && ValidProgress(inst, pass, slice, r.1)
    decreases |schedule|
  {
    if schedule == [] then (now, progress)
    else
      var lane := schedule[0];
      // a step of a lane that does not exist, or that has finished its segment, is no step
      if lane < inst.lanes && progress[lane] < inst.segmentLength then
        Run(next, inst, Step(next, inst, now, Position(pass, lane, slice, progress[lane])), pass, slice,
            progress[lane := progress[lane] + 1], schedule[1..])
      else
        Run(next, inst, now, pass, slice, progress, schedule[1..])
  }

  lemma {:induction false} RunKeepsRowsAsIfAlone(next: Construct, inst: Instance, before: Rows, now: Rows,
                                                 pass: u32, slice: u32, progress: Progress, schedule: seq<u32>)
    requires Local(next, inst)
    requires ValidSlice(inst, pass, slice) && ValidRows(inst, before) && ValidRows(inst, now)
    requires ValidProgress(inst, pass, slice, progress)
    requires RowsAsIfAlone(next, inst, before, now, pass, slice, progress)
    ensures var r := Run(next, inst, now, pass, slice, progress, schedule);
            RowsAsIfAlone(next, inst, before, r.0, pass, slice, r.1)
    decreases |schedule|
  {
    if schedule != [] {
      var lane := schedule[0];
      if lane < inst.lanes && progress[lane] < inst.segmentLength {
        StepKeepsRowsAsIfAlone(next, inst, before, now, pass, slice, progress, lane);
        RunKeepsRowsAsIfAlone(next, inst, before, Step(next, inst, now, Position(pass, lane, slice, progress[lane])),
                              pass, slice, progress[lane := progress[lane] + 1], schedule[1..]);
      } else {
        RunKeepsRowsAsIfAlone(next, inst, before, now, pass, slice, progress, schedule[1..]);
      }
    }
  }

  ghost predicate Finished(inst: Instance, progress: Progress)
    requires |progress| == inst.lanes
  {
    forall l :: 0 <= l < inst.lanes ==> progress[l] == inst.segmentLength
  }

  // ----- The single-threaded order is one of the interleavings -----

  lemma {:induction false} SegmentKeepsRowsAsIfAlone(next: Construct, inst: Instance, before: Rows, now: Rows,
                                                     pass: u32, slice: u32, progress: Progress, lane: u32, index: u32)
    requires Local(next, inst)
    requires ValidSlice(inst, pass, slice) && ValidRows(inst, before) && ValidRows(inst, now)
    requires ValidProgress(inst, pass, slice, progress)
    requires RowsAsIfAlone(next, inst, before, now, pass, slice, progress)
    requires lane < inst.lanes && progress[lane] == StartIndex(pass, slice) <= index <= inst.segmentLength
    ensures RowsAsIfAlone(next, inst, before, Segment(next, inst, now, pass, slice, lane, index),
                          pass, slice, progress[lane := index])
    decreases index
  {
    if index == StartIndex(pass, slice) {
      assert progress[lane := index] == progress;
    } else {
      SegmentKeepsRowsAsIfAlone(next, inst, before, now, pass, slice, progress, lane, index - 1);
      var half := progress[lane := index - 1];
      StepKeepsRowsAsIfAlone(next, inst, before, Segment(next, inst, now, pass, slice, lane, index - 1),
                             pass, slice, half, lane);
      assert half[lane := half[lane] + 1] == progress[lane := index];
    }
  }

  lemma OneMoreLane(inst: Instance, pass: u32, slice: u32, lanes: u32)
    requires ValidSlice(inst, pass, slice) && 0 < lanes <= inst.lanes
    ensures var progress := SequentialProgress(inst, pass, slice, lanes - 1);
            && ValidProgress(inst, pass, slice, progress) && progress[lanes - 1] == StartIndex(pass, slice)
            && progress[lanes - 1 := inst.segmentLength] == SequentialProgress(inst, pass, slice, lanes)
  {
  }

  lemma {:induction false} SliceIsAnInterleaving(next: Construct, inst: Instance, before: Rows, pass: u32, slice: u32,
                                                 lanes: u32)
    requires Local(next, inst)
    requires ValidSlice(inst, pass, slice) && ValidRows(inst, before) && lanes <= inst.lanes
    ensures RowsAsIfAlone(next, inst, before, Slice(next, inst, before, pass, slice, lanes),
                          pass, slice, SequentialProgress(inst, pass, slice, lanes))
    decreases lanes
  {
    if lanes == 0 {
      NothingDoneYet(next, inst, before, pass, slice);
    } else {
      SliceIsAnInterleaving(next, inst, before, pass, slice, lanes - 1);
      OneMoreLane(inst, pass, slice, lanes);
      SegmentKeepsRowsAsIfAlone(next, inst, before, Slice(next, inst, before, pass, slice, lanes - 1), pass, slice,
                                SequentialProgress(inst, pass, slice, lanes - 1), lanes - 1, inst.segmentLength);
    }
  }

  /** Once every lane is done, there is only one memory it can be: the one of the single-threaded order. */
  lemma FinishedMeansSequential(next: Construct, inst: Instance, before: Rows, now: Rows,
                                pass: u32, slice: u32, progress: Progress)
    requires Local(next, inst)
    requires ValidSlice(inst, pass, slice) && ValidRows(inst, before) && ValidRows(inst, now)
    requires ValidProgress(inst, pass, slice, progress)
    requires RowsAsIfAlone(next, inst, before, now, pass, slice, progress) && Finished(inst, progress)
    ensures now == Slice(next, inst, before, pass, slice, inst.lanes)
  {
    var sequential := Slice(next, inst, before, pass, slice, inst.lanes);
    SliceIsAnInterleaving(next, inst, before, pass, slice, inst.lanes);
    assert progress == SequentialProgress(inst, pass, slice, inst.lanes);
    forall l | 0 <= l < inst.lanes
      ensures now[l] == sequential[l]
    {
      assert RowAsIfAlone(next, inst, before, now, pass, slice, progress, l);
      assert RowAsIfAlone(next, inst, before, sequential, pass, slice, progress, l);
    }
  }

  lemma LocalInterleavingIsSequential(next: Construct, inst: Instance, before: Rows, pass: u32, slice: u32,
                                      schedule: seq<u32>)
    requires Local(next, inst)
    requires ValidSlice(inst, pass, slice) && ValidRows(inst, before)
    ensures var r := Run(next, inst, before, pass, slice, SequentialProgress(inst, pass, slice, 0), schedule);
            Finished(inst, r.1) ==> r.0 == Slice(next, inst, before, pass, slice, inst.lanes)
  {
    var start := SequentialProgress(inst, pass, slice, 0);
    NothingDoneYet(next, inst, before, pass, slice);
    RunKeepsRowsAsIfAlone(next, inst, before, before, pass, slice, start, schedule);
    var r := Run(next, inst, before, pass, slice, start, schedule);
    if Finished(inst, r.1) {
      FinishedMeansSequential(next, inst, before, r.0, pass, slice, r.1);
    }
  }

  /**
   Any interleaving of the lanes' steps that finishes the slice leaves the single-threaded memory, whatever the
   compression function.
   */
  lemma AnyInterleavingIsSequential(g: Compression, inst: Instance, before: Rows, pass: u32, slice: u32,
                                    schedule: seq<u32>)
    requires ValidSlice(inst, pass, slice) && ValidRows(inst, before)
    ensures var next := Constructor(g, inst);
            var r := Run(next, inst, before, pass, slice, SequentialProgress(inst, pass, slice, 0), schedule);
            Finished(inst, r.1) ==> r.0 == Slice(next, inst, before, pass, slice, inst.lanes)
  {
    ConstructorIsLocal(g, inst);
    LocalInterleavingIsSequential(Constructor(g, inst), inst, before, pass, slice, schedule);
  }
}
