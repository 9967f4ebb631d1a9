/**
 Every pass constructs every block exactly once, apart from the two blocks a lane that
 fill_first_blocks supplies before pass 0, and pass 0 never reads a block that was not written:
 what the memory held before has no influence (external/argon2/ref.c:130-208, external/argon2/core.c:565-595).
 */
module Coverage {
  import opened Words
  import opened Layout
  import opened ReferenceWindow
  import opened Fill

  // ----- Exactly one construction per block and pass -----

  /** The slice and the index at which a pass constructs a column. */
  function PositionOf(inst: Instance, pass: u32, lane: u32, column: nat): Position
    requires inst.Shaped() && column < inst.laneLength
  {
    var s := inst.segmentLength;
    if column < s then Position(pass, lane, 0, column)
    else if column < 2 * s then Position(pass, lane, 1, column - s)
    else if column < 3 * s then Position(pass, lane, 2, column - 2 * s)
    else Position(pass, lane, 3, column - 3 * s)
  }

  lemma ConstructedExactlyOnce(inst: Instance, pass: u32, lane: u32, column: nat, pos: Position)
    requires inst.Shaped() && pass < inst.passes && lane < inst.lanes && column < inst.laneLength
    requires pos.pass == pass && pos.lane == lane
    ensures ValidPosition(inst, pos) && Column(inst, pos) == column
            <==> pos == PositionOf(inst, pass, lane, column) && (pass == 0 ==> 2 <= column)
  {
    SliceStarts(inst);
  }

  // ----- What each pass writes -----

  /** The block at an index of a segment is what was constructed there; the rest of the segment leaves it alone. */
  lemma {:induction false} SegmentWrites(next: Construct, inst: Instance, rows: Rows, pass: u32, slice: u32, lane: u32,
                                         index: u32, i: u32)
    requires ValidSlice(inst, pass, slice) && ValidRows(inst, rows) && lane < inst.lanes
    requires StartIndex(pass, slice) <= i < index <= inst.segmentLength
    ensures SliceStart(inst, slice) + i < inst.laneLength
    ensures Segment(next, inst, rows, pass, slice, lane, index)[lane][SliceStart(inst, slice) + i]
            == next(Segment(next, inst, rows, pass, slice, lane, i), Position(pass, lane, slice, i))
    decreases index
  {
    var pos := Position(pass, lane, slice, index - 1);
    ColumnInLane(inst, pos);
    StepFrame(next, inst, Segment(next, inst, rows, pass, slice, lane, index - 1), pos);
    if i < index - 1 {
      SegmentWrites(next, inst, rows, pass, slice, lane, index - 1, i);
    }
  }

  /** A slice writes only its own columns, and only in the lanes that have been filled. */
  lemma {:induction false} SliceFrame(next: Construct, inst: Instance, rows: Rows, pass: u32, slice: u32, lanes: u32,
                                      l: u32, c: nat)
    requires ValidSlice(inst, pass, slice) && ValidRows(inst, rows) && lanes <= inst.lanes && l < inst.lanes
             && c < inst.laneLength
    requires lanes <= l || c < SliceStart(inst, slice) + StartIndex(pass, slice)
             || SliceStart(inst, slice) + inst.segmentLength <= c
    ensures Slice(next, inst, rows, pass, slice, lanes)[l][c] == rows[l][c]
    decreases lanes
  {
    if lanes != 0 {
      SliceFrame(next, inst, rows, pass, slice, lanes - 1, l, c);
      SegmentFrame(next, inst, Slice(next, inst, rows, pass, slice, lanes - 1), pass, slice, lanes - 1,
                   inst.segmentLength);
    }
  }

  lemma {:induction false} SliceWrites(next: Construct, inst: Instance, rows: Rows, pass: u32, slice: u32, lanes: u32,
                                       lane: u32, i: u32)
    requires ValidSlice(inst, pass, slice) && ValidRows(inst, rows) && lane < lanes <= inst.lanes
    requires StartIndex(pass, slice) <= i < inst.segmentLength
    ensures SliceStart(inst, slice) + i < inst.laneLength
    ensures Slice(next, inst, rows, pass, slice, lanes)[lane][SliceStart(inst, slice) + i]
            == next(Segment(next, inst, Slice(next, inst, rows, pass, slice, lane), pass, slice, lane, i),
                    Position(pass, lane, slice, i))
    decreases lanes
  {
    var before := Slice(next, inst, rows, pass, slice, lanes - 1);
    if lane == lanes - 1 {
      SegmentWrites(next, inst, before, pass, slice, lane, inst.segmentLength, i);
    } else {
      SliceWrites(next, inst, rows, pass, slice, lanes - 1, lane, i);
      SegmentFrame(next, inst, before, pass, slice, lanes - 1, inst.segmentLength);
    }
  }

  /** The memory when slice `slice` of a pass begins; slice 4 is the end of the pass. */
  function MemoryAt(next: Construct, inst: Instance, rows: Rows, pass: nat, slice: nat): (r: Rows)
    requires inst.Shaped() && ValidRows(inst, rows) && pass < inst.passes && slice <= 4
    ensures ValidRows(inst, r)
  {
    Slices(next, inst, rows, 4 * pass + slice)
  }

  lemma NextMemory(next: Construct, inst: Instance, rows: Rows, pass: u32, slice: u32)
    requires inst.Shaped() && ValidRows(inst, rows) && pass < inst.passes && slice < 4
    ensures MemoryAt(next, inst, rows, pass, slice + 1)
            == Slice(next, inst, MemoryAt(next, inst, rows, pass, slice), pass, slice, inst.lanes)
  {
    var n := 4 * pass + slice;
    assert n / SYNC_POINTS == pass && n % SYNC_POINTS == slice;
  }

  lemma LaterStart(inst: Instance, s: nat, t: nat)
    requires inst.Shaped() && s <= t <= 4
    ensures SliceStart(inst, s) <= SliceStart(inst, t)
  {
    SliceStarts(inst);
    assert SliceStart(inst, 4) == SliceStart(inst, 3) + inst.segmentLength;
  }

  /** The later slices of a pass leave the columns before them alone. */
  lemma {:induction false} LaterSlicesKeep(next: Construct, inst: Instance, rows: Rows, pass: u32, s: nat, t: nat,
                                           lane: u32, column: nat)
    requires inst.Shaped() && ValidRows(inst, rows) && pass < inst.passes && s <= t <= 4
    requires lane < inst.lanes && column < inst.laneLength && column < SliceStart(inst, s)
    ensures MemoryAt(next, inst, rows, pass, t)[lane][column] == MemoryAt(next, inst, rows, pass, s)[lane][column]
    decreases t
  {
    if s < t {
      LaterSlicesKeep(next, inst, rows, pass, s, t - 1, lane, column);
      NextMemory(next, inst, rows, pass, t - 1);
      LaterStart(inst, s, t - 1);
      SliceFrame(next, inst, MemoryAt(next, inst, rows, pass, t - 1), pass, t - 1, inst.lanes, lane, column);
    }
  }

  /** The memory as the loops find it when they come to a position. */
  function MemoryBefore(next: Construct, inst: Instance, rows: Rows, pos: Position): (r: Rows)
    requires inst.Shaped() && ValidRows(inst, rows) && ValidPosition(inst, pos)
    ensures ValidRows(inst, r)
  {
    var slice := Slice(next, inst, MemoryAt(next, inst, rows, pos.pass, pos.slice), pos.pass, pos.slice, pos.lane);
    Segment(next, inst, slice, pos.pass, pos.slice, pos.lane, pos.index)
  }

  lemma PlaceOf(inst: Instance, pass: u32, lane: u32, column: nat)
    requires inst.Shaped() && pass < inst.passes && lane < inst.lanes && column < inst.laneLength
    ensures var pos := PositionOf(inst, pass, lane, column);
            && pos.pass == pass && pos.lane == lane && pos.slice < 4 && pos.index < inst.segmentLength
            && column == SliceStart(inst, pos.slice) + pos.index && column < SliceStart(inst, pos.slice + 1)
            && (pass == 0 && column < 2 <==> pos.index < StartIndex(pass, pos.slice))
  {
    SliceStarts(inst);
    assert SliceStart(inst, 4) == SliceStart(inst, 3) + inst.segmentLength;
  }

  lemma SliceInLane(inst: Instance, slice: u32)
    requires inst.Shaped() && slice < 4
    ensures SliceStart(inst, slice) + inst.segmentLength <= inst.laneLength
  {
    SliceStarts(inst);
  }

  /** The block of a position after its slice. */
  lemma WrittenInSlice(next: Construct, inst: Instance, before: Rows, after: Rows, pos: Position)
    requires ValidSlice(inst, pos.pass, pos.slice) && ValidRows(inst, before) && pos.lane < inst.lanes
             && pos.index < inst.segmentLength
    requires after == Slice(next, inst, before, pos.pass, pos.slice, inst.lanes)
    ensures Column(inst, pos) < inst.laneLength
    ensures if pos.index < StartIndex(pos.pass, pos.slice)
            then after[pos.lane][Column(inst, pos)] == before[pos.lane][Column(inst, pos)]
            else after[pos.lane][Column(inst, pos)]
                 == next(Segment(next, inst, Slice(next, inst, before, pos.pass, pos.slice, pos.lane),
                                 pos.pass, pos.slice, pos.lane, pos.index), pos)
  {
    SliceInLane(inst, pos.slice);
    if pos.index < StartIndex(pos.pass, pos.slice) {
      SliceFrame(next, inst, before, pos.pass, pos.slice, inst.lanes, pos.lane, Column(inst, pos));
    } else {
      SliceWrites(next, inst, before, pos.pass, pos.slice, inst.lanes, pos.lane, pos.index);
    }
  }

  /**
   After a pass every block is what its one position constructed, from the memory as it was then; the first two blocks
   of each lane are left alone by pass 0.
   */
  lemma EachBlockWrittenOnce(next: Construct, inst: Instance, rows: Rows, pass: u32, lane: u32, column: nat)
    requires inst.Shaped() && ValidRows(inst, rows) && pass < inst.passes && lane < inst.lanes
             && column < inst.laneLength
    ensures var pos := PositionOf(inst, pass, lane, column);
            if pass == 0 && column < 2 then MemoryAt(next, inst, rows, pass, 4)[lane][column] == rows[lane][column]
            else ValidPosition(inst, pos)
                 && MemoryAt(next, inst, rows, pass, 4)[lane][column] == next(MemoryBefore(next, inst, rows, pos), pos)
  {
    var pos := PositionOf(inst, pass, lane, column);
    PlaceOf(inst, pass, lane, column);
    LaterSlicesKeep(next, inst, rows, pass, pos.slice + 1, 4, lane, column);
    NextMemory(next, inst, rows, pass, pos.slice);
    WrittenInSlice(next, inst, MemoryAt(next, inst, rows, pass, pos.slice),
                   MemoryAt(next, inst, rows, pass, pos.slice + 1), pos);
  }

  // ----- Pass 0 reads only what was written -----

  /** Columns below its front agree in each lane. */
  type Front = seq<nat>

  ghost predicate RowAgrees(inst: Instance, a: Rows, b: Rows, lane: nat, front: nat)
    requires ValidRows(inst, a) && ValidRows(inst, b) && lane < inst.lanes
  {
    forall c :: 0 <= c < front && c < inst.laneLength ==> a[lane][c] == b[lane][c]
  }

  ghost predicate Agree(inst: Instance, a: Rows, b: Rows, front: Front)
    requires ValidRows(inst, a) && ValidRows(inst, b)
  {
    |front| == inst.lanes && forall l | 0 <= l < inst.lanes :: RowAgrees(inst, a, b, l, front[l])
  }

  /** What a position of pass 0 may look at: its own lane behind it, the finished slices of all lanes. */
  ghost predicate Behind(inst: Instance, pos: Position, front: Front) {
    && |front| == inst.lanes && pos.lane < inst.lanes
    && front[pos.lane] == Column(inst, pos)
    && forall l :: 0 <= l < inst.lanes ==> SliceStart(inst, pos.slice) <= front[l]
  }

  ghost predicate ReadsBack(next: Construct, inst: Instance) {
    forall a, b, pos, front {:trigger next(a, pos), Agree(inst, a, b, front)} |
      && inst.Shaped() && ValidPosition(inst, pos) && pos.pass == 0
      && ValidRows(inst, a) && ValidRows(inst, b) && Agree(inst, a, b, front) && Behind(inst, pos, front) ::
      next(a, pos) == next(b, pos)
  }

  lemma NewBlockReadsBack(g: Compression, inst: Instance, a: Rows, b: Rows, pos: Position, front: Front)
    requires inst.Shaped() && ValidPosition(inst, pos) && pos.pass == 0
    requires ValidRows(inst, a) && ValidRows(inst, b) && Agree(inst, a, b, front) && Behind(inst, pos, front)
    ensures NewBlock(g, inst, a, pos) == NewBlock(g, inst, b, pos)
  {
    SliceStarts(inst);
    ColumnInLane(inst, pos);
    assert RowAgrees(inst, a, b, pos.lane, front[pos.lane]);
    var word := PseudoRand(g, inst, a, pos);
    assert word == PseudoRand(g, inst, b, pos);
    var lane, column := RefLane(inst, pos, word), RefColumn(inst, pos, word);
    FirstPassRefersBack(inst, pos, LowHalf(word), lane == pos.lane);
    assert RowAgrees(inst, a, b, lane, front[lane]);
    assert a[lane][column] == b[lane][column];
  }

  lemma ConstructorReadsBack(g: Compression, inst: Instance)
    ensures ReadsBack(Constructor(g, inst), inst)
  {
    forall a, b, pos, front |
      && inst.Shaped() && ValidPosition(inst, pos) && pos.pass == 0
      && ValidRows(inst, a) && ValidRows(inst, b) && Agree(inst, a, b, front) && Behind(inst, pos, front)
      ensures Constructor(g, inst)(a, pos) == Constructor(g, inst)(b, pos)
    {
      NewBlockReadsBack(g, inst, a, b, pos, front);
    }
  }

  lemma StepExtendsFront(next: Construct, inst: Instance, a: Rows, b: Rows, pos: Position, front: Front)
    requires ReadsBack(next, inst)
    requires inst.Shaped() && ValidPosition(inst, pos) && pos.pass == 0
    requires ValidRows(inst, a) && ValidRows(inst, b) && Agree(inst, a, b, front) && Behind(inst, pos, front)
    ensures Agree(inst, Step(next, inst, a, pos), Step(next, inst, b, pos), front[pos.lane := Column(inst, pos) + 1])
  {
    var a', b', front' := Step(next, inst, a, pos), Step(next, inst, b, pos), front[pos.lane := Column(inst, pos) + 1];
    assert next(a, pos) == next(b, pos);
    ColumnInLane(inst, pos);
    StepFrame(next, inst, a, pos);
    StepFrame(next, inst, b, pos);
    forall l | 0 <= l < inst.lanes
      ensures RowAgrees(inst, a', b', l, front'[l])
    {
      assert RowAgrees(inst, a, b, l, front[l]);
    }
  }

  /** A front that is level with the start of the slice, or with its third block in the first slice. */
  ghost predicate AtLeast(inst: Instance, slice: u32, front: Front) {
    |front| == inst.lanes && forall l :: 0 <= l < inst.lanes ==> SliceStart(inst, slice) <= front[l]
  }

  lemma {:induction false} SegmentExtendsFront(next: Construct, inst: Instance, a: Rows, b: Rows,
                                               slice: u32, lane: u32, index: u32, front: Front)
    requires ReadsBack(next, inst) && ValidSlice(inst, 0, slice)
    requires ValidRows(inst, a) && ValidRows(inst, b) && Agree(inst, a, b, front) && AtLeast(inst, slice, front)
    requires lane < inst.lanes && StartIndex(0, slice) <= index <= inst.segmentLength
    requires front[lane] == SliceStart(inst, slice) + StartIndex(0, slice)
    ensures Agree(inst, Segment(next, inst, a, 0, slice, lane, index), Segment(next, inst, b, 0, slice, lane, index),
                  front[lane := SliceStart(inst, slice) + index])
    decreases index
  {
    if index == StartIndex(0, slice) {
      assert front[lane := front[lane]] == front;
    } else {
      SegmentExtendsFront(next, inst, a, b, slice, lane, index - 1, front);
      var pos := Position(0, lane, slice, index - 1);
      var half := front[lane := SliceStart(inst, slice) + (index - 1)];
      assert Behind(inst, pos, half);
      StepExtendsFront(next, inst, Segment(next, inst, a, 0, slice, lane, index - 1),
                       Segment(next, inst, b, 0, slice, lane, index - 1), pos, half);
      assert half[lane := Column(inst, pos) + 1] == front[lane := SliceStart(inst, slice) + index];
    }
  }

  /** The front in pass 0 when the first lanes have finished the slice. */
  function SliceFront(inst: Instance, slice: u32, lanes: u32): Front
    requires ValidSlice(inst, 0, slice) && lanes <= inst.lanes
  {
    seq(lanes, _ => SliceStart(inst, slice) + inst.segmentLength)
    + seq(inst.lanes - lanes, _ => SliceStart(inst, slice) + StartIndex(0, slice))
  }

  lemma OneMoreLane(inst: Instance, slice: u32, lanes: u32)
    requires ValidSlice(inst, 0, slice) && 0 < lanes <= inst.lanes
    ensures var front := SliceFront(inst, slice, lanes - 1);
            && AtLeast(inst, slice, front) && front[lanes - 1] == SliceStart(inst, slice) + StartIndex(0, slice)
            && front[lanes - 1 := SliceStart(inst, slice) + inst.segmentLength] == SliceFront(inst, slice, lanes)
  {
  }

  lemma {:induction false} SliceExtendsFront(next: Construct, inst: Instance, a: Rows, b: Rows, slice: u32, lanes: u32)
    requires ReadsBack(next, inst) && ValidSlice(inst, 0, slice) && lanes <= inst.lanes
    requires ValidRows(inst, a) && ValidRows(inst, b) && Agree(inst, a, b, SliceFront(inst, slice, 0))
    ensures Agree(inst, Slice(next, inst, a, 0, slice, lanes), Slice(next, inst, b, 0, slice, lanes),
                  SliceFront(inst, slice, lanes))
    decreases lanes
  {
    if lanes != 0 {
      SliceExtendsFront(next, inst, a, b, slice, lanes - 1);
      OneMoreLane(inst, slice, lanes);
      SegmentExtendsFront(next, inst, Slice(next, inst, a, 0, slice, lanes - 1),
                          Slice(next, inst, b, 0, slice, lanes - 1),
                          slice, lanes - 1, inst.segmentLength, SliceFront(inst, slice, lanes - 1));
    }
  }

  lemma {:induction false} FirstSlicesExtendFront(next: Construct, inst: Instance, a: Rows, b: Rows, n: nat)
    requires ReadsBack(next, inst) && inst.Shaped() && n < SYNC_POINTS
    requires ValidRows(inst, a) && ValidRows(inst, b) && Agree(inst, a, b, SliceFront(inst, 0, 0))
    ensures Agree(inst, Slices(next, inst, a, n), Slices(next, inst, b, n), SliceFront(inst, n, 0))
  {
    if n != 0 {
      FirstSlicesExtendFront(next, inst, a, b, n - 1);
      SliceExtendsFront(next, inst, Slices(next, inst, a, n - 1), Slices(next, inst, b, n - 1), n - 1, inst.lanes);
      NextSlice(inst, n - 1);
    }
  }

  lemma NextSlice(inst: Instance, slice: u32)
    requires ValidSlice(inst, 0, slice) && slice < 3
    ensures SliceFront(inst, slice, inst.lanes) == SliceFront(inst, slice + 1, 0)
  {
    SliceStarts(inst);
    assert SliceStart(inst, slice) + inst.segmentLength == SliceStart(inst, slice + 1);
  }

  lemma FirstPassAgrees(next: Construct, inst: Instance, a: Rows, b: Rows)
    requires ReadsBack(next, inst) && inst.Shaped()
    requires ValidRows(inst, a) && ValidRows(inst, b) && Agree(inst, a, b, SliceFront(inst, 0, 0))
    ensures Slices(next, inst, a, 4) == Slices(next, inst, b, 4)
  {
    FirstSlicesExtendFront(next, inst, a, b, 3);
    var a', b' := Slices(next, inst, a, 4), Slices(next, inst, b, 4);
    SliceExtendsFront(next, inst, Slices(next, inst, a, 3), Slices(next, inst, b, 3), 3, inst.lanes);
    SliceStarts(inst);
    forall l | 0 <= l < inst.lanes
      ensures a'[l] == b'[l]
    {
      assert RowAgrees(inst, a', b', l, SliceFront(inst, 3, inst.lanes)[l]);
    }
  }

  lemma {:induction false} LaterSlicesAgree(next: Construct, inst: Instance, a: Rows, b: Rows, n: nat)
    requires inst.Shaped() && ValidRows(inst, a) && ValidRows(inst, b)
    requires Slices(next, inst, a, 4) == Slices(next, inst, b, 4) && 4 <= n <= SYNC_POINTS * inst.passes
    ensures Slices(next, inst, a, n) == Slices(next, inst, b, n)
  {
    if n != 4 {
      LaterSlicesAgree(next, inst, a, b, n - 1);
    }
  }

  /**
   The filled memory is a function of the first two blocks of each lane: no block of the freshly
   allocated memory is read before it is written.
   */
  lemma FirstBlocksDetermineTheFill(g: Compression, inst: Instance, a: Rows, b: Rows)
    requires inst.Shaped() && ValidRows(inst, a) && ValidRows(inst, b)
    requires forall l :: 0 <= l < inst.lanes ==> a[l][0] == b[l][0] && a[l][1] == b[l][1]
    ensures Filled(g, inst, a) == Filled(g, inst, b)
  {
    var next := Constructor(g, inst);
    ConstructorReadsBack(g, inst);
    SliceStarts(inst);
    forall l | 0 <= l < inst.lanes
      ensures RowAgrees(inst, a, b, l, SliceFront(inst, 0, 0)[l])
    {
    }
    FirstPassAgrees(next, inst, a, b);
    LaterSlicesAgree(next, inst, a, b, SYNC_POINTS * inst.passes);
  }
}
