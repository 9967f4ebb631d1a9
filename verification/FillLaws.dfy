/**
 The single-threaded fill as a row of steps (external/argon2/core.c:301-319, external/argon2/ref.c:154-208): which
 position comes first, which after which, which last, and what memory each of them finds.
 */
module FillLaws {
  import opened Words
  import opened Layout
  import opened Fill
  import opened Coverage

  /** `b` is the position the loops come to after `a`: along the segment, then the lanes, then the slices and passes. */
  ghost predicate Follows(inst: Instance, a: Position, b: Position) {
    if a.index + 1 < inst.segmentLength then
      b.pass == a.pass && b.slice == a.slice && b.lane == a.lane && b.index == a.index + 1
    else if a.lane + 1 < inst.lanes then
      && b.pass == a.pass && b.slice == a.slice && b.lane == a.lane + 1
      && b.index == (if a.pass == 0 && a.slice == 0 then 2 else 0)
    else
      && b.lane == 0 && b.index == 0
      && (if a.slice < 3 then b.pass == a.pass && b.slice == a.slice + 1 else b.pass == a.pass + 1 && b.slice == 0)
  }

  /** The memory once the last block of a segment has been put in its place. */
  lemma SegmentEnds(next: Construct, inst: Instance, rows: Rows, pos: Position)
    requires inst.Shaped() && ValidRows(inst, rows) && ValidPosition(inst, pos) && pos.index + 1 == inst.segmentLength
    ensures var before := MemoryAt(next, inst, rows, pos.pass, pos.slice);
            Slice(next, inst, before, pos.pass, pos.slice, pos.lane + 1)
            == Step(next, inst, MemoryBefore(next, inst, rows, pos), pos)
  {
  }

  lemma SliceEnds(next: Construct, inst: Instance, rows: Rows, pos: Position)
    requires inst.Shaped() && ValidRows(inst, rows) && ValidPosition(inst, pos)
    requires pos.index + 1 == inst.segmentLength && pos.lane + 1 == inst.lanes
    ensures MemoryAt(next, inst, rows, pos.pass, pos.slice + 1)
            == Step(next, inst, MemoryBefore(next, inst, rows, pos), pos)
  {
    SegmentEnds(next, inst, rows, pos);
    NextMemory(next, inst, rows, pos.pass, pos.slice);
  }

  lemma SegmentBegins(next: Construct, inst: Instance, rows: Rows, pos: Position)
    requires inst.Shaped() && ValidRows(inst, rows) && ValidPosition(inst, pos)
    requires pos.index == StartIndex(pos.pass, pos.slice)
    ensures MemoryBefore(next, inst, rows, pos)
            == Slice(next, inst, MemoryAt(next, inst, rows, pos.pass, pos.slice), pos.pass, pos.slice, pos.lane)
  {
  }

  lemma PassEnds(next: Construct, inst: Instance, rows: Rows, pass: nat)
    requires inst.Shaped() && ValidRows(inst, rows) && pass + 1 < inst.passes
    ensures MemoryAt(next, inst, rows, pass, 4) == MemoryAt(next, inst, rows, pass + 1, 0)
  {
    assert 4 * pass + 4 == 4 * (pass + 1) + 0;
  }

  lemma AlongSegment(next: Construct, inst: Instance, rows: Rows, a: Position, b: Position)
    requires inst.Shaped() && ValidRows(inst, rows) && ValidPosition(inst, a) && ValidPosition(inst, b)
    requires b == a.(index := b.index) && b.index == a.index + 1
    ensures MemoryBefore(next, inst, rows, b) == Step(next, inst, MemoryBefore(next, inst, rows, a), a)
  {
  }

  lemma ToNextLane(next: Construct, inst: Instance, rows: Rows, a: Position, b: Position)
    requires inst.Shaped() && ValidRows(inst, rows) && ValidPosition(inst, a) && ValidPosition(inst, b)
    requires a.index + 1 == inst.segmentLength && b.pass == a.pass && b.slice == a.slice && b.lane == a.lane + 1
    requires b.index == StartIndex(b.pass, b.slice)
    ensures MemoryBefore(next, inst, rows, b) == Step(next, inst, MemoryBefore(next, inst, rows, a), a)
  {
    SegmentBegins(next, inst, rows, b);
    SegmentEnds(next, inst, rows, a);
  }

  lemma ToNextSlice(next: Construct, inst: Instance, rows: Rows, a: Position, b: Position)
    requires inst.Shaped() && ValidRows(inst, rows) && ValidPosition(inst, a) && ValidPosition(inst, b)
    requires a.index + 1 == inst.segmentLength && a.lane + 1 == inst.lanes && b.lane == 0 && b.index == 0
    requires if a.slice < 3 then b.pass == a.pass && b.slice == a.slice + 1 else b.pass == a.pass + 1 && b.slice == 0
    ensures MemoryBefore(next, inst, rows, b) == Step(next, inst, MemoryBefore(next, inst, rows, a), a)
  {
    SliceEnds(next, inst, rows, a);
    SegmentBegins(next, inst, rows, b);
    if a.slice == 3 {
      PassEnds(next, inst, rows, a.pass);
    }
  }

  /** The memory found at the next position is the memory found at this one with this one's block put in its place. */
  lemma NextFinds(next: Construct, inst: Instance, rows: Rows, a: Position, b: Position)
    requires inst.Shaped() && ValidRows(inst, rows) && ValidPosition(inst, a) && ValidPosition(inst, b)
    requires Follows(inst, a, b)
    ensures MemoryBefore(next, inst, rows, b) == Step(next, inst, MemoryBefore(next, inst, rows, a), a)
  {
    if a.index + 1 < inst.segmentLength {
      AlongSegment(next, inst, rows, a, b);
    } else if a.lane + 1 < inst.lanes {
      ToNextLane(next, inst, rows, a, b);
    } else {
      ToNextSlice(next, inst, rows, a, b);
    }
  }

  /** Segments of two blocks have nothing to construct in the first slice. */
  lemma {:induction false} NothingToConstruct(next: Construct, inst: Instance, rows: Rows, lanes: u32)
    requires inst.Shaped() && ValidRows(inst, rows) && inst.segmentLength == 2 && lanes <= inst.lanes
    ensures Slice(next, inst, rows, 0, 0, lanes) == rows
    decreases lanes
  {
    if lanes != 0 {
      NothingToConstruct(next, inst, rows, lanes - 1);
    }
  }

  /** The first position is behind the two blocks of lane 0, and finds the memory as it was given. */
  lemma FirstFinds(next: Construct, inst: Instance, rows: Rows, first: Position)
    requires inst.Shaped() && ValidRows(inst, rows)
    requires first == if inst.segmentLength > 2 then Position(0, 0, 0, 2) else Position(0, 0, 1, 0)
    ensures ValidPosition(inst, first) && MemoryBefore(next, inst, rows, first) == rows
  {
    assert MemoryAt(next, inst, rows, 0, 0) == rows;
    if inst.segmentLength == 2 {
      NextMemory(next, inst, rows, 0, 0);
      NothingToConstruct(next, inst, rows, inst.lanes);
    }
  }

  /** The last position is the last block of the last lane and pass; what it leaves is the memory after all passes. */
  lemma LastLeaves(next: Construct, inst: Instance, rows: Rows, last: Position)
    requires inst.Shaped() && ValidRows(inst, rows)
    requires last == Position(inst.passes - 1, inst.lanes - 1, 3, inst.segmentLength - 1)
    ensures ValidPosition(inst, last)
    ensures MemoryAt(next, inst, rows, inst.passes - 1, 4)
            == Step(next, inst, MemoryBefore(next, inst, rows, last), last)
  {
    SliceEnds(next, inst, rows, last);
  }

  /** And that is the fill, with the blocks constructed as fill_segment does. */
  lemma FilledIsLast(g: Compression, inst: Instance, rows: Rows, next: Construct)
    requires inst.Shaped() && ValidRows(inst, rows) && next == Constructor(g, inst)
    ensures Filled(g, inst, rows) == MemoryAt(next, inst, rows, inst.passes - 1, 4)
    ensures forall pos | ValidPosition(inst, pos) :: next(rows, pos) == NewBlock(g, inst, rows, pos)
  {
    assert 4 * (inst.passes - 1) + 4 == SYNC_POINTS * inst.passes;
  }
}
