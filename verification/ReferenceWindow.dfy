/**
 The choice of the reference block, external/argon2/core.c:227-298, written with the widths the C
 code computes in, and the window of section 3.4.2 of RFC 9106, written as a list of blocks in the
 order in which they were constructed.
 */
module ReferenceWindow {
  import opened Words
  import opened Layout

  function ReferenceAreaSize(inst: Instance, pos: Position, sameLane: bool): u32 {
    if pos.pass == 0 then
      if pos.slice == 0 then Wrap32(pos.index - 1)
      else if sameLane then Wrap32(SliceStart(inst, pos.slice) + pos.index - 1)
      else Wrap32(SliceStart(inst, pos.slice) + (if pos.index == 0 then -1 else 0))
    else if sameLane then Wrap32(inst.laneLength - inst.segmentLength + pos.index - 1)
    else Wrap32(inst.laneLength - inst.segmentLength + (if pos.index == 0 then -1 else 0))
  }

  /** Where the window begins in the lane, as the C code computes it. */
  function StartPosition(inst: Instance, pos: Position): u32 {
    if pos.pass == 0 || pos.slice == SYNC_POINTS - 1 then 0
    else Wrap32(SliceStart(inst, pos.slice + 1))
  }

  function IndexAlpha(inst: Instance, pos: Position, pseudoRand: u32, sameLane: bool): (column: u32)
    requires inst.laneLength > 0
    ensures column < inst.laneLength
  {
    var area := ReferenceAreaSize(inst, pos, sameLane);
    var squared := Wrap64(pseudoRand * pseudoRand) / TWO_TO_THE_32;
    var relative := Wrap64(Wrap32(area - 1) - Wrap64(area * squared) / TWO_TO_THE_32);
    Wrap64(StartPosition(inst, pos) + relative) % inst.laneLength
  }

  // ----- The window of the standard -----

  function PassStart(inst: Instance, pos: Position): nat {
    Turns(pos.pass, inst.laneLength)
  }

  /** When a block of a lane is constructed, counting the blocks of that lane from the start of pass 0. */
  function BirthTime(inst: Instance, pos: Position): nat {
    PassStart(inst, pos) + Column(inst, pos)
  }

  function SegmentStart(inst: Instance, pos: Position): nat {
    PassStart(inst, pos) + SliceStart(inst, pos.slice)
  }

  /** The first block, in construction order, of the last three finished segments. */
  function WindowStart(inst: Instance, pos: Position): nat {
    var segment := SegmentStart(inst, pos);
    if segment < 3 * inst.segmentLength then 0 else segment - 3 * inst.segmentLength
  }

  /**
   One past the last block of the window: in the current lane everything constructed before the
   previous block; in another lane everything in finished segments, less the very last block
   when the first block of a segment is being constructed.
   */
  function WindowEnd(inst: Instance, pos: Position, sameLane: bool): int {
    if sameLane then BirthTime(inst, pos) - 1
    else SegmentStart(inst, pos) - (if pos.index == 0 then 1 else 0)
  }

  /** Position in the window that J1 selects, section 3.4.2 of RFC 9106. */
  function WindowIndex(size: nat, j1: u32): int {
    var x := j1 * j1 / TWO_TO_THE_32;
    var y := size * x / TWO_TO_THE_32;
    size - 1 - y
  }

  /** Whether a position may refer to another lane at all: in the first slice of the first pass it may not. */
  ghost predicate MayRefer(pos: Position, sameLane: bool) {
    pos.pass == 0 && pos.slice == 0 ==> sameLane
  }

  lemma SquareFits(j1: u32)
    ensures 0 <= j1 * j1 < TWO_TO_THE_64
    ensures 0 <= j1 * j1 / TWO_TO_THE_32 < TWO_TO_THE_32
  {
    if j1 > 0 {
      ScaleBelow(j1, j1, TWO_TO_THE_32);
      assert j1 * TWO_TO_THE_32 <= TWO_TO_THE_64;
    }
  }

  lemma ProductFits(a: u32, b: u32)
    ensures 0 <= a * b < TWO_TO_THE_64
  {
    if a > 0 {
      ScaleBelow(a, b, TWO_TO_THE_32);
    }
  }

  /** The C mapping of a random value to a relative position does not wrap. */
  lemma MappingDoesNotWrap(area: u32, j1: u32)
    requires 0 < area
    ensures 0 <= WindowIndex(area, j1) < area
    ensures var squared := Wrap64(j1 * j1) / TWO_TO_THE_32;
            Wrap64(Wrap32(area - 1) - Wrap64(area * squared) / TWO_TO_THE_32) == WindowIndex(area, j1)
  {
    SquareFits(j1);
    var squared: u32 := j1 * j1 / TWO_TO_THE_32;
    ProductFits(area, squared);
    ScaleBelow(area, squared, TWO_TO_THE_32);
  }

  lemma PassStartCases(inst: Instance, pos: Position)
    ensures pos.pass == 0 ==> PassStart(inst, pos) == 0
    ensures pos.pass != 0 ==> PassStart(inst, pos) >= inst.laneLength
  {
  }

  /** The C area size is the size of the window: nothing wraps, and the window is never empty. */
  lemma AreaIsWindowSize(inst: Instance, pos: Position, sameLane: bool)
    requires inst.Shaped() && ValidPosition(inst, pos) && MayRefer(pos, sameLane)
    ensures 0 < ReferenceAreaSize(inst, pos, sameLane) < inst.laneLength
    ensures ReferenceAreaSize(inst, pos, sameLane) == WindowEnd(inst, pos, sameLane) - WindowStart(inst, pos)
  {
    SliceStarts(inst);
    PassStartCases(inst, pos);
  }

  lemma StartIsWindowStart(inst: Instance, pos: Position)
    requires inst.Shaped() && ValidPosition(inst, pos)
    ensures StartPosition(inst, pos) <= 3 * inst.segmentLength
    ensures WindowStart(inst, pos) == StartPosition(inst, pos) + Turns(FullTurns(pos), inst.laneLength)
  {
    SliceStarts(inst);
    PassStartCases(inst, pos);
  }

  /** How many turns of the lane lie wholly before the window. */
  function FullTurns(pos: Position): nat {
    if pos.pass == 0 then 0 else if pos.slice == SYNC_POINTS - 1 then pos.pass else pos.pass - 1
  }

  /** The C code's last two steps, on numbers that do not wrap. */
  lemma RelativePosition(inst: Instance, pos: Position, j1: u32, sameLane: bool)
    requires inst.Shaped() && ValidPosition(inst, pos) && MayRefer(pos, sameLane)
    ensures var area := ReferenceAreaSize(inst, pos, sameLane);
            && area > 0
            && 0 <= WindowIndex(area, j1) < area
            && IndexAlpha(inst, pos, j1, sameLane)
               == (StartPosition(inst, pos) + WindowIndex(area, j1)) % inst.laneLength
  {
    AreaIsWindowSize(inst, pos, sameLane);
    StartIsWindowStart(inst, pos);
    MappingDoesNotWrap(ReferenceAreaSize(inst, pos, sameLane), j1);
  }

  /**
   index_alpha computes without wraparound, and returns the column of the block that the standard's
   window and mapping select.
   */
  lemma IndexAlphaSelectsFromWindow(inst: Instance, pos: Position, j1: u32, sameLane: bool) returns (birth: nat)
    requires inst.Shaped() && ValidPosition(inst, pos) && MayRefer(pos, sameLane)
    ensures WindowStart(inst, pos) <= birth < WindowEnd(inst, pos, sameLane)
    ensures birth == WindowStart(inst, pos)
                     + WindowIndex(WindowEnd(inst, pos, sameLane) - WindowStart(inst, pos), j1)
    ensures IndexAlpha(inst, pos, j1, sameLane) == birth % inst.laneLength
  {
    AreaIsWindowSize(inst, pos, sameLane);
    StartIsWindowStart(inst, pos);
    RelativePosition(inst, pos, j1, sameLane);
    var relative := WindowIndex(ReferenceAreaSize(inst, pos, sameLane), j1);
    birth := WindowStart(inst, pos) + relative;
    TurnsDropOut(StartPosition(inst, pos) + relative, FullTurns(pos), inst.laneLength);
  }

  /** Blocks of one lane born less than a pass apart lie in different columns. */
  lemma DifferentColumn(inst: Instance, pos: Position, birth: nat, column: nat)
    requires inst.Shaped() && ValidPosition(inst, pos)
    requires column < inst.laneLength && birth % inst.laneLength == column
    requires PassStart(inst, pos) + column - inst.laneLength < birth < PassStart(inst, pos) + column + inst.laneLength
    ensures birth == PassStart(inst, pos) + column
  {
    TimeOfPoint(birth, pos.pass, column, inst.laneLength);
  }

  function PreviousColumn(inst: Instance, pos: Position): nat
    requires inst.Shaped()
  {
    if Column(inst, pos) == 0 then inst.laneLength - 1 else Column(inst, pos) - 1
  }

  /** In its own lane a position never refers to the block being constructed or to the one before it. */
  lemma OwnLaneIsSafe(inst: Instance, pos: Position, j1: u32)
    requires inst.Shaped() && ValidPosition(inst, pos)
    ensures IndexAlpha(inst, pos, j1, true) < inst.laneLength
    ensures IndexAlpha(inst, pos, j1, true) != Column(inst, pos)
    ensures IndexAlpha(inst, pos, j1, true) != PreviousColumn(inst, pos)
  {
    var birth := IndexAlphaSelectsFromWindow(inst, pos, j1, true);
    var column := IndexAlpha(inst, pos, j1, true);
    ColumnInLane(inst, pos);
    WindowStartBounds(inst, pos);
    if column == Column(inst, pos) || (column == PreviousColumn(inst, pos) && Column(inst, pos) != 0) {
      DifferentColumn(inst, pos, birth, column);
    } else if column == PreviousColumn(inst, pos) {
      TimeOfPoint(birth, pos.pass - 1, inst.laneLength - 1, inst.laneLength);
    }
  }

  lemma WindowStartBounds(inst: Instance, pos: Position)
    requires inst.Shaped() && ValidPosition(inst, pos)
    ensures SegmentStart(inst, pos) <= WindowStart(inst, pos) + 3 * inst.segmentLength
  {
  }

  /**
   In another lane a position never refers to the slice being filled, so no concurrent writer
   touches the block it reads.
   */
  lemma OtherLaneIsSafe(inst: Instance, pos: Position, j1: u32)
    requires inst.Shaped() && ValidPosition(inst, pos) && MayRefer(pos, false)
    ensures IndexAlpha(inst, pos, j1, false) < inst.laneLength
    ensures !(SliceStart(inst, pos.slice) <= IndexAlpha(inst, pos, j1, false)
              < SliceStart(inst, pos.slice) + inst.segmentLength)
  {
    var birth := IndexAlphaSelectsFromWindow(inst, pos, j1, false);
    var column := IndexAlpha(inst, pos, j1, false);
    ColumnInLane(inst, pos);
    WindowStartBounds(inst, pos);
    if SliceStart(inst, pos.slice) <= column < SliceStart(inst, pos.slice) + inst.segmentLength {
      DifferentColumn(inst, pos, birth, column);
    }
  }

  /** In the first pass a position refers only to blocks that have been constructed already. */
  lemma FirstPassRefersBack(inst: Instance, pos: Position, j1: u32, sameLane: bool)
    requires inst.Shaped() && ValidPosition(inst, pos) && MayRefer(pos, sameLane)
    requires pos.pass == 0
    ensures IndexAlpha(inst, pos, j1, sameLane)
            < if sameLane then Column(inst, pos) - 1 else SliceStart(inst, pos.slice)
  {
    var birth := IndexAlphaSelectsFromWindow(inst, pos, j1, sameLane);
    ColumnInLane(inst, pos);
    PassStartCases(inst, pos);
    SmallMod(birth, inst.laneLength);
  }
}
