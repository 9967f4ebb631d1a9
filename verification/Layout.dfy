/** The instance and position records of external/argon2/core.h, and the memory geometry argon2_ctx derives. */
module Layout {
  import opened Words

  const SYNC_POINTS: u32 := 4
  const VERSION_10: u32 := 0x10
  const VERSION_13: u32 := 0x13

  datatype Kind = Argon2d | Argon2i | Argon2id

  datatype Instance = Instance(
    version: u32,
    passes: u32,
    memoryBlocks: u32,
    segmentLength: u32,
    laneLength: u32,
    lanes: u32,
    threads: u32,
    kind: Kind)
  {
    /** Lanes of four equal segments of at least two blocks each. */
    predicate Shaped() {
      && 2 <= segmentLength
      && laneLength == SYNC_POINTS * segmentLength
      && 1 <= lanes
      && 1 <= threads <= lanes
      && 1 <= passes
    }

    /**
     What argon2_ctx guarantees of every instance it builds: the lanes also fill the memory, that is,
     memoryBlocks == lanes * laneLength.
     */
    predicate Valid() {
      && Shaped()
      && memoryBlocks == Turns(lanes, laneLength)
    }
  }

  /** What becomes of the block that was in memory: it is replaced, or XORed over. */
  datatype Overlay<+B> = Overwrite | XorOver(present: B)

  datatype Position = Position(pass: u32, lane: u32, slice: u32, index: u32)

  /** A place where fill_segment constructs a block: the first two blocks of a lane come from elsewhere. */
  predicate ValidPosition(inst: Instance, pos: Position) {
    && pos.pass < inst.passes
    && pos.lane < inst.lanes
    && pos.slice < SYNC_POINTS
    && pos.index < inst.segmentLength
    && (pos.pass == 0 && pos.slice == 0 ==> 2 <= pos.index)
  }

  /** First column of a slice: `slice * segment_length`, see SliceStartIsProduct. */
  function SliceStart(inst: Instance, slice: nat): nat {
    Turns(slice, inst.segmentLength)
  }

  lemma SliceStartIsProduct(inst: Instance, slice: nat)
    ensures SliceStart(inst, slice) == slice * inst.segmentLength
  {
    TurnsIsProduct(slice, inst.segmentLength);
  }

  lemma SliceStarts(inst: Instance)
    ensures SliceStart(inst, 0) == 0
    ensures SliceStart(inst, 1) == inst.segmentLength
    ensures SliceStart(inst, 2) == 2 * inst.segmentLength
    ensures SliceStart(inst, 3) == 3 * inst.segmentLength
  {
    assert Turns(1, inst.segmentLength) == Turns(0, inst.segmentLength) + inst.segmentLength;
    assert Turns(2, inst.segmentLength) == Turns(1, inst.segmentLength) + inst.segmentLength;
    assert Turns(3, inst.segmentLength) == Turns(2, inst.segmentLength) + inst.segmentLength;
  }

  /** Column of a position inside its lane. */
  function Column(inst: Instance, pos: Position): nat {
    SliceStart(inst, pos.slice) + pos.index
  }

  lemma ColumnInLane(inst: Instance, pos: Position)
    requires inst.Shaped() && ValidPosition(inst, pos)
    ensures SliceStart(inst, pos.slice) <= Column(inst, pos)
    ensures Column(inst, pos) < SliceStart(inst, pos.slice) + inst.segmentLength <= inst.laneLength
  {
    SliceStarts(inst);
  }
}
