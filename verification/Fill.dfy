/**
 What filling the memory means, block by block (external/argon2/ref.c:87-209, external/argon2/core.c:301-319),
 over a memory of `lanes` rows of `lane_length` blocks. The compression function is a parameter,
 so that nothing here depends on how it mixes words.
 */
module Fill {
  import opened Words
  import opened Layout
  import opened ReferenceWindow

  const ADDRESSES_IN_BLOCK: nat := 128

  /** The 128 64-bit words of a block, as numbers. */
  type Block = b: seq<u64> | |b| == 128 witness seq(128, _ => 0)
  type Rows = seq<seq<Block>>

  /** fill_block: the new block, from the previous block, the reference block and the overlay. */
  type Compression = (Block, Block, Overlay<Block>) -> Block

  predicate ValidRows(inst: Instance, rows: Rows) {
    |rows| == inst.lanes && forall l :: 0 <= l < |rows| ==> |rows[l]| == inst.laneLength
  }

  // ----- Data-independent addressing -----

  predicate DataIndependent(inst: Instance, pos: Position) {
    inst.kind == Argon2i || (inst.kind == Argon2id && pos.pass == 0 && pos.slice < SYNC_POINTS / 2)
  }

  function ZeroBlock(): Block {
    seq(128, _ => 0)
  }

  function KindNumber(kind: Kind): u64 {
    match kind
    case Argon2d => 0
    case Argon2i => 1
    case Argon2id => 2
  }

  /** The first six words of the input block: the same for the whole segment. */
  function Header(inst: Instance, pos: Position): (h: seq<u64>)
    ensures |h| == 6
  {
    [pos.pass, pos.lane, pos.slice, inst.memoryBlocks, inst.passes, KindNumber(inst.kind)]
  }

  /** The input block with a counter word; it does not depend on the index. */
  function InputBlock(inst: Instance, pos: Position, counter: u64): Block {
    Header(inst, pos) + [counter] + seq(121, _ => 0)
  }

  /** The block of addresses with a given counter, section 3.4.1.2 of RFC 9106. */
  function AddressBlock(g: Compression, inst: Instance, pos: Position, counter: u64): Block {
    g(ZeroBlock(), g(ZeroBlock(), InputBlock(inst, pos, counter), Overwrite), Overwrite)
  }

  // ----- One block -----

  function LowHalf(word: u64): u32 {
    word % TWO_TO_THE_32
  }

  function HighHalf(word: u64): u32 {
    word / TWO_TO_THE_32
  }

  /** J1 and J2 for a position: from the address block, or from the previous block. */
  function PseudoRand(g: Compression, inst: Instance, rows: Rows, pos: Position): u64
    requires inst.Shaped() && ValidPosition(inst, pos) && ValidRows(inst, rows)
  {
    if DataIndependent(inst, pos) then
      AddressBlock(g, inst, pos, pos.index / ADDRESSES_IN_BLOCK + 1)[pos.index % ADDRESSES_IN_BLOCK]
    else
      ColumnInLane(inst, pos);
      rows[pos.lane][PreviousColumn(inst, pos)][0]
  }

  function RefLane(inst: Instance, pos: Position, word: u64): (lane: u32)
    requires inst.Shaped() && ValidPosition(inst, pos)
    ensures lane < inst.lanes
  {
    if pos.pass == 0 && pos.slice == 0 then pos.lane else HighHalf(word) % inst.lanes
  }

  function RefColumn(inst: Instance, pos: Position, word: u64): (column: u32)
    requires inst.Shaped() && ValidPosition(inst, pos)
    ensures column < inst.laneLength
  {
    IndexAlpha(inst, pos, LowHalf(word), RefLane(inst, pos, word) == pos.lane)
  }

  /** The place of a reference block. */
  datatype Reference = Reference(lane: u32, column: u32)

  /** The reference block of a position. */
  function ReferenceOf(g: Compression, inst: Instance, rows: Rows, pos: Position): Reference
    requires inst.Shaped() && ValidPosition(inst, pos) && ValidRows(inst, rows)
  {
    var word := PseudoRand(g, inst, rows, pos);
    Reference(RefLane(inst, pos, word), RefColumn(inst, pos, word))
  }

  /** The new block, once its reference block has been chosen. */
  function BlockFrom(g: Compression, inst: Instance, rows: Rows, pos: Position, refLane: nat, refColumn: nat): Block
    requires inst.Shaped() && ValidPosition(inst, pos) && ValidRows(inst, rows)
    requires refLane < inst.lanes && refColumn < inst.laneLength
  {
    ColumnInLane(inst, pos);
    var overlay :=
      if inst.version == VERSION_10 || pos.pass == 0 then Overwrite
      else XorOver(rows[pos.lane][Column(inst, pos)]);
    g(rows[pos.lane][PreviousColumn(inst, pos)], rows[refLane][refColumn], overlay)
  }

  function NewBlock(g: Compression, inst: Instance, rows: Rows, pos: Position): Block
    requires inst.Shaped() && ValidPosition(inst, pos) && ValidRows(inst, rows)
  {
    var word := PseudoRand(g, inst, rows, pos);
    BlockFrom(g, inst, rows, pos, RefLane(inst, pos, word), RefColumn(inst, pos, word))
  }

  /** Where a position's block comes from, as a function of the whole memory. */
  type Construct = (Rows, Position) -> Block

  function BlockAt(g: Compression, inst: Instance, rows: Rows, pos: Position): Block {
    if inst.Shaped() && ValidPosition(inst, pos) && ValidRows(inst, rows) then NewBlock(g, inst, rows, pos)
    else ZeroBlock()
  }

  /** The block construction of fill_segment with a given compression function. */
  function Constructor(g: Compression, inst: Instance): Construct {
    (rows: Rows, pos: Position) => BlockAt(g, inst, rows, pos)
  }

  /** `next` constructs blocks as fill_segment does with `g`. */
  ghost predicate ConstructsWith(next: Construct, g: Compression, inst: Instance) {
    forall rows, pos {:trigger BlockAt(g, inst, rows, pos)} :: next(rows, pos) == BlockAt(g, inst, rows, pos)
  }

  function Put(rows: Rows, lane: nat, column: nat, block: Block): (r: Rows)
    requires lane < |rows| && column < |rows[lane]|
    ensures |r| == |rows| && |r[lane]| == |rows[lane]|
  {
    var row: seq<Block> := rows[lane];
    rows[lane := row[column := block]]
  }

  function Step(next: Construct, inst: Instance, rows: Rows, pos: Position): (r: Rows)
    requires inst.Shaped() && ValidPosition(inst, pos) && ValidRows(inst, rows)
    ensures ValidRows(inst, r)
  {
    ColumnInLane(inst, pos);
    Put(rows, pos.lane, Column(inst, pos), next(rows, pos))
  }

  lemma StepFrame(next: Construct, inst: Instance, rows: Rows, pos: Position)
    requires inst.Shaped() && ValidPosition(inst, pos) && ValidRows(inst, rows)
    ensures var r := Step(next, inst, rows, pos);
            && (forall l :: 0 <= l < inst.lanes && l != pos.lane ==> r[l] == rows[l])
            && (forall c :: 0 <= c < inst.laneLength ==>
                  r[pos.lane][c] == if c == Column(inst, pos) then next(rows, pos) else rows[pos.lane][c])
  {
    ColumnInLane(inst, pos);
  }

  // ----- Segments, slices and passes -----

  /** In the first slice of the first pass two blocks are there already. */
  function StartIndex(pass: u32, slice: u32): u32 {
    if pass == 0 && slice == 0 then 2 else 0
  }

  ghost predicate ValidSlice(inst: Instance, pass: u32, slice: u32) {
    inst.Shaped() && pass < inst.passes && slice < SYNC_POINTS
  }

  /** The memory once one lane has filled the blocks of its segment below `index`. */
  function Segment(next: Construct, inst: Instance, rows: Rows, pass: u32, slice: u32, lane: u32, index: u32): (r: Rows)
    requires ValidSlice(inst, pass, slice) && ValidRows(inst, rows) && lane < inst.lanes
    requires StartIndex(pass, slice) <= index <= inst.segmentLength
    ensures ValidRows(inst, r)
    decreases index
  {
    if index == StartIndex(pass, slice) then rows
    else
      var before := Segment(next, inst, rows, pass, slice, lane, index - 1);
      Step(next, inst, before, Position(pass, lane, slice, index - 1))
  }

  /** The reference blocks of a segment below `index`, in the order in which they are used. */
  function References(next: Construct, g: Compression, inst: Instance, rows: Rows,
                      pass: u32, slice: u32, lane: u32, index: u32): (r: seq<Reference>)
    requires ValidSlice(inst, pass, slice) && ValidRows(inst, rows) && lane < inst.lanes
    requires StartIndex(pass, slice) <= index <= inst.segmentLength
    ensures |r| == index - StartIndex(pass, slice)
    decreases index
  {
    if index == StartIndex(pass, slice) then []
    else
      var before := Segment(next, inst, rows, pass, slice, lane, index - 1);
      References(next, g, inst, rows, pass, slice, lane, index - 1)
      + [ReferenceOf(g, inst, before, Position(pass, lane, slice, index - 1))]
  }

  /** In data-independent segments the sequence of reference blocks is the same whatever was in memory. */
  lemma {:induction false} ReferencesIgnoreMemory(next: Construct, g: Compression, inst: Instance, a: Rows, b: Rows,
                                                  pass: u32, slice: u32, lane: u32, index: u32)
    requires ValidSlice(inst, pass, slice) && ValidRows(inst, a) && ValidRows(inst, b) && lane < inst.lanes
    requires StartIndex(pass, slice) <= index <= inst.segmentLength
    requires DataIndependent(inst, Position(pass, lane, slice, 0))
    ensures References(next, g, inst, a, pass, slice, lane, index)
            == References(next, g, inst, b, pass, slice, lane, index)
    decreases index
  {
    if index != StartIndex(pass, slice) {
      ReferencesIgnoreMemory(next, g, inst, a, b, pass, slice, lane, index - 1);
    }
  }

  /** The memory once the first `lanes` lanes have filled their segments one after the other. */
  function Slice(next: Construct, inst: Instance, rows: Rows, pass: u32, slice: u32, lanes: u32): (r: Rows)
    requires ValidSlice(inst, pass, slice) && ValidRows(inst, rows) && lanes <= inst.lanes
    ensures ValidRows(inst, r)
    decreases lanes
  {
    if lanes == 0 then rows
    else
      var before := Slice(next, inst, rows, pass, slice, lanes - 1);
      Segment(next, inst, before, pass, slice, lanes - 1, inst.segmentLength)
  }

  /** The memory after the first `n` slices, counted through all passes. */
  function Slices(next: Construct, inst: Instance, rows: Rows, n: nat): (r: Rows)
    requires inst.Shaped() && ValidRows(inst, rows) && n <= SYNC_POINTS * inst.passes
    ensures ValidRows(inst, r)
    decreases n
  {
    if n == 0 then rows
    else
      Slice(next, inst, Slices(next, inst, rows, n - 1), (n - 1) / SYNC_POINTS, (n - 1) % SYNC_POINTS, inst.lanes)
  }

  /** The single-threaded fill of the whole memory. */
  function Filled(g: Compression, inst: Instance, rows: Rows): (r: Rows)
    requires inst.Shaped() && ValidRows(inst, rows)
    ensures ValidRows(inst, r)
  {
    Slices(Constructor(g, inst), inst, rows, SYNC_POINTS * inst.passes)
  }

  // ----- What a segment leaves alone -----

  ghost predicate InSlice(inst: Instance, slice: u32, column: nat) {
    SliceStart(inst, slice) <= column < SliceStart(inst, slice) + inst.segmentLength
  }

  /** A lane writes only its own row, and there only the blocks from the start index up to `index`. */
  lemma {:induction false} SegmentFrame(next: Construct, inst: Instance, rows: Rows, pass: u32, slice: u32, lane: u32,
                                        index: u32)
    requires ValidSlice(inst, pass, slice) && ValidRows(inst, rows) && lane < inst.lanes
    requires StartIndex(pass, slice) <= index <= inst.segmentLength
    ensures var r := Segment(next, inst, rows, pass, slice, lane, index);
            && (forall l :: 0 <= l < inst.lanes && l != lane ==> r[l] == rows[l])
            && (forall c :: 0 <= c < inst.laneLength
                  && !(SliceStart(inst, slice) + StartIndex(pass, slice) <= c < SliceStart(inst, slice) + index)
                  ==> r[lane][c] == rows[lane][c])
    decreases index
  {
    if index != StartIndex(pass, slice) {
      SegmentFrame(next, inst, rows, pass, slice, lane, index - 1);
      StepFrame(next, inst, Segment(next, inst, rows, pass, slice, lane, index - 1),
                Position(pass, lane, slice, index - 1));
    }
  }
}
