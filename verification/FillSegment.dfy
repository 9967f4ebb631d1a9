/** fill_segment of external/argon2/ref.c:87-209, in place on the memory array. */
module FillSegment {
  import opened Words
  import opened Layout
  import opened ReferenceWindow
  import opened Fill
  import opened FlatMemory

  /** The number of address blocks generated before the block at `index` is constructed. */
  function Generated(index: u32): u32 {
    if index % ADDRESSES_IN_BLOCK == 0 then index / ADDRESSES_IN_BLOCK else index / ADDRESSES_IN_BLOCK + 1
  }

  lemma GeneratedNext(index: nat)
    requires index + 1 < TWO_TO_THE_32
    ensures Generated(index + 1) == index / ADDRESSES_IN_BLOCK + 1
  {
  }

  lemma UpdateCounter(header: seq<u64>, n: u64, n': u64, rest: seq<u64>)
    requires |header| == 6
    ensures (header + [n] + rest)[6] == n
    ensures (header + [n] + rest)[6 := n'] == header + [n'] + rest
  {
  }

  /** The input block before any increment. */
  method InitInputBlock(inst: Instance, position: Position) returns (input: Block)
    ensures input == InputBlock(inst, position, 0)
  {
    var v: seq<u64> := ZeroBlock();
    v := v[0 := position.pass];
    v := v[1 := position.lane];
    v := v[2 := position.slice];
    v := v[3 := inst.memoryBlocks];
    v := v[4 := inst.passes];
    v := v[5 := KindNumber(inst.kind)];
    assert v[..6] == Header(inst, position);
    assert v == v[..6] + [v[6]] + v[7..];
    assert v[7..] == seq(121, _ => 0);
    input := v;
  }

  /** next_addresses: the two blocks it updates are returned. */
  method NextAddresses(g: Compression, ghost inst: Instance, ghost position: Position, input: Block, ghost n: u32)
    returns (addressBlock: Block, inputBlock: Block)
    requires input == InputBlock(inst, position, n)
    ensures inputBlock == InputBlock(inst, position, n + 1)
    ensures addressBlock == AddressBlock(g, inst, position, n + 1)
  {
    UpdateCounter(Header(inst, position), n, n + 1, seq(121, _ => 0));
    inputBlock := input[6 := Wrap64(input[6] + 1)];
    addressBlock := g(ZeroBlock(), inputBlock, Overwrite);
    addressBlock := g(ZeroBlock(), addressBlock, Overwrite);
  }

  // ----- Offsets -----

  /** The first offset of a segment, as the C code computes it: none of its sums wraps. */
  method StartingOffset(inst: Instance, pass: u32, lane: u32, slice: u32, startingIndex: u32) returns (currOffset: u32)
    requires inst.Valid() && ValidSlice(inst, pass, slice) && lane < inst.lanes
    requires startingIndex <= inst.segmentLength && SliceStart(inst, slice) + startingIndex < inst.laneLength
    ensures currOffset == Offset(inst, lane, SliceStart(inst, slice) + startingIndex)
    ensures Offset(inst, lane, inst.laneLength) <= inst.memoryBlocks
  {
    TurnsIsProduct(lane, inst.laneLength);
    SliceStartIsProduct(inst, slice);
    LaneInMemory(inst, lane);
    currOffset := lane * inst.laneLength + slice * inst.segmentLength + startingIndex;
  }

  method OffsetInLane(inst: Instance, offset: u32, ghost lane: nat, ghost column: nat) returns (r: u32)
    requires inst.Valid() && column < inst.laneLength && offset == Offset(inst, lane, column)
    ensures r == column
  {
    TurnsDropOut(column, lane, inst.laneLength);
    SmallMod(column, inst.laneLength);
    r := offset % inst.laneLength;
  }

  method ReferenceOffset(inst: Instance, lane: u32, column: u32) returns (r: u32)
    requires inst.Valid() && lane < inst.lanes && column < inst.laneLength
    ensures r == Offset(inst, lane, column) < inst.memoryBlocks
  {
    TurnsIsProduct(lane, inst.laneLength);
    OffsetsInjective(inst, lane, column, lane, column);
    r := inst.laneLength * lane + column;
  }

  // ----- The loop body -----

  /** The address blocks a segment holds before it constructs the block at `index`. */
  ghost predicate Addresses(g: Compression, inst: Instance, first: Position, index: u32, inputBlock: Block,
                            addressBlock: Block) {
    DataIndependent(inst, first) ==>
      && inputBlock == InputBlock(inst, first, Generated(index))
      && (index > 0 ==> addressBlock == AddressBlock(g, inst, first, Generated(index)))
  }

  lemma SameAddressBlock(g: Compression, inst: Instance, p: Position, q: Position, n: u64)
    requires p.pass == q.pass && p.lane == q.lane && p.slice == q.slice
    ensures AddressBlock(g, inst, p, n) == AddressBlock(g, inst, q, n)
  {
    assert Header(inst, p) == Header(inst, q);
  }

  method InitAddresses(g: Compression, inst: Instance, first: Position) returns (inputBlock: Block, addressBlock: Block)
    requires first.index == StartIndex(first.pass, first.slice)
    ensures Addresses(g, inst, first, first.index, inputBlock, addressBlock)
  {
    inputBlock, addressBlock := ZeroBlock(), ZeroBlock();
    if DataIndependent(inst, first) {
      inputBlock := InitInputBlock(inst, first);
      if first.pass == 0 && first.slice == 0 {
        addressBlock, inputBlock := NextAddresses(g, inst, first, inputBlock, 0);
      }
    }
  }

  /** The pseudo-random word for the block at `index`, generating the next addresses when they are due. */
  method TakeAddress(g: Compression, inst: Instance, ghost first: Position, index: u32, input: Block, addresses: Block)
    returns (inputBlock: Block, addressBlock: Block, pseudoRand: u64)
    requires index + 1 < TWO_TO_THE_32
    requires DataIndependent(inst, first) && Addresses(g, inst, first, index, input, addresses)
    ensures Addresses(g, inst, first, index + 1, inputBlock, addressBlock)
    ensures pseudoRand == AddressBlock(g, inst, first, index / ADDRESSES_IN_BLOCK + 1)[index % ADDRESSES_IN_BLOCK]
  {
    inputBlock, addressBlock := input, addresses;
    GeneratedNext(index);
    if index % ADDRESSES_IN_BLOCK == 0 {
      addressBlock, inputBlock := NextAddresses(g, inst, first, inputBlock, Generated(index));
    }
    pseudoRand := addressBlock[index % ADDRESSES_IN_BLOCK];
  }

  /** The part of the loop body that chooses the reference block and writes the new one. */
  method ConstructBlock(ghost next: Construct, g: Compression, inst: Instance, memory: array<Block>, position: Position,
                        pseudoRand: u64, prevOffset: u32, currOffset: u32)
    returns (ghost reference: Reference)
    requires inst.Valid() && ValidPosition(inst, position) && memory.Length == inst.memoryBlocks
    requires currOffset == Offset(inst, position.lane, Column(inst, position)) < memory.Length
    requires prevOffset == Offset(inst, position.lane, PreviousColumn(inst, position)) < memory.Length
    requires pseudoRand == PseudoRand(g, inst, RowsOf(inst, memory[..]), position)
    requires ConstructsWith(next, g, inst)
    modifies memory
    ensures RowsOf(inst, memory[..]) == Step(next, inst, RowsOf(inst, old(memory[..])), position)
    ensures reference == ReferenceOf(g, inst, RowsOf(inst, old(memory[..])), position)
  {
    var refLane := HighHalf(pseudoRand) % inst.lanes;
    if position.pass == 0 && position.slice == 0 {
      refLane := position.lane;
    }
    var refIndex := IndexAlpha(inst, position, LowHalf(pseudoRand), refLane == position.lane);
    var refOffset := ReferenceOffset(inst, refLane, refIndex);
    var overlay := if inst.version == VERSION_10 || position.pass == 0 then Overwrite else XorOver(memory[currOffset]);
    FlatStep(next, g, inst, memory[..], position, pseudoRand, prevOffset, refOffset, currOffset, overlay);
    memory[currOffset] := g(memory[prevOffset], memory[refOffset], overlay);
    reference := Reference(refLane, refIndex);
  }

  lemma WordIsPseudoRand(g: Compression, inst: Instance, memory: seq<Block>, pos: Position, prev: nat, word: u64)
    requires inst.Valid() && ValidPosition(inst, pos) && |memory| == inst.memoryBlocks
    requires prev == Offset(inst, pos.lane, PreviousColumn(inst, pos)) < |memory|
    requires word == if DataIndependent(inst, pos)
                     then AddressBlock(g, inst, pos, pos.index / ADDRESSES_IN_BLOCK + 1)[pos.index % ADDRESSES_IN_BLOCK]
                     else memory[prev][0]
    ensures word == PseudoRand(g, inst, RowsOf(inst, memory), pos)
  {
    ColumnInLane(inst, pos);
    ReadAt(inst, memory, pos.lane, PreviousColumn(inst, pos));
  }

  /** The pseudo-random word of a block: from the address block, or from the previous block. */
  method TakePseudoRand(g: Compression, inst: Instance, memory: array<Block>, first: Position, index: u32,
                        input: Block, addresses: Block, prevOffset: u32)
    returns (inputBlock: Block, addressBlock: Block, pseudoRand: u64)
    requires inst.Valid() && memory.Length == inst.memoryBlocks && index + 1 < TWO_TO_THE_32
    requires ValidPosition(inst, first.(index := index))
    requires Addresses(g, inst, first, index, input, addresses)
    requires prevOffset == Offset(inst, first.lane, PreviousColumn(inst, first.(index := index))) < memory.Length
    ensures Addresses(g, inst, first, index + 1, inputBlock, addressBlock)
    ensures pseudoRand == PseudoRand(g, inst, RowsOf(inst, memory[..]), first.(index := index))
  {
    inputBlock, addressBlock := input, addresses;
    if DataIndependent(inst, first) {
      inputBlock, addressBlock, pseudoRand := TakeAddress(g, inst, first, index, inputBlock, addressBlock);
      SameAddressBlock(g, inst, first, first.(index := index), index / ADDRESSES_IN_BLOCK + 1);
    } else {
      pseudoRand := memory[prevOffset][0];
    }
    WordIsPseudoRand(g, inst, memory[..], first.(index := index), prevOffset, pseudoRand);
  }

  // ----- The loop -----

  /** One call of fill_segment: which segment, and with which block construction. */
  datatype Task = Task(next: Construct, g: Compression, inst: Instance, first: Position)
  {
    ghost predicate Valid() {
      && inst.Valid()
      && ValidSlice(inst, first.pass, first.slice)
      && first.lane < inst.lanes
      && first.index == StartIndex(first.pass, first.slice)
      && ConstructsWith(next, g, inst)
    }

    function At(index: u32): Position {
      first.(index := index)
    }

    /** Column of the block at an index. */
    function Col(index: u32): nat {
      SliceStart(inst, first.slice) + index
    }

    /** The memory when the loop comes to an index, and the reference blocks it has used so far. */
    ghost function Result(before: Rows, index: u32): Rows {
      if Runs(before, index) then Segment(next, inst, before, first.pass, first.slice, first.lane, index) else before
    }

    ghost function Used(before: Rows, index: u32): seq<Reference> {
      if Runs(before, index) then References(next, g, inst, before, first.pass, first.slice, first.lane, index) else []
    }

    ghost function Results(before: Rows): u32 -> Rows {
      (index: u32) => Result(before, index)
    }

    ghost function Uses(before: Rows): u32 -> seq<Reference> {
      (index: u32) => Used(before, index)
    }

    ghost predicate Runs(before: Rows, index: u32) {
      Valid() && ValidRows(inst, before) && first.index <= index <= inst.segmentLength
    }
  }

  /** The loop variables: the two address buffers and the two offsets. */
  datatype Cursor = Cursor(input: Block, addresses: Block, curr: u32, prev: u32)

  /**
   The two offsets before the block of a column is constructed. Before column 1 the predecessor's offset
   is still the one that followed the end of the lane: it is rotated when that block is constructed.
   */
  ghost predicate OffsetsFor(inst: Instance, lane: nat, column: nat, currOffset: int, prevOffset: int) {
    && currOffset == Offset(inst, lane, column)
    && (column == 0 ==> prevOffset == currOffset + inst.laneLength - 1)
    && (column > 1 ==> prevOffset == currOffset - 1)
  }

  ghost predicate Ready(task: Task, index: u32, c: Cursor) {
    && Addresses(task.g, task.inst, task.first, index, c.input, c.addresses)
    && OffsetsFor(task.inst, task.first.lane, task.Col(index), c.curr, c.prev)
  }

  lemma PositionInTask(task: Task, index: u32)
    requires task.Valid() && task.first.index <= index < task.inst.segmentLength
    ensures ValidPosition(task.inst, task.At(index))
    ensures task.Col(index) == Column(task.inst, task.At(index)) < task.inst.laneLength
    ensures PreviousColumn(task.inst, task.At(index)) < task.inst.laneLength
    ensures Offset(task.inst, task.first.lane, task.inst.laneLength) <= task.inst.memoryBlocks
  {
    ColumnInLane(task.inst, task.At(index));
    LaneInMemory(task.inst, task.first.lane);
  }

  /** The offset the C code has for the previous block, rotated at the second block of a lane. */
  method RotatedPrev(task: Task, index: u32, c: Cursor) returns (prevOffset: u32)
    requires task.Valid() && task.first.index <= index < task.inst.segmentLength
    requires OffsetsFor(task.inst, task.first.lane, task.Col(index), c.curr, c.prev)
    ensures prevOffset < task.inst.memoryBlocks
    ensures prevOffset == Offset(task.inst, task.first.lane, PreviousColumn(task.inst, task.At(index)))
    ensures c.curr == Offset(task.inst, task.first.lane, Column(task.inst, task.At(index))) < task.inst.memoryBlocks
    ensures OffsetsFor(task.inst, task.first.lane, task.Col(index + 1), c.curr + 1, prevOffset + 1)
  {
    PositionInTask(task, index);
    var column := OffsetInLane(task.inst, c.curr, task.first.lane, task.Col(index));
    prevOffset := if column == 1 then c.curr - 1 else c.prev;
  }

  /** The loop body of fill_segment, with the increments of the two offsets. */
  method FillOne(task: Task, memory: array<Block>, index: u32, c: Cursor)
    returns (c': Cursor, ghost reference: Reference)
    requires task.Valid() && memory.Length == task.inst.memoryBlocks
    requires task.first.index <= index < task.inst.segmentLength && Ready(task, index, c)
    modifies memory
    ensures RowsOf(task.inst, memory[..])
            == Step(task.next, task.inst, RowsOf(task.inst, old(memory[..])), task.At(index))
    ensures Ready(task, index + 1, c')
    ensures reference == ReferenceOf(task.g, task.inst, RowsOf(task.inst, old(memory[..])), task.At(index))
  {
    PositionInTask(task, index);
    var prevOffset := RotatedPrev(task, index, c);
    var input, addresses, pseudoRand :=
      TakePseudoRand(task.g, task.inst, memory, task.first, index, c.input, c.addresses, prevOffset);
    reference := ConstructBlock(task.next, task.g, task.inst, memory, task.At(index), pseudoRand, prevOffset, c.curr);
    c' := Cursor(input, addresses, c.curr + 1, prevOffset + 1);
  }

  /** The loop variables before the loop. */
  method InitCursor(task: Task) returns (c: Cursor)
    requires task.Valid()
    ensures Ready(task, task.first.index, c)
    ensures 0 <= c.prev < task.inst.memoryBlocks
  {
    SliceStarts(task.inst);
    LaneInMemory(task.inst, task.first.lane);
    var input, addresses := InitAddresses(task.g, task.inst, task.first);
    var currOffset := StartingOffset(task.inst, task.first.pass, task.first.lane, task.first.slice, task.first.index);
    var column := OffsetInLane(task.inst, currOffset, task.first.lane, task.Col(task.first.index));
    var prevOffset: u32 := if column == 0 then currOffset + task.inst.laneLength - 1 else currOffset - 1;
    c := Cursor(input, addresses, currOffset, prevOffset);
  }

  /** Constructing the block at `index` is one step of the segment. */
  lemma OneStep(task: Task, before: Rows, index: u32)
    requires task.Valid() && ValidRows(task.inst, before) && task.first.index <= index < task.inst.segmentLength
    ensures ValidPosition(task.inst, task.At(index)) && ValidRows(task.inst, task.Result(before, index))
    ensures task.Result(before, index + 1) == Step(task.next, task.inst, task.Result(before, index), task.At(index))
  {
  }

  /**
   Two sequences that go on at an index as the loop does: the memories take one step, and the reference block of that
   step joins the reference blocks.
   */
  ghost predicate GoesOn(task: Task, result: u32 -> Rows, used: u32 -> seq<Reference>, index: u32) {
    && task.Valid() && task.first.index <= index < task.inst.segmentLength
    && ValidRows(task.inst, result(index)) && ValidPosition(task.inst, task.At(index))
    && result(index + 1) == Step(task.next, task.inst, result(index), task.At(index))
    && used(index + 1) == used(index) + [ReferenceOf(task.g, task.inst, result(index), task.At(index))]
  }

  /** One turn of the loop. */
  method Advance(task: Task, memory: array<Block>, index: u32, c: Cursor, ghost result: u32 -> Rows,
                 ghost used: u32 -> seq<Reference>)
    returns (c': Cursor, ghost reference: Reference)
    requires GoesOn(task, result, used, index) && memory.Length == task.inst.memoryBlocks && Ready(task, index, c)
    requires RowsOf(task.inst, memory[..]) == result(index)
    modifies memory
    ensures RowsOf(task.inst, memory[..]) == result(index + 1) && Ready(task, index + 1, c')
    ensures used(index + 1) == used(index) + [reference]
  {
    c', reference := FillOne(task, memory, index, c);
  }

  /** The loop, for any two sequences that go on as it does. */
  method Loop(task: Task, memory: array<Block>, ghost result: u32 -> Rows, ghost used: u32 -> seq<Reference>)
    returns (ghost references: seq<Reference>)
    requires task.Valid() && memory.Length == task.inst.memoryBlocks
    requires RowsOf(task.inst, memory[..]) == result(task.first.index) && used(task.first.index) == []
    requires forall i: u32 :: task.first.index <= i < task.inst.segmentLength ==> GoesOn(task, result, used, i)
    modifies memory
    ensures RowsOf(task.inst, memory[..]) == result(task.inst.segmentLength)
    ensures references == used(task.inst.segmentLength)
  {
    var c := InitCursor(task);
    var i := task.first.index;
    references := [];
    while i < task.inst.segmentLength
      invariant task.first.index <= i <= task.inst.segmentLength
      invariant Ready(task, i, c)
      invariant RowsOf(task.inst, memory[..]) == result(i) && references == used(i)
    {
      ghost var reference;
      c, reference := Advance(task, memory, i, c, result, used);
      references := references + [reference];
      i := i + 1;
    }
  }

  /** A segment and its reference blocks go on so. */
  lemma SegmentGoesOn(task: Task, before: Rows, index: u32)
    requires task.Valid() && ValidRows(task.inst, before) && task.first.index <= index < task.inst.segmentLength
    ensures GoesOn(task, task.Results(before), task.Uses(before), index)
  {
    OneStep(task, before, index);
  }

  /**
   fill_segment leaves the memory that constructing the segment's blocks one by one defines, and the reference blocks
   it uses are those of the definition.
   */
  method FillSegment(g: Compression, inst: Instance, memory: array<Block>, pass: u32, lane: u32, slice: u32)
    returns (ghost references: seq<Reference>)
    requires inst.Valid() && ValidSlice(inst, pass, slice) && lane < inst.lanes
    requires memory.Length == inst.memoryBlocks
    modifies memory
    ensures RowsOf(inst, memory[..])
            == Segment(Constructor(g, inst), inst, RowsOf(inst, old(memory[..])), pass, slice, lane, inst.segmentLength)
    ensures references == SegmentReferences(g, inst, RowsOf(inst, old(memory[..])), pass, slice, lane)
  {
    ghost var before := RowsOf(inst, memory[..]);
    var task := Task(Constructor(g, inst), g, inst, Position(pass, lane, slice, StartIndex(pass, slice)));
    ghost var result, used := task.Results(before), task.Uses(before);
    forall i: u32 | task.first.index <= i < inst.segmentLength
      ensures GoesOn(task, result, used, i)
    {
      SegmentGoesOn(task, before, i);
    }
    references := Loop(task, memory, result, used);
  }

  /** The reference blocks of a whole segment, in the order in which they are used. */
  ghost function SegmentReferences(g: Compression, inst: Instance, rows: Rows, pass: u32, slice: u32,
                                   lane: u32): seq<Reference>
    requires ValidSlice(inst, pass, slice) && ValidRows(inst, rows) && lane < inst.lanes
  {
    References(Constructor(g, inst), g, inst, rows, pass, slice, lane, inst.segmentLength)
  }

  /**
   Two runs of fill_segment in a data-independent segment use the same reference blocks in the same order, whatever the
   two memories hold.
   */
  method SameReferences(g: Compression, inst: Instance, m: array<Block>, n: array<Block>, pass: u32, lane: u32,
                        slice: u32)
    returns (ghost used: seq<Reference>, ghost used': seq<Reference>)
    requires inst.Valid() && ValidSlice(inst, pass, slice) && lane < inst.lanes
    requires m.Length == inst.memoryBlocks && n.Length == inst.memoryBlocks
    requires DataIndependent(inst, Position(pass, lane, slice, 0))
    modifies m, n
    ensures used == used'
  {
    ghost var a := RowsOf(inst, m[..]);
    used := FillSegment(g, inst, m, pass, lane, slice);
    ghost var b := RowsOf(inst, n[..]);
    used' := FillSegment(g, inst, n, pass, lane, slice);
    ReferencesIgnoreMemory(Constructor(g, inst), g, inst, a, b, pass, slice, lane, inst.segmentLength);
  }
}
