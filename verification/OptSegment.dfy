/**
 fill_segment of external/argon2/opt.c:189-303, which keeps the previous block in registers instead of reading it
 back, and the proof that it fills the memory exactly as the reference form does.
 */
module OptSegment {
  import opened Words
  import opened Layout
  import opened ReferenceWindow
  import opened Fill
  import opened FlatMemory
  import opened FillSegment

  /** Blocks kept in registers of type S: loading a block, storing one, and compressing in place. */
  datatype Registers<!S> = Registers(load: Block -> S, store: S -> Block, fill: (S, Block, Overlay<Block>) -> S)

  /** What compressing in registers does to a block in memory. */
  function Stored<S>(m: Registers<S>): Compression {
    (prev: Block, reference: Block, overlay: Overlay<Block>) => m.store(m.fill(m.load(prev), reference, overlay))
  }

  /** Storing and loading lose nothing, and the result depends only on the block the registers hold. */
  ghost predicate Simulates<S(!new)>(m: Registers<S>, g: Compression) {
    && (forall b :: m.store(m.load(b)) == b)
    && forall s, r, o :: m.store(m.fill(s, r, o)) == g(m.store(s), r, o)
  }

  /** The part of the loop body that chooses the reference block and writes the new one. */
  method ConstructBlockOpt<S(!new)>(ghost next: Construct, ghost g: Compression, m: Registers<S>, inst: Instance,
                                    memory: array<Block>,
                           position: Position, state: S, pseudoRand: u64, ghost prevOffset: u32, currOffset: u32)
    returns (state': S)
    requires inst.Valid() && ValidPosition(inst, position) && memory.Length == inst.memoryBlocks
    requires currOffset == Offset(inst, position.lane, Column(inst, position)) < memory.Length
    requires prevOffset == Offset(inst, position.lane, PreviousColumn(inst, position)) < memory.Length
    requires m.store(state) == memory[prevOffset]
    requires pseudoRand == PseudoRand(g, inst, RowsOf(inst, memory[..]), position)
    requires ConstructsWith(next, g, inst) && Simulates(m, g)
    modifies memory
    ensures RowsOf(inst, memory[..]) == Step(next, inst, RowsOf(inst, old(memory[..])), position)
    ensures memory[currOffset] == m.store(state')
  {
    var refLane := HighHalf(pseudoRand) % inst.lanes;
    if position.pass == 0 && position.slice == 0 {
      refLane := position.lane;
    }
    var refIndex := IndexAlpha(inst, position, LowHalf(pseudoRand), refLane == position.lane);
    var refOffset := ReferenceOffset(inst, refLane, refIndex);
    var overlay := if inst.version == VERSION_10 || position.pass == 0 then Overwrite else XorOver(memory[currOffset]);
    FlatStep(next, g, inst, memory[..], position, pseudoRand, prevOffset, refOffset, currOffset, overlay);
    state' := m.fill(state, memory[refOffset], overlay);
    memory[currOffset] := m.store(state');
  }

  /** The block before a column in the cycle of its lane. */
  ghost function BlockBefore(inst: Instance, memory: seq<Block>, lane: nat, column: nat): Block {
    var offset := if column == 0 then Offset(inst, lane, inst.laneLength) - 1 else Offset(inst, lane, column) - 1;
    if 0 <= offset < |memory| then memory[offset] else ZeroBlock()
  }

  /** The loop body, with the increments of the two offsets. */
  method FillOneOpt<S(!new)>(m: Registers<S>, task: Task, memory: array<Block>, index: u32, c: Cursor, state: S)
    returns (c': Cursor, state': S)
    requires task.Valid() && memory.Length == task.inst.memoryBlocks && Simulates(m, task.g)
    requires task.first.index <= index < task.inst.segmentLength && Ready(task, index, c)
    requires m.store(state) == BlockBefore(task.inst, memory[..], task.first.lane, task.Col(index))
    modifies memory
    ensures RowsOf(task.inst, memory[..])
            == Step(task.next, task.inst, RowsOf(task.inst, old(memory[..])), task.At(index))
    ensures Ready(task, index + 1, c')
    ensures m.store(state') == BlockBefore(task.inst, memory[..], task.first.lane, task.Col(index + 1))
  {
    PositionInTask(task, index);
    var prevOffset := RotatedPrev(task, index, c);
    var input, addresses, pseudoRand :=
      TakePseudoRand(task.g, task.inst, memory, task.first, index, c.input, c.addresses, prevOffset);
    state' := ConstructBlockOpt(task.next, task.g, m, task.inst, memory, task.At(index), state, pseudoRand,
                                prevOffset, c.curr);
    c' := Cursor(input, addresses, c.curr + 1, prevOffset + 1);
    BeforeNext(task, index, c.curr, memory[..]);
  }

  /** The block just written is the one before the next. */
  lemma BeforeNext(task: Task, index: u32, curr: u32, memory: seq<Block>)
    requires task.Valid() && task.first.index <= index < task.inst.segmentLength
    requires curr == Offset(task.inst, task.first.lane, task.Col(index)) < |memory|
    ensures BlockBefore(task.inst, memory, task.first.lane, task.Col(index + 1)) == memory[curr]
  {
  }

  /** The memcpy into the registers before the loop. */
  method LoadPrevious<S(!new)>(m: Registers<S>, task: Task, memory: array<Block>, c: Cursor) returns (state: S)
    requires task.Valid() && memory.Length == task.inst.memoryBlocks && Simulates(m, task.g)
    requires Ready(task, task.first.index, c) && 0 <= c.prev < memory.Length
    ensures m.store(state) == BlockBefore(task.inst, memory[..], task.first.lane, task.Col(task.first.index))
  {
    SliceStarts(task.inst);
    LaneInMemory(task.inst, task.first.lane);
    state := m.load(memory[c.prev]);
  }

  /** One turn of the loop, counted from the memory before it. */
  method AdvanceOpt<S(!new)>(m: Registers<S>, task: Task, memory: array<Block>, ghost before: Rows, index: u32,
                             c: Cursor, state: S)
    returns (c': Cursor, state': S)
    requires task.Valid() && memory.Length == task.inst.memoryBlocks && Simulates(m, task.g)
             && ValidRows(task.inst, before)
    requires task.first.index <= index < task.inst.segmentLength && Ready(task, index, c)
    requires RowsOf(task.inst, memory[..]) == task.Result(before, index)
    requires m.store(state) == BlockBefore(task.inst, memory[..], task.first.lane, task.Col(index))
    modifies memory
    ensures RowsOf(task.inst, memory[..]) == task.Result(before, index + 1)
    ensures Ready(task, index + 1, c')
    ensures m.store(state') == BlockBefore(task.inst, memory[..], task.first.lane, task.Col(index + 1))
  {
    OneStep(task, before, index);
    c', state' := FillOneOpt(m, task, memory, index, c, state);
  }

  method FillSegmentOptLoop<S(!new)>(m: Registers<S>, task: Task, memory: array<Block>)
    requires task.Valid() && memory.Length == task.inst.memoryBlocks && Simulates(m, task.g)
    modifies memory
    ensures RowsOf(task.inst, memory[..]) == task.Result(RowsOf(task.inst, old(memory[..])), task.inst.segmentLength)
  {
    ghost var before := RowsOf(task.inst, memory[..]);
    var c := InitCursor(task);
    var state := LoadPrevious(m, task, memory, c);
    var i := task.first.index;
    while i < task.inst.segmentLength
      invariant task.first.index <= i <= task.inst.segmentLength
      invariant Ready(task, i, c)
      invariant RowsOf(task.inst, memory[..]) == task.Result(before, i)
      invariant m.store(state) == BlockBefore(task.inst, memory[..], task.first.lane, task.Col(i))
    {
      c, state := AdvanceOpt(m, task, memory, before, i, c, state);
      i := i + 1;
    }
  }

  // ----- Any two compressions that agree fill alike -----

  ghost predicate SameCompression(g: Compression, g': Compression) {
    forall p, r, o :: g(p, r, o) == g'(p, r, o)
  }

  lemma SameConstruction(g: Compression, g': Compression, inst: Instance)
    requires SameCompression(g, g')
    ensures ConstructsWith(Constructor(g, inst), g', inst)
  {
    forall rows: Rows, pos: Position
      ensures BlockAt(g, inst, rows, pos) == BlockAt(g', inst, rows, pos)
    {
      if inst.Shaped() && ValidPosition(inst, pos) && ValidRows(inst, rows) {
        SameNewBlock(g, g', inst, rows, pos);
      }
    }
  }

  lemma SameAddresses(g: Compression, g': Compression, inst: Instance, pos: Position, counter: u64)
    requires SameCompression(g, g')
    ensures AddressBlock(g, inst, pos, counter) == AddressBlock(g', inst, pos, counter)
  {
    var input := InputBlock(inst, pos, counter);
    assert g(ZeroBlock(), input, Overwrite) == g'(ZeroBlock(), input, Overwrite);
  }

  lemma SamePseudoRand(g: Compression, g': Compression, inst: Instance, rows: Rows, pos: Position)
    requires SameCompression(g, g')
    requires inst.Shaped() && ValidPosition(inst, pos) && ValidRows(inst, rows)
    ensures PseudoRand(g, inst, rows, pos) == PseudoRand(g', inst, rows, pos)
  {
    SameAddresses(g, g', inst, pos, pos.index / ADDRESSES_IN_BLOCK + 1);
  }

  lemma SameBlockFrom(g: Compression, g': Compression, inst: Instance, rows: Rows, pos: Position, refLane: nat,
                      refColumn: nat)
    requires SameCompression(g, g')
    requires inst.Shaped() && ValidPosition(inst, pos) && ValidRows(inst, rows)
    requires refLane < inst.lanes && refColumn < inst.laneLength
    ensures BlockFrom(g, inst, rows, pos, refLane, refColumn) == BlockFrom(g', inst, rows, pos, refLane, refColumn)
  {
    ColumnInLane(inst, pos);
    var previous: Block, reference: Block := rows[pos.lane][PreviousColumn(inst, pos)], rows[refLane][refColumn];
    var overlay: Overlay<Block> :=
      if inst.version == VERSION_10 || pos.pass == 0 then Overwrite else XorOver(rows[pos.lane][Column(inst, pos)]);
    assert g(previous, reference, overlay) == g'(previous, reference, overlay);
  }

  lemma SameNewBlock(g: Compression, g': Compression, inst: Instance, rows: Rows, pos: Position)
    requires SameCompression(g, g')
    requires inst.Shaped() && ValidPosition(inst, pos) && ValidRows(inst, rows)
    ensures NewBlock(g, inst, rows, pos) == NewBlock(g', inst, rows, pos)
  {
    SamePseudoRand(g, g', inst, rows, pos);
    var word := PseudoRand(g, inst, rows, pos);
    SameBlockFrom(g, g', inst, rows, pos, RefLane(inst, pos, word), RefColumn(inst, pos, word));
  }

  /**
   The optimised filler refines the reference one: with registers that simulate `g`, it leaves the memory
   that the reference filler leaves with `g`, for every instance and every segment.
   */
  method FillSegmentOpt<S(!new)>(g: Compression, m: Registers<S>, inst: Instance, memory: array<Block>,
                                 pass: u32, lane: u32, slice: u32)
    requires inst.Valid() && ValidSlice(inst, pass, slice) && lane < inst.lanes
    requires memory.Length == inst.memoryBlocks
    requires Simulates(m, g)
    modifies memory
    ensures RowsOf(inst, memory[..])
            == Segment(Constructor(g, inst), inst, RowsOf(inst, old(memory[..])), pass, slice, lane, inst.segmentLength)
  {
    SameConstruction(g, Stored(m), inst);
    var first := Position(pass, lane, slice, StartIndex(pass, slice));
    FillSegmentOptLoop(m, Task(Constructor(g, inst), Stored(m), inst, first), memory);
  }
}
