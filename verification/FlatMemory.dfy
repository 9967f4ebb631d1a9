/** The memory as one array of blocks: lane `l` occupies the `lane_length` blocks from `l * lane_length` on. */
module FlatMemory {
  import opened Words
  import opened Layout
  import opened ReferenceWindow
  import opened Fill

  function Offset(inst: Instance, lane: nat, column: nat): nat {
    Turns(lane, inst.laneLength) + column
  }

  lemma {:induction false} TurnsMonotone(j: nat, k: nat, m: nat)
    requires j < k
    ensures Turns(j, m) + m <= Turns(k, m)
  {
    if j + 1 < k {
      TurnsMonotone(j, k - 1, m);
    }
  }

  /** Offsets stay inside the memory, and two places never share one. */
  lemma OffsetsInjective(inst: Instance, lane: nat, column: nat, lane': nat, column': nat)
    requires inst.Valid()
    requires lane < inst.lanes && lane' < inst.lanes && column < inst.laneLength && column' < inst.laneLength
    ensures Offset(inst, lane, column) < inst.memoryBlocks
    ensures Offset(inst, lane, column) == Offset(inst, lane', column') <==> lane == lane' && column == column'
  {
    TurnsMonotone(lane, inst.lanes, inst.laneLength);
    if lane < lane' {
      TurnsMonotone(lane, lane', inst.laneLength);
    } else if lane' < lane {
      TurnsMonotone(lane', lane, inst.laneLength);
    }
  }

  lemma LaneInMemory(inst: Instance, lane: nat)
    requires inst.Valid() && lane < inst.lanes
    ensures Offset(inst, lane, inst.laneLength) <= inst.memoryBlocks
  {
    TurnsMonotone(lane, inst.lanes, inst.laneLength);
  }

  function RowOf(inst: Instance, memory: seq<Block>, lane: nat): (row: seq<Block>)
    requires inst.Valid() && |memory| == inst.memoryBlocks && lane < inst.lanes
    ensures |row| == inst.laneLength
  {
    LaneInMemory(inst, lane);
    memory[Offset(inst, lane, 0)..Offset(inst, lane, inst.laneLength)]
  }

  function RowsOf(inst: Instance, memory: seq<Block>): (rows: Rows)
    requires inst.Valid() && |memory| == inst.memoryBlocks
    ensures ValidRows(inst, rows)
  {
    seq(inst.lanes, l requires 0 <= l < inst.lanes => RowOf(inst, memory, l))
  }

  lemma ReadAt(inst: Instance, memory: seq<Block>, lane: nat, column: nat)
    requires inst.Valid() && |memory| == inst.memoryBlocks && lane < inst.lanes && column < inst.laneLength
    ensures Offset(inst, lane, column) < |memory|
    ensures RowsOf(inst, memory)[lane][column] == memory[Offset(inst, lane, column)]
  {
    OffsetsInjective(inst, lane, column, lane, column);
    LaneInMemory(inst, lane);
    var row := memory[Offset(inst, lane, 0)..Offset(inst, lane, inst.laneLength)];
    assert RowsOf(inst, memory)[lane] == row;
    assert row[column] == memory[Offset(inst, lane, 0) + column];
  }

  lemma WriteAt(inst: Instance, memory: seq<Block>, lane: nat, column: nat, block: Block)
    requires inst.Valid() && |memory| == inst.memoryBlocks && lane < inst.lanes && column < inst.laneLength
    ensures Offset(inst, lane, column) < |memory|
    ensures RowsOf(inst, memory[Offset(inst, lane, column) := block]) == Put(RowsOf(inst, memory), lane, column, block)
  {
    OffsetsInjective(inst, lane, column, lane, column);
    var after: seq<Block> := memory[Offset(inst, lane, column) := block];
    var put := Put(RowsOf(inst, memory), lane, column, block);
    forall l | 0 <= l < inst.lanes
      ensures RowsOf(inst, after)[l] == put[l]
    {
      forall c | 0 <= c < inst.laneLength
        ensures RowsOf(inst, after)[l][c] == put[l][c]
      {
        ReadAt(inst, after, l, c);
        ReadAt(inst, memory, l, c);
        OffsetsInjective(inst, lane, column, l, c);
      }
    }
  }

  /** One construction step, carried out on the flat memory. */
  lemma FlatStep(next: Construct, g: Compression, inst: Instance, memory: seq<Block>, pos: Position, word: u64,
                 prev: nat, reference: nat, curr: nat, overlay: Overlay<Block>)
    requires ConstructsWith(next, g, inst)
    requires inst.Valid() && ValidPosition(inst, pos) && |memory| == inst.memoryBlocks
    requires word == PseudoRand(g, inst, RowsOf(inst, memory), pos)
    requires prev == Offset(inst, pos.lane, PreviousColumn(inst, pos)) < |memory|
    requires reference == Offset(inst, RefLane(inst, pos, word), RefColumn(inst, pos, word)) < |memory|
    requires curr == Offset(inst, pos.lane, Column(inst, pos)) < |memory|
    requires overlay == if inst.version == VERSION_10 || pos.pass == 0 then Overwrite else XorOver(memory[curr])
    ensures RowsOf(inst, memory[curr := g(memory[prev], memory[reference], overlay)])
            == Step(next, inst, RowsOf(inst, memory), pos)
  {
    ColumnInLane(inst, pos);
    ReadAt(inst, memory, pos.lane, PreviousColumn(inst, pos));
    ReadAt(inst, memory, RefLane(inst, pos, word), RefColumn(inst, pos, word));
    ReadAt(inst, memory, pos.lane, Column(inst, pos));
    WriteAt(inst, memory, pos.lane, Column(inst, pos), g(memory[prev], memory[reference], overlay));
    assert next(RowsOf(inst, memory), pos) == BlockAt(g, inst, RowsOf(inst, memory), pos);
    assert BlockAt(g, inst, RowsOf(inst, memory), pos) == g(memory[prev], memory[reference], overlay);
  }
}
