/** The single-threaded fill of the whole memory, external/argon2/core.c:301-319. */
module FillMemory {
  import opened Words
  import opened Layout
  import opened Fill
  import opened FlatMemory
  import FillSegment

  /** What one fill has to do; the memory it starts from is kept for the invariants. */
  datatype FillJob = FillJob(g: Compression, inst: Instance, before: Rows)
  {
    ghost predicate Valid() {
      inst.Valid() && ValidRows(inst, before)
    }

    /** The memory when slice `slice` of pass `pass` begins. */
    ghost function At(pass: nat, slice: nat): (r: Rows)
      requires Valid() && pass <= inst.passes && slice <= SYNC_POINTS && (pass == inst.passes ==> slice == 0)
      ensures ValidRows(inst, r)
    {
      Slices(Constructor(g, inst), inst, before, SYNC_POINTS * pass + slice)
    }

    ghost function Within(pass: u32, slice: u32, lanes: u32): (r: Rows)
      requires Valid() && ValidSlice(inst, pass, slice) && lanes <= inst.lanes
      ensures ValidRows(inst, r)
    {
      Slice(Constructor(g, inst), inst, At(pass, slice), pass, slice, lanes)
    }
  }

  lemma NextLane(f: FillJob, pass: u32, slice: u32, lane: u32)
    requires f.Valid() && ValidSlice(f.inst, pass, slice) && lane < f.inst.lanes
    ensures f.Within(pass, slice, lane + 1)
            == Segment(Constructor(f.g, f.inst), f.inst, f.Within(pass, slice, lane), pass, slice, lane,
                       f.inst.segmentLength)
  {
  }

  lemma NextSlice(f: FillJob, pass: u32, slice: u32)
    requires f.Valid() && ValidSlice(f.inst, pass, slice)
    ensures f.Within(pass, slice, f.inst.lanes) == f.At(pass, slice + 1)
  {
    var n := SYNC_POINTS * pass + slice;
    assert n / SYNC_POINTS == pass && n % SYNC_POINTS == slice;
  }

  method FillLane(f: FillJob, memory: array<Block>, pass: u32, slice: u32, lane: u32)
    requires f.Valid() && ValidSlice(f.inst, pass, slice) && memory.Length == f.inst.memoryBlocks && lane < f.inst.lanes
    requires RowsOf(f.inst, memory[..]) == f.Within(pass, slice, lane)
    modifies memory
    ensures RowsOf(f.inst, memory[..]) == f.Within(pass, slice, lane + 1)
  {
    NextLane(f, pass, slice, lane);
    ghost var _ := FillSegment.FillSegment(f.g, f.inst, memory, pass, lane, slice);
  }

  method FillLanes(f: FillJob, memory: array<Block>, pass: u32, slice: u32)
    requires f.Valid() && ValidSlice(f.inst, pass, slice) && memory.Length == f.inst.memoryBlocks
    requires RowsOf(f.inst, memory[..]) == f.Within(pass, slice, 0)
    modifies memory
    ensures RowsOf(f.inst, memory[..]) == f.Within(pass, slice, f.inst.lanes)
  {
    for l := 0 to f.inst.lanes
      invariant RowsOf(f.inst, memory[..]) == f.Within(pass, slice, l)
    {
      FillLane(f, memory, pass, slice, l);
    }
  }

  method FillSlice(f: FillJob, memory: array<Block>, pass: u32, slice: u32)
    requires f.Valid() && ValidSlice(f.inst, pass, slice) && memory.Length == f.inst.memoryBlocks
    requires RowsOf(f.inst, memory[..]) == f.At(pass, slice)
    modifies memory
    ensures RowsOf(f.inst, memory[..]) == f.At(pass, slice + 1)
  {
    FillLanes(f, memory, pass, slice);
    NextSlice(f, pass, slice);
  }

  method FillSlices(f: FillJob, memory: array<Block>, pass: u32)
    requires f.Valid() && pass < f.inst.passes && memory.Length == f.inst.memoryBlocks
    requires RowsOf(f.inst, memory[..]) == f.At(pass, 0)
    modifies memory
    ensures RowsOf(f.inst, memory[..]) == f.At(pass + 1, 0)
  {
    for s := 0 to SYNC_POINTS
      invariant RowsOf(f.inst, memory[..]) == f.At(pass, s)
    {
      FillSlice(f, memory, pass, s);
    }
    NextPass(f, pass);
  }

  lemma NextPass(f: FillJob, pass: u32)
    requires f.Valid() && pass < f.inst.passes
    ensures f.At(pass, SYNC_POINTS) == f.At(pass + 1, 0)
  {
    assert SYNC_POINTS * pass + SYNC_POINTS == SYNC_POINTS * (pass + 1) + 0;
  }

  method FillPasses(f: FillJob, memory: array<Block>)
    requires f.Valid() && memory.Length == f.inst.memoryBlocks
    requires RowsOf(f.inst, memory[..]) == f.At(0, 0)
    modifies memory
    ensures RowsOf(f.inst, memory[..]) == f.At(f.inst.passes, 0)
  {
    for r := 0 to f.inst.passes
      invariant RowsOf(f.inst, memory[..]) == f.At(r, 0)
    {
      FillSlices(f, memory, r);
    }
  }

  method FillMemoryBlocks(g: Compression, inst: Instance, memory: array<Block>)
    requires inst.Valid() && memory.Length == inst.memoryBlocks
    modifies memory
    ensures RowsOf(inst, memory[..]) == Filled(g, inst, RowsOf(inst, old(memory[..])))
  {
    FillPasses(FillJob(g, inst, RowsOf(inst, memory[..])), memory);
  }
}
