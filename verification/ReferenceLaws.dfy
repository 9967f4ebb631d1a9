/**
 The construction of a block as sections 3.4.1 and 3.4.2 of RFC 9106 give it: which number goes where, without the
 names that fill_segment and its definition share (external/argon2/ref.c:87-208).
 */
module ReferenceLaws {
  import opened Words
  import opened Layout
  import opened ReferenceWindow
  import opened Fill

  /** Argon2i throughout, Argon2id in the first half of the first pass. */
  lemma IndependentSegments(inst: Instance, pos: Position)
    ensures inst.kind == Argon2d ==> !DataIndependent(inst, pos)
    ensures inst.kind == Argon2i ==> DataIndependent(inst, pos)
    ensures inst.kind == Argon2id ==> (DataIndependent(inst, pos) <==> pos.pass == 0 && pos.slice <= 1)
  {
  }

  /** The block that section 3.4.1.2 of RFC 9106 feeds to the compression: r, l, sl, m', t, y, the counter, zeros. */
  ghost predicate IsAddressInput(inst: Instance, pos: Position, counter: u64, input: Block) {
    && input[0] == pos.pass && input[1] == pos.lane && input[2] == pos.slice
    && input[3] == inst.memoryBlocks && input[4] == inst.passes
    && input[5] == (if inst.kind == Argon2d then 0 else if inst.kind == Argon2i then 1 else 2)
    && input[6] == counter
    && forall k :: 7 <= k < 128 ==> input[k] == 0
  }

  ghost predicate IsZero(b: Block) {
    forall k :: 0 <= k < 128 ==> b[k] == 0
  }

  /** A block of addresses is that input, compressed twice with a zero block, whatever the compression. */
  lemma AddressBlockOfRfc(g: Compression, inst: Instance, pos: Position, counter: u64, zero: Block, input: Block)
    requires IsZero(zero) && IsAddressInput(inst, pos, counter, input)
    ensures AddressBlock(g, inst, pos, counter) == g(zero, g(zero, input, Overwrite), Overwrite)
  {
    assert zero == ZeroBlock();
    assert input == InputBlock(inst, pos, counter);
  }

  /** The cyclic predecessor of a column. */
  lemma PreviousIsCyclic(inst: Instance, pos: Position, prev: nat)
    requires inst.Shaped() && ValidPosition(inst, pos)
    requires prev < inst.laneLength && (prev + 1) % inst.laneLength == Column(inst, pos)
    ensures PreviousColumn(inst, pos) == prev
  {
    ColumnInLane(inst, pos);
    if prev + 1 < inst.laneLength {
      SmallMod(prev + 1, inst.laneLength);
    } else {
      DivModUnique(prev + 1, 1, 0, inst.laneLength);
    }
  }

  /** Where J1 || J2 comes from: the first word of the previous block, or a word of the addresses. */
  ghost predicate IsRandomWord(g: Compression, inst: Instance, rows: Rows, pos: Position, prev: nat, word: u64)
    requires ValidRows(inst, rows) && pos.lane < inst.lanes && prev < inst.laneLength
  {
    word == if inst.kind == Argon2i || (inst.kind == Argon2id && pos.pass == 0 && pos.slice <= 1)
            then AddressBlock(g, inst, pos, pos.index / 128 + 1)[pos.index % 128]
            else rows[pos.lane][prev][0]
  }

  /**
   The reference block of section 3.4.2 of RFC 9106: J2, the high half of the word, chooses the lane, but in the very
   first slice there is none to choose; J1, the low half, chooses the block of the window in that lane.
   */
  lemma ReferenceOfRfc(g: Compression, inst: Instance, rows: Rows, pos: Position, prev: nat, j1: u32, j2: u32)
    returns (birth: nat)
    requires inst.Shaped() && ValidPosition(inst, pos) && ValidRows(inst, rows)
    requires prev < inst.laneLength && (prev + 1) % inst.laneLength == Column(inst, pos)
    requires IsRandomWord(g, inst, rows, pos, prev, j2 * 0x1_0000_0000 + j1)
    ensures var r := ReferenceOf(g, inst, rows, pos);
            && r.lane == (if pos.pass == 0 && pos.slice == 0 then pos.lane else j2 % inst.lanes)
            && WindowStart(inst, pos) <= birth < WindowEnd(inst, pos, r.lane == pos.lane)
            && birth == WindowStart(inst, pos)
                        + WindowIndex(WindowEnd(inst, pos, r.lane == pos.lane) - WindowStart(inst, pos), j1)
            && r.column == birth % inst.laneLength
  {
    PreviousIsCyclic(inst, pos, prev);
    var word := j2 * 0x1_0000_0000 + j1;
    assert PseudoRand(g, inst, rows, pos) == word;
    DivModUnique(word, j2, j1, 0x1_0000_0000);
    birth := IndexAlphaSelectsFromWindow(inst, pos, j1, RefLane(inst, pos, word) == pos.lane);
  }

  /**
   The new block: the previous block of the lane and the reference block are compressed, and from version 0x13 on the
   block that is there is XORed over in the later passes.
   */
  lemma NewBlockOfRfc(g: Compression, inst: Instance, rows: Rows, pos: Position, column: nat, prev: nat)
    requires inst.Shaped() && ValidPosition(inst, pos) && ValidRows(inst, rows)
    requires column == pos.slice * inst.segmentLength + pos.index
    requires prev < inst.laneLength && (prev + 1) % inst.laneLength == column
    ensures column < inst.laneLength
    ensures var r := ReferenceOf(g, inst, rows, pos);
            NewBlock(g, inst, rows, pos)
            == g(rows[pos.lane][prev], rows[r.lane][r.column],
                 if pos.pass > 0 && inst.version != 0x10 then XorOver(rows[pos.lane][column]) else Overwrite)
  {
    SliceStartIsProduct(inst, pos.slice);
    PreviousIsCyclic(inst, pos, prev);
    ColumnInLane(inst, pos);
  }

  /** In the very first slice the first two blocks of a lane are skipped, in no other. */
  lemma FirstIndex(pass: u32, slice: u32)
    ensures StartIndex(pass, slice) == if pass == 0 && slice == 0 then 2 else 0
  {
  }
}
