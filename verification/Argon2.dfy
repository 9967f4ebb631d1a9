/**
 argon2_ctx from end to end (external/argon2/argon2.c:40-100): the hash H0 of the inputs, the first two blocks of each
 lane, the fill, and the tag, as section 3.2 of RFC 9106 defines them.
 */
module Argon2 {
  import opened Words
  import opened Buffers
  import opened Layout
  import opened Contexts
  import opened Fill
  import opened FlatMemory
  import FillMemory
  import Coverage
  import Threads
  import opened Blake2bSpec
  import opened Blake2b
  import Blake2bLong

  const BLOCK_SIZE: nat := 1024

  /**
   What the algorithm is built on: BLAKE2b, its digests of 64 bytes and of any length, the compression of blocks,
   xor_block, load_block and store_block.
   */
  datatype Primitives<!W> = Primitives(
    core: Core<W>,
    digest: seq<Byte> -> seq<Byte>,
    longDigest: (nat, seq<Byte>) -> seq<Byte>,
    g: Compression,
    xor: (Block, Block) -> Block,
    load: seq<Byte> -> Block,
    store: Block -> seq<Byte>)

  /** The digests are those of BLAKE2b. */
  ghost predicate Valid<W(!new)>(p: Primitives<W>) {
    && ValidCore(p.core)
    && (forall x {:trigger Hash(p.core, OUT_BYTES, [], x)} :: p.digest(x) == Hash(p.core, OUT_BYTES, [], x))
    && forall n, x {:trigger Blake2bLong.LongHash(p.core, n, x)} ::
         p.longDigest(n, x) == Blake2bLong.LongHash(p.core, n, x)
  }

  /** Blocks and their bytes determine each other, and xor_block undoes itself. */
  ghost predicate BlockFormat<W>(p: Primitives<W>) {
    && (forall b :: |p.store(b)| == BLOCK_SIZE && p.load(p.store(b)) == b)
    && (forall bytes :: |bytes| == BLOCK_SIZE ==> p.store(p.load(bytes)) == bytes)
    && forall a, b :: p.xor(a, b) == p.xor(b, a) && p.xor(p.xor(a, b), b) == a
  }

  // ----- H0 -----

  /** A length and the bytes, LE32(|b|) || b. */
  function Field<W>(core: Core<W>, b: Buffer): seq<Byte> {
    core.le32(b.Length()) + b.Content()
  }

  function KindCode(kind: Kind): u32 {
    match kind
    case Argon2d => 0
    case Argon2i => 1
    case Argon2id => 2
  }

  /** The six numbers behind what was hashed before. */
  function PrehashNumbers<W>(core: Core<W>, before: seq<Byte>, ctx: Context, kind: Kind): seq<Byte> {
    before + core.le32(ctx.lanes) + core.le32(ctx.out.Length()) + core.le32(ctx.mCost) + core.le32(ctx.tCost)
    + core.le32(ctx.version) + core.le32(KindCode(kind))
  }

  function PrehashInput<W>(core: Core<W>, ctx: Context, kind: Kind): seq<Byte> {
    PrehashNumbers(core, [], ctx, kind) + Field(core, ctx.pwd) + Field(core, ctx.salt) + Field(core, ctx.secret)
    + Field(core, ctx.ad)
  }

  method HashNumber<W(!new)>(s: State<W>, x: nat)
    requires s.Live()
    modifies s, s.buf
    ensures s.Live() && s.data == old(s.data) + s.core.le32(x) && s.start == old(s.start) && s.outlen == old(s.outlen)
  {
    var ok := s.Update(Bytes(s.core.le32(x)));
  }

  method HashField<W(!new)>(s: State<W>, b: Buffer)
    requires s.Live()
    modifies s, s.buf
    ensures s.Live() && s.data == old(s.data) + Field(s.core, b) && s.start == old(s.start) && s.outlen == old(s.outlen)
  {
    HashNumber(s, b.Length());
    if b.Bytes? {
      var ok := s.Update(b);
    }
    assert s.data == old(s.data) + Field(s.core, b);
  }

  method HashNumbers<W(!new)>(s: State<W>, ctx: Context, kind: Kind)
    requires s.Live()
    modifies s, s.buf
    ensures s.Live() && s.data == PrehashNumbers(s.core, old(s.data), ctx, kind) && s.start == old(s.start)
            && s.outlen == old(s.outlen)
  {
    HashNumber(s, ctx.lanes);
    HashNumber(s, ctx.out.Length());
    HashNumber(s, ctx.mCost);
    HashNumber(s, ctx.tCost);
    HashNumber(s, ctx.version);
    HashNumber(s, KindCode(kind));
  }

  method HashFields<W(!new)>(s: State<W>, ctx: Context)
    requires s.Live()
    modifies s, s.buf
    ensures s.Live() && s.start == old(s.start) && s.outlen == old(s.outlen)
    ensures s.data == old(s.data) + Field(s.core, ctx.pwd) + Field(s.core, ctx.salt) + Field(s.core, ctx.secret)
                      + Field(s.core, ctx.ad)
  {
    HashField(s, ctx.pwd);
    HashField(s, ctx.salt);
    HashField(s, ctx.secret);
    HashField(s, ctx.ad);
  }

  function H0<W>(p: Primitives<W>, ctx: Context, kind: Kind): seq<Byte> {
    p.digest(PrehashInput(p.core, ctx, kind))
  }

  lemma DigestIsHashData<W(!new)>(p: Primitives<W>, x: seq<Byte>)
    requires Valid(p)
    ensures p.digest(x) == HashData(p.core, FirstState(p.core, OUT_BYTES, 0), x, OUT_BYTES)
  {
    assert p.digest(x) == Hash(p.core, OUT_BYTES, [], x);
  }

  method InitialHash<W(!new)>(p: Primitives<W>, ctx: Context, kind: Kind, blockhash: array<Byte>)
    requires Valid(p) && blockhash.Length >= OUT_BYTES
    modifies blockhash
    ensures blockhash[..OUT_BYTES] == H0(p, ctx, kind)
  {
    var s := new State(p.core);
    var ok := s.Init(OUT_BYTES);
    HashNumbers(s, ctx, kind);
    HashFields(s, ctx);
    DigestIsHashData(p, s.data);
    ok := s.Final(blockhash);
  }

  /** blake2b_long, with its success taken care of. */
  method LongDigest<W(!new)>(p: Primitives<W>, out: array<Byte>, input: seq<Byte>)
    requires Valid(p) && 1 <= out.Length < 0x1_0000_0000
    modifies out
    ensures out[..] == p.longDigest(out.Length, input)
  {
    var ok := Blake2bLong.HashLong(p.core, out, out.Length, Bytes(input));
  }

  // ----- The first two blocks of each lane -----

  /** H'^1024(H0 || LE32(column) || LE32(lane)). */
  function FirstBlock<W>(p: Primitives<W>, h0: seq<Byte>, lane: nat, column: nat): Block
  {
    p.load(p.longDigest(BLOCK_SIZE, h0 + p.core.le32(column) + p.core.le32(lane)))
  }

  /** One of the two hashes of the loop body; `blockhash` keeps H0 in front. */
  method FillFirstBlock<W(!new)>(p: Primitives<W>, inst: Instance, memory: array<Block>, h0: seq<Byte>, lane: nat,
                                 column: nat)
    requires Valid(p) && inst.Valid() && memory.Length == inst.memoryBlocks
    requires lane < inst.lanes && column < 2
    modifies memory
    ensures RowsOf(inst, memory[..])
            == Put(RowsOf(inst, old(memory[..])), lane, column, FirstBlock(p, h0, lane, column))
  {
    var bytes := new Byte[BLOCK_SIZE];
    LongDigest(p, bytes, h0 + p.core.le32(column) + p.core.le32(lane));
    var block := p.load(bytes[..]);
    WriteAt(inst, memory[..], lane, column, block);
    memory[Offset(inst, lane, column)] := block;
  }

  /** Lanes below `lanes` begin with their first two blocks. */
  ghost predicate Begun<W>(p: Primitives<W>, inst: Instance, h0: seq<Byte>, rows: Rows, lanes: nat)
    requires inst.Shaped() && ValidRows(inst, rows)
  {
    forall l :: 0 <= l < lanes && l < inst.lanes ==>
      rows[l][0] == FirstBlock(p, h0, l, 0) && rows[l][1] == FirstBlock(p, h0, l, 1)
  }

  lemma BegunOneMore<W>(p: Primitives<W>, inst: Instance, h0: seq<Byte>, rows: Rows, l: nat)
    requires inst.Shaped() && ValidRows(inst, rows) && l < inst.lanes && Begun(p, inst, h0, rows, l)
    ensures var once := Put(rows, l, 0, FirstBlock(p, h0, l, 0));
            var twice := Put(once, l, 1, FirstBlock(p, h0, l, 1));
            ValidRows(inst, twice) && Begun(p, inst, h0, twice, l + 1)
  {
  }

  method FillFirstBlocks<W(!new)>(p: Primitives<W>, inst: Instance, memory: array<Block>, h0: seq<Byte>)
    requires Valid(p) && inst.Valid() && memory.Length == inst.memoryBlocks
    modifies memory
    ensures Begun(p, inst, h0, RowsOf(inst, memory[..]), inst.lanes)
  {
    for l := 0 to inst.lanes
      invariant Begun(p, inst, h0, RowsOf(inst, memory[..]), l)
    {
      BegunOneMore(p, inst, h0, RowsOf(inst, memory[..]), l);
      FillFirstBlock(p, inst, memory, h0, l, 0);
      FillFirstBlock(p, inst, memory, h0, l, 1);
    }
  }

  // ----- The tag -----

  /** XOR of the last blocks of lanes 0 to n. */
  function LastBlocks(xor: (Block, Block) -> Block, inst: Instance, rows: Rows, n: nat): Block
    requires inst.Shaped() && ValidRows(inst, rows) && n < inst.lanes
  {
    var last := rows[n][inst.laneLength - 1];
    if n == 0 then last else xor(LastBlocks(xor, inst, rows, n - 1), last)
  }

  /** H'^T of the XOR of the last column. */
  function TagOf<W>(p: Primitives<W>, inst: Instance, rows: Rows, outlen: nat): (tag: seq<Byte>)
    requires inst.Shaped() && ValidRows(inst, rows)
  {
    p.longDigest(outlen, p.store(LastBlocks(p.xor, inst, rows, inst.lanes - 1)))
  }

  lemma TagOfBlock<W>(p: Primitives<W>, inst: Instance, rows: Rows, outlen: nat, blockhash: Block)
    requires inst.Shaped() && ValidRows(inst, rows) && blockhash == LastBlocks(p.xor, inst, rows, inst.lanes - 1)
    ensures TagOf(p, inst, rows, outlen) == p.longDigest(outlen, p.store(blockhash))
  {
  }

  /** The last block of a lane, where it is in memory. */
  method LastBlock(inst: Instance, memory: array<Block>, lane: nat) returns (block: Block)
    requires inst.Valid() && memory.Length == inst.memoryBlocks && lane < inst.lanes
    ensures block == RowsOf(inst, memory[..])[lane][inst.laneLength - 1]
  {
    ReadAt(inst, memory[..], lane, inst.laneLength - 1);
    block := memory[Offset(inst, lane, inst.laneLength - 1)];
  }

  method XorLastBlocks(xor: (Block, Block) -> Block, inst: Instance, memory: array<Block>, ghost rows: Rows)
    returns (blockhash: Block)
    requires inst.Valid() && memory.Length == inst.memoryBlocks && rows == RowsOf(inst, memory[..])
    ensures blockhash == LastBlocks(xor, inst, rows, inst.lanes - 1)
  {
    blockhash := LastBlock(inst, memory, 0);
    var l := 1;
    while l < inst.lanes
      invariant 1 <= l <= inst.lanes
      invariant blockhash == LastBlocks(xor, inst, rows, l - 1)
    {
      var last := LastBlock(inst, memory, l);
      blockhash := xor(blockhash, last);
      l := l + 1;
    }
  }

  method Finalize<W(!new)>(p: Primitives<W>, inst: Instance, memory: array<Block>, ghost rows: Rows, out: array<Byte>)
    requires Valid(p) && inst.Valid() && memory.Length == inst.memoryBlocks && rows == RowsOf(inst, memory[..])
    requires 1 <= out.Length < 0x1_0000_0000
    modifies out
    ensures out[..] == TagOf(p, inst, rows, out.Length)
  {
    var blockhash := XorLastBlocks(p.xor, inst, memory, rows);
    var bytes := p.store(blockhash);
    TagOfBlock(p, inst, rows, out.Length, blockhash);
    LongDigest(p, out, bytes);
  }

  // ----- The whole -----

  function BeginningBlock<W>(p: Primitives<W>, h0: seq<Byte>, lane: nat, column: nat): Block {
    if column < 2 then FirstBlock(p, h0, lane, column) else ZeroBlock()
  }

  function BeginningRow<W>(p: Primitives<W>, inst: Instance, h0: seq<Byte>, lane: nat): (row: seq<Block>)
    ensures |row| == inst.laneLength
  {
    seq(inst.laneLength, c requires 0 <= c < inst.laneLength => BeginningBlock(p, h0, lane, c))
  }

  /** The memory before the fill: the first two blocks of each lane, and zeros. */
  function Beginning<W>(p: Primitives<W>, inst: Instance, h0: seq<Byte>): (rows: Rows)
    requires inst.Shaped()
    ensures ValidRows(inst, rows)
  {
    seq(inst.lanes, l requires 0 <= l < inst.lanes => BeginningRow(p, inst, h0, l))
  }

  /** Argon2 of a validated context, section 3.2 of RFC 9106: a function of the inputs alone. */
  function Tag<W>(p: Primitives<W>, ctx: Context, kind: Kind): (tag: seq<Byte>)
    requires ctx.Valid() && ValidateInputs(ctx) == Ok
  {
    GeometryIsValid(ctx, kind);
    var inst := Geometry(ctx, kind);
    TagOf(p, inst, Filled(p.g, inst, Beginning(p, inst, H0(p, ctx, kind))), ctx.out.Length())
  }

  lemma BegunIsEnough<W>(p: Primitives<W>, inst: Instance, h0: seq<Byte>, rows: Rows)
    requires inst.Shaped() && ValidRows(inst, rows) && Begun(p, inst, h0, rows, inst.lanes)
    ensures Filled(p.g, inst, rows) == Filled(p.g, inst, Beginning(p, inst, h0))
  {
    Coverage.FirstBlocksDetermineTheFill(p.g, inst, rows, Beginning(p, inst, h0));
  }

  /** However many threads fill the memory, and in whatever order they are scheduled, the tag is the same. */
  lemma ThreadedTag<W>(p: Primitives<W>, ctx: Context, kind: Kind, before: Rows, after: Rows)
    requires ctx.Valid() && ValidateInputs(ctx) == Ok && Geometry(ctx, kind).Shaped()
             && ValidRows(Geometry(ctx, kind), before)
    requires Begun(p, Geometry(ctx, kind), H0(p, ctx, kind), before, Geometry(ctx, kind).lanes)
    requires Threads.FillOutcome(p.g, Geometry(ctx, kind), before, after)
    ensures ValidRows(Geometry(ctx, kind), after)
    ensures TagOf(p, Geometry(ctx, kind), after, ctx.out.Length()) == Tag(p, ctx, kind)
  {
    var inst := Geometry(ctx, kind);
    Threads.ThreadedFillIsSequential(p.g, inst, before, after);
    BegunIsEnough(p, inst, H0(p, ctx, kind), before);
  }

  /** Steps 3 to 5: the memory is taken as the allocator left it. */
  method Run<W(!new)>(p: Primitives<W>, inst: Instance, h0: seq<Byte>, memory: array<Block>, out: array<Byte>)
    requires Valid(p) && inst.Valid() && memory.Length == inst.memoryBlocks
    requires 1 <= out.Length < 0x1_0000_0000
    modifies memory, out
    ensures out[..] == TagOf(p, inst, Filled(p.g, inst, Beginning(p, inst, h0)), out.Length)
  {
    FillFirstBlocks(p, inst, memory, h0);
    BegunIsEnough(p, inst, h0, RowsOf(inst, memory[..]));
    FillMemory.FillMemoryBlocks(p.g, inst, memory);
    Finalize(p, inst, memory, RowsOf(inst, memory[..]), out);
  }

  /**
   argon2_ctx, single-threaded, with `out` the output array that the context describes. The tag depends on the
   context and the type only, not on what was in the memory or in `out`.
   */
  method Argon2Ctx<W(!new)>(p: Primitives<W>, ctx: Context, kind: Kind, out: array<Byte>) returns (result: Outcome)
    requires Valid(p) && ctx.Valid() && (ctx.out.Bytes? ==> ctx.out.data == out[..])
    modifies out
    ensures result == ValidateInputs(ctx)
    ensures result == Ok ==> out[..] == Tag(p, ctx, kind)
    ensures result != Ok ==> unchanged(out)
  {
    result := ValidateInputs(ctx);
    if result != Ok {
      return;
    }
    GeometryIsValid(ctx, kind);
    var inst := Geometry(ctx, kind);
    var blockhash := new Byte[72];
    InitialHash(p, ctx, kind, blockhash);
    var memory := new Block[inst.memoryBlocks];
    Run(p, inst, blockhash[..OUT_BYTES], memory, out);
  }
}
