/**
 The two compiled forms of fill_block on blocks in memory, and the theorem that ties external/argon2/opt.c to
 external/argon2/ref.c for the SSE2 and SSSE3 builds.
 */
module Compressions {
  import opened Words
  import opened WordBytes
  import opened Layout
  import opened Fill
  import opened FlatMemory
  import opened BlaMka
  import opened FillBlock
  import opened WordOps
  import opened OptSegment

  function ToBits(b: Block): (v: seq<bv64>)
    ensures |v| == 128
  {
    seq(128, i requires 0 <= i < 128 => WordBits(b[i]))
  }

  function FromBits(v: seq<bv64>): (b: Block)
    requires |v| == 128
  {
    seq(128, i requires 0 <= i < 128 => BitsWord(v[i]))
  }

  lemma FromToBits(b: Block)
    ensures FromBits(ToBits(b)) == b
  {
    forall i | 0 <= i < 128
      ensures FromBits(ToBits(b))[i] == b[i]
    {
      WordOfBits(b[i]);
    }
  }

  lemma ToFromBits(v: seq<bv64>)
    requires |v| == 128
    ensures ToBits(FromBits(v)) == v
  {
    forall i | 0 <= i < 128
      ensures ToBits(FromBits(v))[i] == v[i]
    {
      BitsOfWord(v[i]);
    }
  }

  function OverlayBits(overlay: Overlay<Block>): (o: Overlay<seq<bv64>>)
    ensures Block128(o)
  {
    match overlay
    case Overwrite => Overwrite
    case XorOver(present) => XorOver(ToBits(present))
  }

  /** fill_block of ref.c on blocks. */
  function ReferenceOf(o: Ops<bv64>): Compression {
    (prev: Block, reference: Block, overlay: Overlay<Block>) =>
      FromBits(Compress(o, ToBits(prev), ToBits(reference), OverlayBits(overlay)))
  }

  function Reference(): Compression {
    ReferenceOf(ScalarOps())
  }

  /** The 64 registers that hold a block. */
  type State = s: seq<Xmm> | |s| == 64 witness seq(64, _ => Reg(0, 0))

  function LoadState(b: Block): State {
    Load(ToBits(b))
  }

  function StoreState(s: State): Block {
    FromBits(Unpack(s))
  }

  /** fill_block of opt.c on registers. */
  function FillState(ro: Ops<Xmm>, ssse3: bool, s: State, reference: Block, overlay: Overlay<Block>): State {
    CompressRegisters(ro, ssse3, s, ToBits(reference), OverlayBits(overlay))
  }

  function RegistersOf(ro: Ops<Xmm>, ssse3: bool): Registers<State> {
    Registers((b: Block) => LoadState(b), (s: State) => StoreState(s),
              (s: State, r: Block, o: Overlay<Block>) => FillState(ro, ssse3, s, r, o))
  }

  /** The registers of SSE2 or SSSE3. */
  function Sse(ssse3: bool): Registers<State> {
    RegistersOf(SseOps(ssse3), ssse3)
  }

  lemma StoreLoaded(b: Block)
    ensures StoreState(LoadState(b)) == b
  {
    UnpackLoad(ToBits(b));
    FromToBits(b);
  }

  lemma XorIsCommutative()
    ensures Commutes(ScalarOps())
  {
  }

  /** Compressing in registers gives the block that ref.c computes from the block the registers held. */
  lemma StoredFill(ro: Ops<Xmm>, o: Ops<bv64>, ssse3: bool, s: State, reference: Block, overlay: Overlay<Block>)
    requires Lifts(ro, o) && Commutes(o)
    ensures StoreState(FillState(ro, ssse3, s, reference, overlay))
            == FromBits(Compress(o, ToBits(StoreState(s)), ToBits(reference), OverlayBits(overlay)))
  {
    ToFromBits(Unpack(s));
    CompressRegistersRefines(ro, o, ssse3, s, ToBits(reference), OverlayBits(overlay));
  }

  /** Registers whose operations work lane by lane simulate the scalar compression. */
  lemma RegistersSimulate(ro: Ops<Xmm>, o: Ops<bv64>, ssse3: bool)
    requires Lifts(ro, o) && Commutes(o)
    ensures Simulates(RegistersOf(ro, ssse3), ReferenceOf(o))
  {
    var m := RegistersOf(ro, ssse3);
    forall b: Block
      ensures m.store(m.load(b)) == b
    {
      StoreLoaded(b);
    }
    forall s: State, r: Block, overlay: Overlay<Block>
      ensures m.store(m.fill(s, r, overlay)) == ReferenceOf(o)(m.store(s), r, overlay)
    {
      StoredFill(ro, o, ssse3, s, r, overlay);
    }
  }

  /** The 128-bit compression simulates the scalar one, on SSE2 and on SSSE3. */
  lemma SseSimulatesReference(ssse3: bool)
    ensures Simulates(Sse(ssse3), Reference())
  {
    SseOpsLift(ssse3);
    XorIsCommutative();
    RegistersSimulate(SseOps(ssse3), ScalarOps(), ssse3);
  }

  /** fill_segment of opt.c leaves exactly the memory that fill_segment of ref.c leaves. */
  method FillSegmentSse(ssse3: bool, inst: Instance, memory: array<Block>, pass: u32, lane: u32, slice: u32)
    requires inst.Valid() && ValidSlice(inst, pass, slice) && lane < inst.lanes
    requires memory.Length == inst.memoryBlocks
    modifies memory
    ensures RowsOf(inst, memory[..])
            == Segment(Constructor(Reference(), inst), inst, RowsOf(inst, old(memory[..])), pass, slice, lane,
                       inst.segmentLength)
  {
    SseSimulatesReference(ssse3);
    FillSegmentOpt(Reference(), Sse(ssse3), inst, memory, pass, lane, slice);
  }
}
