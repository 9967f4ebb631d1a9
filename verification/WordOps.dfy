/**
 The word operations the compiled code uses: the scalar ones (external/argon2/blamka-round-ref.h:25-30,
 external/argon2/blake2-impl.h:158-162), and the ones on 128-bit registers with SSE2 or SSSE3
 (external/argon2/blamka-round-opt.h:35-63).
 */
module WordOps {
  import opened BlaMka

  /** The 64-bit product of the low 32 bits of two words. */
  function LowProduct(x: bv64, y: bv64): bv64 {
    (x & 0xFFFF_FFFF) * (y & 0xFFFF_FFFF)
  }

  function Mix(x: bv64, y: bv64, xy: bv64): bv64 {
    x + y + 2 * xy
  }

  function FBlaMka(x: bv64, y: bv64): bv64 {
    Mix(x, y, LowProduct(x, y))
  }

  function Xor64(x: bv64, y: bv64): bv64 {
    x ^ y
  }

  function Rotr64(w: bv64, c: nat): bv64 {
    if c == 16 then (w >> 16) | (w << 48)
    else if c == 24 then (w >> 24) | (w << 40)
    else if c == 32 then (w >> 32) | (w << 32)
    else if c == 63 then (w >> 63) | (w << 1)
    else w // the round uses no other rotation
  }

  function ScalarOps(): Ops<bv64> {
    Ops(FBlaMka, Xor64, Rotr64)
  }

  // ----- Registers -----

  type Xmm = Reg<bv64>

  function XorSi128(x: Xmm, y: Xmm): Xmm {
    Reg(x.lo ^ y.lo, x.hi ^ y.hi)
  }

  /** One half of the register fBlaMka: _mm_mul_epu32 gives z, and _mm_add_epi64 adds x + y and z + z. */
  function MixHalf(x: bv64, y: bv64, z: bv64): bv64 {
    (x + y) + (z + z)
  }

  function FBlaMka128(x: Xmm, y: Xmm): Xmm {
    Reg(MixHalf(x.lo, y.lo, LowProduct(x.lo, y.lo)), MixHalf(x.hi, y.hi, LowProduct(x.hi, y.hi)))
  }

  /** One half of _mm_roti_epi64 on SSE2: two shifts and an exclusive or. */
  function ShiftXor(w: bv64, c: nat): bv64 {
    if c == 16 then (w >> 16) ^ (w << 48)
    else if c == 24 then (w >> 24) ^ (w << 40)
    else if c == 32 then (w >> 32) ^ (w << 32)
    else if c == 63 then (w >> 63) ^ (w << 1)
    else w
  }

  function RotiSse2(x: Xmm, c: nat): Xmm {
    Reg(ShiftXor(x.lo, c), ShiftXor(x.hi, c))
  }

  function ByteOf(x: bv64, k: nat): bv64 {
    if k == 0 then x & 0xFF
    else if k == 1 then (x >> 8) & 0xFF
    else if k == 2 then (x >> 16) & 0xFF
    else if k == 3 then (x >> 24) & 0xFF
    else if k == 4 then (x >> 32) & 0xFF
    else if k == 5 then (x >> 40) & 0xFF
    else if k == 6 then (x >> 48) & 0xFF
    else x >> 56
  }

  /** The source byte of a register, counting its sixteen bytes from the low end. */
  function SourceByte(x: Xmm, k: nat): bv64 {
    if k < 8 then ByteOf(x.lo, k) else ByteOf(x.hi, k - 8)
  }

  function Assemble(b0: bv64, b1: bv64, b2: bv64, b3: bv64, b4: bv64, b5: bv64, b6: bv64, b7: bv64): bv64 {
    b0 | (b1 << 8) | (b2 << 16) | (b3 << 24) | (b4 << 32) | (b5 << 40) | (b6 << 48) | (b7 << 56)
  }

  /** _mm_shuffle_epi8 with the mask _mm_setr_epi8(m[0], ..., m[15]). */
  function ShuffleEpi8(x: Xmm, m: seq<nat>): Xmm
    requires |m| == 16
  {
    Reg(Assemble(SourceByte(x, m[0]), SourceByte(x, m[1]), SourceByte(x, m[2]), SourceByte(x, m[3]),
                 SourceByte(x, m[4]), SourceByte(x, m[5]), SourceByte(x, m[6]), SourceByte(x, m[7])),
        Assemble(SourceByte(x, m[8]), SourceByte(x, m[9]), SourceByte(x, m[10]), SourceByte(x, m[11]),
                 SourceByte(x, m[12]), SourceByte(x, m[13]), SourceByte(x, m[14]), SourceByte(x, m[15])))
  }

  function SwapHalves(w: bv64): bv64 {
    (w >> 32) | ((w & 0xFFFF_FFFF) << 32)
  }

  /** _mm_shuffle_epi32 with _MM_SHUFFLE(2, 3, 0, 1): the two 32-bit words of each half change places. */
  function SwapDwords(x: Xmm): Xmm {
    Reg(SwapHalves(x.lo), SwapHalves(x.hi))
  }

  function ShiftAdd(w: bv64): bv64 {
    (w >> 63) ^ (w + w)
  }

  const R16: seq<nat> := [2, 3, 4, 5, 6, 7, 0, 1, 10, 11, 12, 13, 14, 15, 8, 9]
  const R24: seq<nat> := [3, 4, 5, 6, 7, 0, 1, 2, 11, 12, 13, 14, 15, 8, 9, 10]

  /** _mm_roti_epi64 on SSSE3: byte shuffles, and a shift with an addition for 63. */
  function RotiSsse3(x: Xmm, c: nat): Xmm {
    if c == 32 then SwapDwords(x)
    else if c == 24 then ShuffleEpi8(x, R24)
    else if c == 16 then ShuffleEpi8(x, R16)
    else if c == 63 then Reg(ShiftAdd(x.lo), ShiftAdd(x.hi))
    else x
  }

  function SseOps(ssse3: bool): Ops<Xmm> {
    Ops(FBlaMka128, XorSi128, if ssse3 then RotiSsse3 else RotiSse2)
  }

  // ----- The registers work lane by lane -----

  lemma MixHalfIsMix(x: bv64, y: bv64, z: bv64)
    ensures MixHalf(x, y, z) == Mix(x, y, z)
  {
  }

  lemma ShiftXorRotates(w: bv64, c: nat)
    ensures ShiftXor(w, c) == Rotr64(w, c)
  {
  }

  lemma BytesRotate16(w: bv64)
    ensures Assemble(ByteOf(w, 2), ByteOf(w, 3), ByteOf(w, 4), ByteOf(w, 5), ByteOf(w, 6), ByteOf(w, 7), ByteOf(w, 0),
                ByteOf(w, 1))
            == Rotr64(w, 16)
  {
  }

  lemma BytesRotate24(w: bv64)
    ensures Assemble(ByteOf(w, 3), ByteOf(w, 4), ByteOf(w, 5), ByteOf(w, 6), ByteOf(w, 7), ByteOf(w, 0), ByteOf(w, 1),
                ByteOf(w, 2))
            == Rotr64(w, 24)
  {
  }

  lemma OtherRotations(w: bv64)
    ensures SwapHalves(w) == Rotr64(w, 32)
    ensures ShiftAdd(w) == Rotr64(w, 63)
  {
  }

  lemma ShuffleRotates(x: Xmm)
    ensures ShuffleEpi8(x, R16) == Reg(Rotr64(x.lo, 16), Rotr64(x.hi, 16))
    ensures ShuffleEpi8(x, R24) == Reg(Rotr64(x.lo, 24), Rotr64(x.hi, 24))
  {
    BytesRotate16(x.lo);
    BytesRotate16(x.hi);
    BytesRotate24(x.lo);
    BytesRotate24(x.hi);
  }

  lemma RotiByLanes(x: Xmm, c: nat)
    requires c in {16, 24, 32, 63}
    ensures RotiSse2(x, c) == Reg(Rotr64(x.lo, c), Rotr64(x.hi, c))
    ensures RotiSsse3(x, c) == Reg(Rotr64(x.lo, c), Rotr64(x.hi, c))
  {
    ShiftXorRotates(x.lo, c);
    ShiftXorRotates(x.hi, c);
    if c == 16 || c == 24 {
      ShuffleRotates(x);
    } else {
      OtherRotations(x.lo);
      OtherRotations(x.hi);
    }
  }

  lemma SseOpsLift(ssse3: bool)
    ensures Lifts(SseOps(ssse3), ScalarOps())
  {
    var ro, o := SseOps(ssse3), ScalarOps();
    forall x, y
      ensures ro.f(x, y) == Reg(o.f(x.lo, y.lo), o.f(x.hi, y.hi))
    {
      MixHalfIsMix(x.lo, y.lo, LowProduct(x.lo, y.lo));
      MixHalfIsMix(x.hi, y.hi, LowProduct(x.hi, y.hi));
    }
    forall x, n | n in {16, 24, 32, 63}
      ensures ro.rotr(x, n) == Reg(o.rotr(x.lo, n), o.rotr(x.hi, n))
    {
      RotiByLanes(x, n);
    }
  }
}
