/**
 The word operations of the round, by what they do to the bits (external/argon2/blamka-round-ref.h:25-30,
 external/argon2/blake2-impl.h:158-162).
 */
module WordLaws {
  import opened WordOps

  /** x + y + 2 * p, modulo 2^64. */
  lemma MixOf(x: bv64, y: bv64, p: bv64)
    ensures Mix(x, y, p) == x + y + 2 * p && Mix(x, y, p) == Mix(y, x, p)
  {
  }

  /** The product of the lower halves: the upper ones do not enter it. */
  lemma LowProductOf(x: bv64, y: bv64, h: bv64)
    ensures LowProduct(x, y) == (x & 0xFFFF_FFFF) * (y & 0xFFFF_FFFF)
    ensures LowProduct(x, y) == LowProduct(y, x)
    ensures LowProduct(x, y + (h << 32)) == LowProduct(x, y)
  {
  }

  /** With zero there is nothing to multiply, and otherwise it counts twice. */
  lemma MultiplyAdd(x: bv64)
    ensures FBlaMka(x, 0) == x && FBlaMka(0, x) == x
    ensures FBlaMka(3, 5) == 3 + 5 + 2 * 15
  {
  }

  /** A bit is set where exactly one of the two words has it. */
  lemma ExclusiveOr(x: bv64, y: bv64)
    ensures Xor64(x, y) == (x | y) & !(x & y)
  {
  }

  lemma Rotations(w: bv64)
    ensures Rotr64(w, 16) == w.RotateRight(16) && Rotr64(w, 24) == w.RotateRight(24)
    ensures Rotr64(w, 32) == w.RotateRight(32) && Rotr64(w, 63) == w.RotateRight(63)
  {
  }
}
