/**
 The words of the library by their values: little-endian bytes, exclusive or of blocks, and the initial value
 (external/argon2/blake2-impl.h:35-117, external/argon2/core.c:71-103, external/argon2/blake2b.c:25-33).
 */
module LibraryWords {
  import opened Words
  import opened WordBytes
  import opened Layout
  import opened Fill
  import opened Argon2Words

  /** Four bytes, the least significant first. */
  lemma FourBytes(s: seq<u8>)
    requires |s| == 4
    ensures Number(s) == s[0] as int + 0x100 * s[1] as int + 0x1_0000 * s[2] as int + 0x100_0000 * s[3] as int
  {
    assert Number(s[1..][1..][1..][1..]) == 0;
    assert Number(s[1..][1..][1..]) == s[3];
    assert Number(s[1..][1..]) == s[2] as int + 0x100 * s[3] as int;
  }

  /** And the four above them. */
  lemma EightBytes(s: seq<u8>)
    requires |s| == 8
    ensures Number(s) == Number(s[..4]) + 0x1_0000_0000 * Number(s[4..])
  {
    assert s[1..][1..][1..][1..] == s[4..];
    var t := s[..4];
    assert Number(t[1..][1..][1..][1..]) == 0;
    assert Number(s[1..][1..][1..]) == s[3] + 0x100 * Number(s[4..]);
    assert Number(s[1..][1..]) == s[2] + 0x100 * (s[3] + 0x100 * Number(s[4..]));
    assert Number(t[1..][1..][1..]) == s[3];
    assert Number(t[1..][1..]) == s[2] as int + 0x100 * s[3] as int;
  }

  /** Byte i of a stored word are its bits from 8 * i on. */
  lemma StoredBytesOf(w: bv64)
    ensures Store64(w)[0] == ((w & 0xFF) as bv8) as int
    ensures Store64(w)[1] == (((w >> 8) & 0xFF) as bv8) as int
    ensures Store64(w)[2] == (((w >> 16) & 0xFF) as bv8) as int
    ensures Store64(w)[3] == (((w >> 24) & 0xFF) as bv8) as int
    ensures Store64(w)[4] == (((w >> 32) & 0xFF) as bv8) as int
    ensures Store64(w)[5] == (((w >> 40) & 0xFF) as bv8) as int
    ensures Store64(w)[6] == (((w >> 48) & 0xFF) as bv8) as int
    ensures Store64(w)[7] == ((w >> 56) as bv8) as int
  {
  }

  /** xor_block works word by word. */
  lemma XorOfWords(a: Block, b: Block, i: nat)
    requires i < 128
    ensures WordBits(XorBlocks(a, b)[i]) == WordBits(a[i]) ^ WordBits(b[i])
  {
    WordsAreBits();
    XorByWords(WordBits, BitsWord, a, b, i);
  }

  lemma XorByWords(bits: u64 -> bv64, word: bv64 -> u64, a: Block, b: Block, i: nat)
    requires i < 128 && Inverse(bits, word)
    ensures bits(XorBy(bits, word, a, b)[i]) == bits(a[i]) ^ bits(b[i])
  {
  }

  /** The first 64 bits of the fraction of the square root of p, whose whole part is given. */
  predicate IsRoot(w: bv64, whole: nat, p: nat) {
    var n := 0x1_0000_0000_0000_0000 * whole + w as int;
    n * n <= p * 0x1_0000_0000_0000_0000_0000_0000_0000_0000 < (n + 1) * (n + 1)
  }

  /** The initial value comes from the first eight primes. */
  lemma FirstRoots()
    ensures IsRoot(BLAKE2B_IV[0], 1, 2) && IsRoot(BLAKE2B_IV[1], 1, 3)
    ensures IsRoot(BLAKE2B_IV[2], 2, 5) && IsRoot(BLAKE2B_IV[3], 2, 7)
  {
  }

  lemma LastRoots()
    ensures IsRoot(BLAKE2B_IV[4], 3, 11) && IsRoot(BLAKE2B_IV[5], 3, 13)
    ensures IsRoot(BLAKE2B_IV[6], 4, 17) && IsRoot(BLAKE2B_IV[7], 4, 19)
  {
  }
}
