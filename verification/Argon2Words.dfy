/**
 The words, blocks and bytes of the compiled library, as an instance of what Argon2 and BLAKE2b are built on
 (external/argon2/blake2b.c:25-33, external/argon2/core.c:64-93, external/argon2/blake2-impl.h). The compression
 function of BLAKE2b stays a parameter.
 */
module Argon2Words {
  import opened Words
  import opened WordBytes
  import opened Buffers
  import opened Fill
  import opened WordOps
  import opened Blake2bSpec
  import opened Argon2
  import Blake2bLong
  import Compressions

  const BLAKE2B_IV: seq<bv64> := [
    0x6a09e667f3bcc908, 0xbb67ae8584caa73b, 0x3c6ef372fe94f82b, 0xa54ff53a5f1d36f1,
    0x510e527fade682d1, 0x9b05688c2b3e6c1f, 0x1f83d9abfb41bd6b, 0x5be0cd19137e2179]

  type Compressor = (seq<bv64>, seq<Byte>, u64, u64, bool) -> seq<bv64>

  ghost predicate ValidCompressor(f: Compressor) {
    forall h, block, low, high, last | |h| == 8 :: |f(h, block, low, high, last)| == 8
  }

  function Blake2bCore(f: Compressor): Core<bv64> {
    Core(BLAKE2B_IV, (s: Eight) => Load64(s), (w: bv64) => Store64(w), Xor64, (x: nat) => LittleEndian(x, 4), f)
  }

  lemma ZeroWord(w: bv64)
    ensures Xor64(w, Load64(Zeros(8))) == w
  {
    assert AllBits(Zeros(8)) == [0, 0, 0, 0, 0, 0, 0, 0];
  }

  lemma Blake2bCoreIsValid(f: Compressor)
    requires ValidCompressor(f)
    ensures ValidCore(Blake2bCore(f))
  {
    var c := Blake2bCore(f);
    forall w: bv64
      ensures c.xor(w, c.load(Zeros(8))) == w
    {
      ZeroWord(w);
    }
  }

  /** The parameters enter the first word as 0x01010000 ^ (kk << 8) ^ nn, as section 3.3 of RFC 7693 has it. */
  lemma FirstParametersWord(outlen: nat, keylen: nat)
    requires outlen <= OUT_BYTES && keylen <= KEY_BYTES
    ensures Load64(FirstParameters(outlen, keylen))
            == 0x0101_0000 ^ ((ByteBits(keylen) as bv64) << 8) ^ (ByteBits(outlen) as bv64)
  {
    SmallBytes();
    EachBit(FirstParameters(outlen, keylen), ByteBits);
    JoinFirst(ByteBits(outlen), ByteBits(keylen));
  }

  lemma EachBit(s: seq<u8>, f: nat -> bv8)
    requires |s| == 8 && f == ByteBits
    ensures AllBits(s) == [f(s[0]), f(s[1]), f(s[2]), f(s[3]), f(s[4]), f(s[5]), f(s[6]), f(s[7])]
  {
  }

  lemma SmallBytes()
    ensures ByteBits(0) == 0 && ByteBits(1) == 1
  {
  }

  lemma JoinFirst(outlen: bv8, keylen: bv8)
    ensures Join([outlen, keylen, 1, 1, 0, 0, 0, 0]) == 0x0101_0000 ^ ((keylen as bv64) << 8) ^ (outlen as bv64)
  {
  }

  lemma WordRange(s: seq<Byte>)
    requires |s| == 8
    ensures Number(s) < 0x1_0000_0000_0000_0000
  {
    Power256Of8();
  }

  /** load_block: the words of a block, least significant byte first. */
  function LoadBlock(bytes: seq<Byte>): (b: Block)
    requires |bytes| == BLOCK_SIZE
  {
    seq(128, i requires 0 <= i < 128 => (WordRange(bytes[8 * i..8 * i + 8]); Number(bytes[8 * i..8 * i + 8])))
  }

  /** The first n words of a block as bytes. */
  function StoreWordsOf(b: Block, n: nat): (bytes: seq<Byte>)
    requires n <= 128
    ensures |bytes| == 8 * n
  {
    if n == 0 then [] else StoreWordsOf(b, n - 1) + LittleEndian(b[n - 1], 8)
  }

  /** store_block. */
  function StoreBlock(b: Block): (bytes: seq<Byte>)
    ensures |bytes| == BLOCK_SIZE
  {
    StoreWordsOf(b, |b|)
  }

  lemma {:induction false} StoredWord(b: Block, n: nat, i: nat)
    requires i < n <= 128
    ensures StoreWordsOf(b, n)[8 * i..8 * i + 8] == LittleEndian(b[i], 8)
  {
    if i < n - 1 {
      StoredWord(b, n - 1, i);
      assert StoreWordsOf(b, n)[8 * i..8 * i + 8] == StoreWordsOf(b, n - 1)[8 * i..8 * i + 8];
    }
  }

  /** Loading a stored block gives the block back. */
  lemma LoadOfStoredBlock(b: Block)
    ensures LoadBlock(StoreBlock(b)) == b
  {
    forall i | 0 <= i < 128
      ensures LoadBlock(StoreBlock(b))[i] == b[i]
    {
      StoredWord(b, |b|, i);
      Power256Of8();
      NumberOfBytes(b[i], 8);
    }
  }

  lemma {:induction false} StoredBytes(bytes: seq<Byte>, b: Block, n: nat)
    requires |bytes| == BLOCK_SIZE && n <= 128 && b == LoadBlock(bytes)
    ensures StoreWordsOf(b, n) == bytes[..8 * n]
  {
    if n != 0 {
      StoredBytes(bytes, b, n - 1);
      var word := bytes[8 * (n - 1)..8 * n];
      BytesOfNumber(word);
      assert bytes[..8 * n] == bytes[..8 * (n - 1)] + word;
    }
  }

  /** Storing a loaded block gives the bytes back. */
  lemma StoreOfLoadedBlock(bytes: seq<Byte>)
    requires |bytes| == BLOCK_SIZE
    ensures StoreBlock(LoadBlock(bytes)) == bytes
  {
    StoredBytes(bytes, LoadBlock(bytes), 128);
    assert bytes[..1024] == bytes;
  }

  /** Word by word, through the bits. */
  function XorBy(bits: u64 -> bv64, word: bv64 -> u64, a: Block, b: Block): Block {
    seq(128, i requires 0 <= i < 128 => word(bits(a[i]) ^ bits(b[i])))
  }

  /** xor_block, on values. */
  function XorBlocks(a: Block, b: Block): Block {
    XorBy(WordBits, BitsWord, a, b)
  }

  ghost predicate Inverse(bits: u64 -> bv64, word: bv64 -> u64) {
    (forall x :: word(bits(x)) == x) && forall w :: bits(word(w)) == w
  }

  lemma XorOfBits(u: bv64, v: bv64)
    ensures u ^ v == v ^ u && (u ^ v) ^ v == u
  {
  }

  lemma XorUndone(bits: u64 -> bv64, word: bv64 -> u64, a: Block, b: Block)
    requires Inverse(bits, word)
    ensures XorBy(bits, word, a, b) == XorBy(bits, word, b, a)
    ensures XorBy(bits, word, XorBy(bits, word, a, b), b) == a
  {
    forall i | 0 <= i < 128
      ensures XorBy(bits, word, a, b)[i] == XorBy(bits, word, b, a)[i]
      ensures XorBy(bits, word, XorBy(bits, word, a, b), b)[i] == a[i]
    {
      XorOfBits(bits(a[i]), bits(b[i]));
    }
  }

  lemma WordsAreBits()
    ensures Inverse(WordBits, BitsWord)
  {
    forall x: u64
      ensures BitsWord(WordBits(x)) == x
    {
      WordOfBits(x);
    }
    forall w: bv64
      ensures WordBits(BitsWord(w)) == w
    {
      BitsOfWord(w);
    }
  }

  lemma XorBlocksUndone(a: Block, b: Block)
    ensures XorBlocks(a, b) == XorBlocks(b, a) && XorBlocks(XorBlocks(a, b), b) == a
  {
    WordsAreBits();
    XorUndone(WordBits, BitsWord, a, b);
  }

  /** Everything together, with the scalar compression of blocks. */
  function Argon2Primitives(f: Compressor): Primitives<bv64>
    requires ValidCompressor(f)
  {
    Blake2bCoreIsValid(f);
    var core := Blake2bCore(f);
    Primitives(
      core,
      (x: seq<Byte>) => Hash(core, OUT_BYTES, [], x),
      (n: nat, x: seq<Byte>) => Blake2bLong.LongHash(core, n, x),
      Compressions.Reference(),
      XorBlocks,
      (bytes: seq<Byte>) => if |bytes| == BLOCK_SIZE then LoadBlock(bytes) else ZeroBlock(),
      StoreBlock)
  }

  lemma Argon2PrimitivesAreValid(f: Compressor)
    requires ValidCompressor(f)
    ensures Valid(Argon2Primitives(f)) && BlockFormat(Argon2Primitives(f))
  {
    Blake2bCoreIsValid(f);
    FormatIsKept(Argon2Primitives(f));
  }

  lemma FormatIsKept<W>(p: Primitives<W>)
    requires forall b :: p.store(b) == StoreBlock(b)
    requires (forall bytes :: |bytes| == BLOCK_SIZE ==> p.load(bytes) == LoadBlock(bytes))
    requires forall a, b :: p.xor(a, b) == XorBlocks(a, b)
    ensures BlockFormat(p)
  {
    forall b: Block
      ensures |p.store(b)| == BLOCK_SIZE && p.load(p.store(b)) == b
    {
      LoadOfStoredBlock(b);
    }
    forall bytes: seq<Byte> | |bytes| == BLOCK_SIZE
      ensures p.store(p.load(bytes)) == bytes
    {
      StoreOfLoadedBlock(bytes);
    }
    forall a: Block, b: Block
      ensures p.xor(a, b) == p.xor(b, a) && p.xor(p.xor(a, b), b) == a
    {
      XorBlocksUndone(a, b);
    }
  }
}
