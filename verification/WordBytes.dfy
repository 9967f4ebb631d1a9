/**
 Words, their bytes in little-endian order, and their bits (load64 and store64 of external/argon2/blake2-impl.h:35-108).
 Numbers and bit vectors meet only in single bytes.
 */
module WordBytes {
  import opened Words

  // ----- Numbers and bytes -----

  /** The low `n` bytes of a number, least significant first. */
  function LittleEndian(x: nat, n: nat): (s: seq<u8>)
    ensures |s| == n
    decreases n, x
  {
    if n == 0 then [] else [x % 0x100] + LittleEndian(x / 0x100, n - 1)
  }

  function Power256(n: nat): (p: nat)
    ensures 0 < p
  {
    if n == 0 then 1 else 0x100 * Power256(n - 1)
  }

  lemma Power256Of8()
    ensures Power256(8) == 0x1_0000_0000_0000_0000
  {
    assert Power256(4) == 0x1_0000_0000;
  }

  /** The number whose bytes are `s`, least significant first. */
  function Number(s: seq<u8>): (x: nat)
    ensures x < Power256(|s|)
  {
    if s == [] then 0 else s[0] + 0x100 * Number(s[1..])
  }

  lemma {:induction false} NumberOfBytes(x: nat, n: nat)
    requires x < Power256(n)
    ensures Number(LittleEndian(x, n)) == x
  {
    if n != 0 {
      NumberOfBytes(x / 0x100, n - 1);
      assert LittleEndian(x, n)[1..] == LittleEndian(x / 0x100, n - 1);
    }
  }

  lemma SplitSum(v: u8, n: nat)
    ensures (v + 0x100 * n) % 0x100 == v && (v + 0x100 * n) / 0x100 == n
  {
  }

  lemma {:induction false} BytesOfNumber(s: seq<u8>)
    ensures LittleEndian(Number(s), |s|) == s
  {
    if s != [] {
      SplitSum(s[0], Number(s[1..]));
      BytesOfNumber(s[1..]);
    }
  }

  // ----- Bytes and bits -----

  function Join(s: seq<bv8>): bv64
    requires |s| == 8
  {
    (s[0] as bv64) | ((s[1] as bv64) << 8) | ((s[2] as bv64) << 16) | ((s[3] as bv64) << 24)
    | ((s[4] as bv64) << 32) | ((s[5] as bv64) << 40) | ((s[6] as bv64) << 48) | ((s[7] as bv64) << 56)
  }

  function Split(w: bv64): (s: seq<bv8>)
    ensures |s| == 8
  {
    [(w & 0xFF) as bv8, ((w >> 8) & 0xFF) as bv8, ((w >> 16) & 0xFF) as bv8, ((w >> 24) & 0xFF) as bv8,
     ((w >> 32) & 0xFF) as bv8, ((w >> 40) & 0xFF) as bv8, ((w >> 48) & 0xFF) as bv8, (w >> 56) as bv8]
  }

  lemma SplitOfJoin(s: seq<bv8>)
    requires |s| == 8
    ensures Split(Join(s)) == s
  {
  }

  lemma JoinOfSplit(w: bv64)
    ensures Join(Split(w)) == w
  {
  }

  /** The low eight bits of a number. */
  function ByteBits(x: nat): bv8 {
    if x < 0x100 then x as bv8 else (x % 0x100) as bv8
  }

  function BitsByte(b: bv8): (x: nat)
    ensures x < 0x100
  {
    b as int
  }

  lemma LowBits(x: nat)
    ensures BitsByte(ByteBits(x)) == x % 0x100
  {
  }

  lemma ByteOfBits(x: u8)
    ensures BitsByte(ByteBits(x)) == x
  {
    LowBits(x);
    SmallMod(x, 0x100);
  }

  lemma BitsOfByte(b: bv8)
    ensures ByteBits(BitsByte(b)) == b
  {
  }

  function AllBits(s: seq<u8>): (b: seq<bv8>)
    ensures |b| == |s|
  {
    seq(|s|, i requires 0 <= i < |s| => ByteBits(s[i]))
  }

  function AllBytes(b: seq<bv8>): (s: seq<u8>)
    ensures |s| == |b|
  {
    seq(|b|, i requires 0 <= i < |b| => BitsByte(b[i]))
  }

  /** load64. */
  function Load64(s: seq<u8>): bv64
    requires |s| == 8
  {
    Join(AllBits(s))
  }

  /** store64. */
  function Store64(w: bv64): (s: seq<u8>)
    ensures |s| == 8
  {
    AllBytes(Split(w))
  }

  lemma StoreOfLoad(s: seq<u8>)
    requires |s| == 8
    ensures Store64(Load64(s)) == s
  {
    SplitOfJoin(AllBits(s));
    forall i | 0 <= i < 8
      ensures Store64(Load64(s))[i] == s[i]
    {
      ByteOfBits(s[i]);
    }
  }

  lemma LoadOfStore(w: bv64)
    ensures Load64(Store64(w)) == w
  {
    var b := Split(w);
    forall i | 0 <= i < 8
      ensures AllBits(AllBytes(b))[i] == b[i]
    {
      BitsOfByte(b[i]);
    }
    assert AllBits(AllBytes(b)) == b;
    JoinOfSplit(w);
  }

  /** The bits of a word. */
  function WordBits(x: u64): bv64 {
    Load64(LittleEndian(x, 8))
  }

  /** The word with given bits. */
  function BitsWord(w: bv64): u64 {
    Power256Of8();
    Number(Store64(w))
  }

  lemma WordOfBits(x: u64)
    ensures BitsWord(WordBits(x)) == x
  {
    StoreOfLoad(LittleEndian(x, 8));
    Power256Of8();
    NumberOfBytes(x, 8);
  }

  lemma BitsOfWord(w: bv64)
    ensures WordBits(BitsWord(w)) == w
  {
    BytesOfNumber(Store64(w));
    LoadOfStore(w);
  }
}
