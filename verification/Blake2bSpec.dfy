/**
 What BLAKE2b computes: section 3.3 of RFC 7693 over a padded list of blocks, and the running form that a
 streaming hash keeps. The words and the compression function are parameters.
 */
module Blake2bSpec {
  import opened Words
  import opened Buffers

  const BLOCK_BYTES: nat := 128
  const OUT_BYTES: nat := 64
  const KEY_BYTES: nat := 64

  type Eight = s: seq<Byte> | |s| == 8 witness seq(8, _ => 0)

  /**
   What the hash is built on: the initial value, words loaded from and stored to eight bytes, exclusive or, a length
   as four bytes, and the compression function (chaining value, block, the two counter words, last-block flag).
   */
  datatype Core<!W> = Core(
    iv: seq<W>,
    load: Eight -> W,
    store: W -> Eight,
    xor: (W, W) -> W,
    le32: nat -> seq<Byte>,
    f: (seq<W>, seq<Byte>, u64, u64, bool) -> seq<W>)

  ghost predicate ValidCore<W(!new)>(c: Core<W>) {
    && |c.iv| == 8
    && (forall w :: c.xor(w, c.load(Zeros(8))) == w)
    && forall h, block, low, high, last | |h| == 8 :: |c.f(h, block, low, high, last)| == 8
  }

  function Zeros(n: nat): (s: seq<Byte>)
    ensures |s| == n
  {
    seq(n, _ => 0)
  }

  /** The 128-bit counter, as two words. */
  function LowWord(n: nat): u64 {
    n % 0x1_0000_0000_0000_0000
  }

  function HighWord(n: nat): u64 {
    n / 0x1_0000_0000_0000_0000 % 0x1_0000_0000_0000_0000
  }

  function Compressed<W(!new)>(c: Core<W>, h: seq<W>, block: seq<Byte>, count: nat, last: bool): (h': seq<W>)
    requires ValidCore(c) && |h| == 8
    ensures |h'| == 8
  {
    c.f(h, block, LowWord(count), HighWord(count), last)
  }

  function StoreWords<W>(c: Core<W>, h: seq<W>): (s: seq<Byte>)
    ensures |s| == 8 * |h|
  {
    if h == [] then [] else StoreWords(c, h[..|h| - 1]) + c.store(h[|h| - 1])
  }

  /** Word i takes the eight bytes from 8 * i on. */
  lemma {:induction false} WordIsStored<W>(c: Core<W>, h: seq<W>, i: nat)
    requires i < |h|
    ensures StoreWords(c, h)[8 * i..8 * i + 8] == c.store(h[i])
  {
    var front := h[..|h| - 1];
    if i < |front| {
      WordIsStored(c, front, i);
      assert StoreWords(c, h)[8 * i..8 * i + 8] == StoreWords(c, front)[8 * i..8 * i + 8];
    }
  }

  lemma ByteIsStored<W>(c: Core<W>, h: seq<W>, p: nat)
    requires p < 8 * |h|
    ensures StoreWords(c, h)[p] == c.store(h[p / 8])[p % 8]
  {
    WordIsStored(c, h, p / 8);
    assert StoreWords(c, h)[p] == StoreWords(c, h)[8 * (p / 8)..8 * (p / 8) + 8][p % 8];
  }

  lemma BytesAreStored<W>(c: Core<W>, h: seq<W>, s: seq<Byte>)
    requires s == StoreWords(c, h)
    ensures forall p :: 0 <= p < 8 * |h| ==> s[p] == c.store(h[p / 8])[p % 8]
  {
    forall p | 0 <= p < 8 * |h|
      ensures s[p] == c.store(h[p / 8])[p % 8]
    {
      ByteIsStored(c, h, p);
    }
  }

  // ----- Section 3.3 of RFC 7693 -----

  /** The first word of the parameters: digest length, key length, fanout 1 and depth 1. */
  function FirstParameters(outlen: nat, keylen: nat): (p: Eight)
    requires outlen <= OUT_BYTES && keylen <= KEY_BYTES
  {
    [outlen, keylen, 1, 1, 0, 0, 0, 0]
  }

  function FirstState<W(!new)>(c: Core<W>, outlen: nat, keylen: nat): (h: seq<W>)
    requires ValidCore(c) && outlen <= OUT_BYTES && keylen <= KEY_BYTES
    ensures |h| == 8
  {
    c.iv[0 := c.xor(c.iv[0], c.load(FirstParameters(outlen, keylen)))]
  }

  /** A key takes a block of its own, padded with zeros, in front of the message. */
  function Data(key: seq<Byte>, message: seq<Byte>): seq<Byte>
    requires |key| <= KEY_BYTES
  {
    if key == [] then message else key + Zeros(BLOCK_BYTES - |key|) + message
  }

  function BlockCount(length: nat): nat {
    if length == 0 then 1 else (length + BLOCK_BYTES - 1) / 128
  }

  /** The data padded with zeros to whole blocks; there is always one. */
  function PaddedData(data: seq<Byte>): (p: seq<Byte>)
    ensures |p| == 128 * BlockCount(|data|)
  {
    data + Zeros(128 * BlockCount(|data|) - |data|)
  }

  /** The chaining value after the first n blocks, none of them marked as last. */
  function Chain<W(!new)>(c: Core<W>, h: seq<W>, data: seq<Byte>, n: nat): (h': seq<W>)
    requires ValidCore(c) && |h| == 8 && 128 * n <= |data|
    ensures |h'| == 8
  {
    if n == 0 then h
    else
      Compressed(c, Chain(c, h, data, n - 1), data[128 * (n - 1)..128 * n], 128 * n, false)
  }

  function HashData<W(!new)>(c: Core<W>, h: seq<W>, data: seq<Byte>, outlen: nat): (digest: seq<Byte>)
    requires ValidCore(c) && |h| == 8 && outlen <= OUT_BYTES
    ensures |digest| == outlen
  {
    var n, padded := BlockCount(|data|), PaddedData(data);
    var last := Compressed(c, Chain(c, h, padded, n - 1), padded[128 * (n - 1)..], |data|, true);
    StoreWords(c, last)[..outlen]
  }

  /** BLAKE2b of a message, with a key or without. */
  function Hash<W(!new)>(c: Core<W>, outlen: nat, key: seq<Byte>, message: seq<Byte>): (digest: seq<Byte>)
    requires ValidCore(c) && outlen <= OUT_BYTES && |key| <= KEY_BYTES
    ensures |digest| == outlen
  {
    HashData(c, FirstState(c, outlen, |key|), Data(key, message), outlen)
  }

  // ----- The running form -----

  /** How many blocks a streaming hash has compressed: it holds back the last one, even a full one. */
  function Absorbed(length: nat): nat {
    if length == 0 then 0 else (length - 1) / 128
  }

  lemma HeldBack(length: nat)
    ensures Absorbed(length) == BlockCount(length) - 1
    ensures 128 * Absorbed(length) <= length <= 128 * Absorbed(length) + BLOCK_BYTES
    ensures length != 0 ==> 128 * Absorbed(length) < length
  {
  }

  lemma AbsorbedUnique(length: nat, n: nat)
    requires 128 * n <= length <= 128 * n + BLOCK_BYTES
    requires length != 0 ==> 128 * n < length
    ensures n == Absorbed(length)
  {
  }

  /** The chain looks only at the blocks it has passed. */
  lemma {:induction false} ChainOfPrefix<W(!new)>(c: Core<W>, h: seq<W>, a: seq<Byte>, b: seq<Byte>, n: nat)
    requires ValidCore(c) && |h| == 8 && 128 * n <= |a| && a <= b
    ensures Chain(c, h, a, n) == Chain(c, h, b, n)
  {
    if n != 0 {
      ChainOfPrefix(c, h, a, b, n - 1);
      assert a[128 * (n - 1)..128 * n] == b[128 * (n - 1)..128 * n];
    }
  }

  function Padded(held: seq<Byte>): (block: seq<Byte>)
    requires |held| <= BLOCK_BYTES
    ensures |block| == BLOCK_BYTES
  {
    held + Zeros(BLOCK_BYTES - |held|)
  }

  /** The final chaining value, from the running form. */
  function Finished<W(!new)>(c: Core<W>, h: seq<W>, data: seq<Byte>): (h': seq<W>)
    requires ValidCore(c) && |h| == 8
    ensures |h'| == 8
  {
    HeldBack(|data|);
    var n := Absorbed(|data|);
    Compressed(c, Chain(c, h, data, n), Padded(data[128 * n..]), |data|, true)
  }

  /** The running form gives the digest of the definition. */
  lemma FinishedGivesHash<W(!new)>(c: Core<W>, h: seq<W>, data: seq<Byte>, outlen: nat)
    requires ValidCore(c) && |h| == 8 && outlen <= OUT_BYTES
    ensures StoreWords(c, Finished(c, h, data))[..outlen] == HashData(c, h, data, outlen)
  {
    HeldBack(|data|);
    var n, padded := Absorbed(|data|), PaddedData(data);
    ChainOfPrefix(c, h, data, padded, n);
    assert padded[128 * n..] == Padded(data[128 * n..]);
  }

  /** Adding to a word of modulus m, with the carry. */
  lemma AddWithCarry(count: nat, inc: nat, m: nat)
    requires inc < m
    ensures var r := count % m;
            (count + inc) % m == (if r + inc < m then r + inc else r + inc - m)
            && (count + inc) / m == (if r + inc < m then count / m else count / m + 1)
  {
    var q, r := count / m, count % m;
    if r + inc < m {
      DivModUnique(count + inc, q, r + inc, m);
    } else {
      assert count + inc == (q + 1) * m + (r + inc - m);
      DivModUnique(count + inc, q + 1, r + inc - m, m);
    }
  }

  lemma WrapAdd(r: u64, inc: u64)
    ensures Wrap64(r + inc) == if r + inc < 0x1_0000_0000_0000_0000 then r + inc else r + inc - 0x1_0000_0000_0000_0000
  {
  }

  /** Adding `inc` to the low word and the carry to the high word adds to the 128-bit counter, modulo 2^128. */
  lemma CounterStep(count: nat, inc: nat)
    requires inc <= BLOCK_BYTES
    ensures var low := Wrap64(LowWord(count) + inc);
            && low == LowWord(count + inc)
            && Wrap64(HighWord(count) + if low < inc then 1 else 0) == HighWord(count + inc)
  {
    AddWithCarry(count, inc, 0x1_0000_0000_0000_0000);
    WrapAdd(LowWord(count), inc);
    AddWithCarry(count / 0x1_0000_0000_0000_0000, 1, 0x1_0000_0000_0000_0000);
    WrapAdd(HighWord(count), 1);
  }
}
