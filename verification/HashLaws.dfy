/**
 BLAKE2b as section 3.3 of RFC 7693 computes it, and H' as section 3.3 of RFC 9106 does: the message byte by byte, the
 chaining values one after the other, and which byte of which word is which byte of the digest
 (external/argon2/blake2b.c:105-435).
 */
module HashLaws {
  import opened Words
  import opened Buffers
  import opened Blake2bSpec
  import Blake2bLong

  /** Where the message begins: behind a block for the key, if there is one. */
  function MessageStart(key: seq<Byte>): nat {
    if |key| > 0 then 128 else 0
  }

  /** n blocks, no more than needed and at least one: the key and zeros, the message, and zeros. */
  ghost predicate IsInput(key: seq<Byte>, message: seq<Byte>, padded: seq<Byte>, n: nat) {
    var start := MessageStart(key);
    && |padded| == 128 * n
    && start + |message| <= 128 * n
    && (n == 1 || (1 < n && 128 * (n - 1) < start + |message|))
    && (forall p :: 0 <= p < |key| && p < |padded| ==> padded[p] == key[p])
    && (forall p :: |key| <= p < start && p < |padded| ==> padded[p] == 0)
    && (forall p :: start <= p < start + |message| ==> padded[p] == message[p - start])
    && (forall p :: start + |message| <= p < |padded| ==> padded[p] == 0)
  }

  /** The chaining values: all blocks but the last count whole, the last counts the bytes there are and is marked. */
  ghost predicate IsChain<W(!new)>(c: Core<W>, padded: seq<Byte>, n: nat, length: nat, values: seq<seq<W>>)
    requires |padded| == 128 * n && 1 <= n
  {
    && |values| == n + 1
    && (forall i {:trigger values[i + 1]} :: 0 <= i < n - 1 ==>
          values[i + 1] == c.f(values[i], padded[128 * i..128 * i + 128], LowWord(128 * i + 128),
                               HighWord(128 * i + 128), false))
    && values[n] == c.f(values[n - 1], padded[128 * (n - 1)..], LowWord(length), HighWord(length), true)
  }

  lemma InputOf(key: seq<Byte>, message: seq<Byte>)
    requires |key| <= KEY_BYTES
    ensures var data := Data(key, message);
            IsInput(key, message, PaddedData(data), BlockCount(|data|)) && |data| == MessageStart(key) + |message|
  {
  }

  lemma {:induction false} ChainValues<W(!new)>(c: Core<W>, h: seq<W>, padded: seq<Byte>, n: nat)
    returns (values: seq<seq<W>>)
    requires ValidCore(c) && |h| == 8 && 128 * n <= |padded|
    ensures |values| == n + 1 && values[0] == h && values[n] == Chain(c, h, padded, n)
    ensures forall i {:trigger values[i + 1]} :: 0 <= i < n ==>
              values[i + 1] == c.f(values[i], padded[128 * i..128 * i + 128], LowWord(128 * i + 128),
                                   HighWord(128 * i + 128), false)
  {
    if n == 0 {
      values := [h];
    } else {
      values := ChainValues(c, h, padded, n - 1);
      values := values + [Chain(c, h, padded, n)];
      assert Chain(c, h, padded, n)
             == c.f(values[n - 1], padded[128 * (n - 1)..128 * (n - 1) + 128], LowWord(128 * (n - 1) + 128),
                    HighWord(128 * (n - 1) + 128), false);
    }
  }

  /** The two counter words make up the count. */
  lemma CounterWords(count: nat)
    requires count < 0x1_0000_0000_0000_0000_0000_0000_0000_0000
    ensures LowWord(count) + 0x1_0000_0000_0000_0000 * HighWord(count) == count
  {
  }

  /**
   The digest of a message: from the initial value, whose first word alone is changed, by the lengths, over the blocks
   of the padded input, to the leading bytes of the last value's words.
   */
  lemma HashOfRfc<W(!new)>(c: Core<W>, outlen: nat, key: seq<Byte>, message: seq<Byte>, parameters: Eight)
    returns (padded: seq<Byte>, n: nat, values: seq<seq<W>>)
    requires ValidCore(c) && outlen <= OUT_BYTES && |key| <= KEY_BYTES
    requires parameters == [outlen, |key|, 1, 1, 0, 0, 0, 0]
    ensures 1 <= n && IsInput(key, message, padded, n)
    ensures IsChain(c, padded, n, MessageStart(key) + |message|, values)
    ensures values[0] == c.iv[0 := c.xor(c.iv[0], c.load(parameters))] && |values[n]| == 8
    ensures forall p :: 0 <= p < outlen ==> Hash(c, outlen, key, message)[p] == c.store(values[n][p / 8])[p % 8]
  {
    var data, h := Data(key, message), FirstState(c, outlen, |key|);
    n, padded := BlockCount(|data|), PaddedData(data);
    InputOf(key, message);
    values := ChainValues(c, h, padded, n - 1);
    var last := Compressed(c, values[n - 1], padded[128 * (n - 1)..], |data|, true);
    values := values + [last];
    BytesAreStored(c, last, StoreWords(c, last));
    assert Hash(c, outlen, key, message) == StoreWords(c, last)[..outlen];
  }

  /** V_1 is the digest of the length and the input, and every other V_i that of the one before. */
  ghost predicate IsDigests<W(!new)>(c: Core<W>, input: seq<Byte>, v: seq<seq<Byte>>)
    requires ValidCore(c)
  {
    && 1 <= |v|
    && v[0] == Hash(c, 64, [], input)
    && forall i :: 1 <= i < |v| ==> v[i] == Hash(c, 64, [], v[i - 1])
  }

  /** The bytes begin with the first halves of the digests. */
  ghost predicate BeginsWithHalves(s: seq<Byte>, v: seq<seq<Byte>>) {
    32 * |v| <= |s| && forall i :: 0 <= i < |v| ==> |v[i]| == 64 && s[32 * i..32 * i + 32] == v[i][..32]
  }

  lemma HalvesInFront(s: seq<Byte>, v: seq<seq<Byte>>, rest: seq<Byte>)
    requires BeginsWithHalves(s, v)
    ensures BeginsWithHalves(s + rest, v)
  {
    forall i | 0 <= i < |v|
      ensures (s + rest)[32 * i..32 * i + 32] == v[i][..32]
    {
      assert (s + rest)[32 * i..32 * i + 32] == s[32 * i..32 * i + 32];
    }
  }

  lemma HalvesGrow(s: seq<Byte>, v: seq<seq<Byte>>, next: seq<Byte>)
    requires BeginsWithHalves(s, v) && |s| == 32 * |v| && |next| == 64
    ensures BeginsWithHalves(s + next[..32], v + [next])
  {
    HalvesInFront(s, v, next[..32]);
    assert (s + next[..32])[32 * |v|..32 * |v| + 32] == next[..32];
  }

  lemma DigestsGrow<W(!new)>(c: Core<W>, input: seq<Byte>, v: seq<seq<Byte>>, next: seq<Byte>)
    requires ValidCore(c) && IsDigests(c, input, v) && next == Hash(c, OUT_BYTES, [], v[|v| - 1])
    ensures IsDigests(c, input, v + [next])
  {
  }

  lemma {:induction false} Digests<W(!new)>(c: Core<W>, input: seq<Byte>, first: seq<Byte>, n: nat)
    returns (v: seq<seq<Byte>>)
    requires ValidCore(c) && first == Hash(c, OUT_BYTES, [], input) && |first| == OUT_BYTES && 1 <= n
    ensures |v| == n && IsDigests(c, input, v) && v[n - 1] == Blake2bLong.V(c, first, n)
    ensures BeginsWithHalves(Blake2bLong.FirstHalves(c, first, n), v)
    decreases n
  {
    if n == 1 {
      v := [first];
      assert Blake2bLong.FirstHalves(c, first, 1) == first[..32];
    } else {
      v := Digests(c, input, first, n - 1);
      var next := Blake2bLong.V(c, first, n);
      HalvesGrow(Blake2bLong.FirstHalves(c, first, n - 1), v, next);
      DigestsGrow(c, input, v, next);
      v := v + [next];
    }
  }

  /** Up to 64 bytes H' is one digest of the length and the input. */
  lemma ShortHashOfRfc<W(!new)>(c: Core<W>, outlen: nat, input: seq<Byte>)
    requires ValidCore(c) && outlen <= 64
    ensures Blake2bLong.LongHash(c, outlen, input) == Hash(c, outlen, [], c.le32(outlen) + input)
  {
  }

  /**
   Above that it is a row of digests, each of the one before: the first 32 bytes of each, and then a whole one of the
   33 to 64 bytes that are missing.
   */
  lemma LongHashOfRfc<W(!new)>(c: Core<W>, outlen: nat, input: seq<Byte>) returns (v: seq<seq<Byte>>, last: nat)
    requires ValidCore(c) && outlen > 64
    ensures IsDigests(c, c.le32(outlen) + input, v)
    ensures 33 <= last <= 64 && outlen == 32 * |v| + last
    ensures BeginsWithHalves(Blake2bLong.LongHash(c, outlen, input), v)
    ensures Blake2bLong.LongHash(c, outlen, input)[32 * |v|..] == Hash(c, last, [], v[|v| - 1])
  {
    Blake2bLong.LastDigestLength(outlen);
    var r, all := Blake2bLong.Halves(outlen), Blake2bLong.FirstInput(c, outlen, input);
    var first := Hash(c, OUT_BYTES, [], all);
    last := outlen - 32 * r;
    v := Digests(c, all, first, r);
    RemainderOf(c, outlen, first, v);
  }

  lemma RemainderOf<W(!new)>(c: Core<W>, outlen: nat, first: seq<Byte>, v: seq<seq<Byte>>)
    requires ValidCore(c) && outlen > OUT_BYTES && |first| == OUT_BYTES && |v| == Blake2bLong.Halves(outlen) >= 1
    requires v[|v| - 1] == Blake2bLong.V(c, first, |v|) && 0 <= outlen - 32 * |v| <= OUT_BYTES
    requires BeginsWithHalves(Blake2bLong.FirstHalves(c, first, |v|), v)
    ensures BeginsWithHalves(Blake2bLong.Remainder(c, outlen, first), v)
    ensures Blake2bLong.Remainder(c, outlen, first)[32 * |v|..] == Hash(c, outlen - 32 * |v|, [], v[|v| - 1])
  {
    HalvesInFront(Blake2bLong.FirstHalves(c, first, |v|), v, Hash(c, outlen - 32 * |v|, [], v[|v| - 1]));
  }
}
