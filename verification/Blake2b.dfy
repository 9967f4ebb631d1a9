/**
 The streaming hash of external/argon2/blake2b.c:50-363: a state that buffers its input, compresses a block only when
 more input follows it, and refuses to continue once it has been finalised or invalidated.
 */
module Blake2b {
  import opened Words
  import opened Buffers
  import opened Blake2bSpec

  const ALL_ONES: u64 := 0xFFFF_FFFF_FFFF_FFFF

  /** The parameter block for sequential hashing: digest length, key length, fanout 1, depth 1, and zeros. */
  function ParameterBlock(outlen: nat, keylen: nat): (p: seq<Byte>)
    requires outlen <= OUT_BYTES && keylen <= KEY_BYTES
    ensures |p| == 64
  {
    [outlen, keylen, 1, 1] + Zeros(60)
  }

  /** The first n words of h XORed with those of a block. */
  function Parameterised<W>(c: Core<W>, h: seq<W>, p: seq<Byte>, n: nat): (h': seq<W>)
    requires |h| == 8 && |p| == 64 && n <= 8
    ensures |h'| == 8
  {
    if n == 0 then h
    else
      var h' := Parameterised(c, h, p, n - 1);
      h'[n - 1 := c.xor(h'[n - 1], c.load(p[8 * (n - 1)..8 * (n - 1) + 8]))]
  }

  class State<W(!new)> {
    const core: Core<W>
    var h: seq<W>
    var t0: u64
    var t1: u64
    var f0: u64
    const buf: array<Byte>
    var buflen: nat
    var outlen: nat
    /**
     The chaining value the state started from, everything it was given since, and how many blocks of that are
     compressed.
     */
    ghost var start: seq<W>
    ghost var data: seq<Byte>
    ghost var blocks: nat

    ghost predicate Valid()
      reads this
    {
      ValidCore(core) && buf.Length == BLOCK_BYTES && outlen <= OUT_BYTES
    }

    /** `n` blocks of `all` have been compressed. */
    ghost predicate Reached(all: seq<Byte>, n: nat)
      reads this
    {
      && Valid() && f0 == 0 && |start| == 8 && 128 * n <= |all|
      && h == Chain(core, start, all, n)
      && t0 == LowWord(128 * n) && t1 == HighWord(128 * n)
    }

    /**
     Everything in the state is a function of the data: the buffer holds what follows the compressed blocks, at most
     one block, and it is never empty once there is data.
     */
    ghost predicate Live()
      reads this, buf
    {
      && Reached(data, blocks)
      && 1 <= outlen
      && 128 * blocks + buflen == |data| && buflen <= BLOCK_BYTES
      && (data != [] ==> 0 < buflen)
      && buf[..buflen] == data[128 * blocks..]
    }

    constructor (core: Core<W>)
      requires ValidCore(core)
      ensures Valid() && fresh(buf) && this.core == core
    {
      this.core := core;
      h := core.iv;
      t0, t1, f0, buflen, outlen := 0, 0, 0, 0, 0;
      buf := new Byte[BLOCK_BYTES];
      start, data, blocks := core.iv, [], 0;
    }

    method Invalidate()
      requires Valid()
      modifies this
      ensures f0 != 0 && outlen == 0 && Valid()
    {
      t0, t1, buflen, outlen := 0, 0, 0, 0;
      f0 := ALL_ONES;
    }

    method XorParameters(p: seq<Byte>)
      requires |h| == 8 && |p| == 64
      modifies `h
      ensures h == Parameterised(core, old(h), p, 8)
    {
      for i := 0 to 8
        invariant h == Parameterised(core, old(h), p, i)
      {
        h := h[i := core.xor(h[i], core.load(p[8 * i..8 * i + 8]))];
      }
    }

    method InitParam(outlen': nat, keylen: nat)
      requires Valid() && 1 <= outlen' <= OUT_BYTES && keylen <= KEY_BYTES
      modifies this
      ensures Live() && outlen == outlen' && start == FirstState(core, outlen', keylen) && data == []
    {
      h := core.iv;
      t0, t1, f0, buflen := 0, 0, 0, 0;
      XorParameters(ParameterBlock(outlen', keylen));
      outlen := outlen';
      ParametersOfRfc(core, outlen', keylen);
      start, data, blocks := h, [], 0;
    }

    method Init(outlen': nat) returns (ok: bool)
      requires Valid()
      modifies this
      ensures ok <==> 1 <= outlen' <= OUT_BYTES
      ensures ok ==> Live() && outlen == outlen' && start == FirstState(core, outlen', 0) && data == []
      ensures !ok ==> f0 != 0 && Valid()
    {
      if outlen' == 0 || outlen' > OUT_BYTES {
        Invalidate();
        return false;
      }
      InitParam(outlen', 0);
      return true;
    }

    method InitKey(outlen': nat, key: Buffer) returns (ok: bool)
      requires Valid()
      modifies this, buf
      ensures ok <==> 1 <= outlen' <= OUT_BYTES && key.Bytes? && 1 <= |key.data| <= KEY_BYTES
      ensures ok ==> Live() && outlen == outlen' && start == FirstState(core, outlen', |key.data|)
                     && data == Data(key.data, [])
      ensures !ok ==> f0 != 0 && Valid()
    {
      if outlen' == 0 || outlen' > OUT_BYTES {
        Invalidate();
        return false;
      }
      if key.Null? || key.Length() == 0 || key.Length() > KEY_BYTES {
        Invalidate();
        return false;
      }
      InitParam(outlen', key.Length());
      ok := Update(Bytes(key.data + Zeros(BLOCK_BYTES - key.Length())));
    }

    method IncrementCounter(inc: nat, ghost count: nat)
      requires inc <= BLOCK_BYTES && t0 == LowWord(count) && t1 == HighWord(count)
      modifies `t0, `t1
      ensures t0 == LowWord(count + inc) && t1 == HighWord(count + inc)
    {
      CounterStep(count, inc);
      t0 := Wrap64(t0 + inc);
      t1 := Wrap64(t1 + if t0 < inc then 1 else 0);
    }

    /** One whole block that is not the last. */
    method CompressBlock(block: seq<Byte>, ghost all: seq<Byte>, ghost n: nat)
      requires Reached(all, n) && 128 * n + BLOCK_BYTES <= |all|
      requires block == all[128 * n..128 * n + BLOCK_BYTES]
      modifies `t0, `t1, `h
      ensures Reached(all, n + 1)
    {
      IncrementCounter(BLOCK_BYTES, 128 * n);
      h := core.f(h, block, t0, t1, f0 != 0);
    }

    method CopyIn(at: nat, bytes: seq<Byte>)
      requires at + |bytes| <= buf.Length
      modifies buf
      ensures buf[..at + |bytes|] == old(buf[..at]) + bytes
    {
      forall i | 0 <= i < |bytes| {
        buf[at + i] := bytes[i];
      }
    }

    /** Completes the block in the buffer and compresses it. */
    method FinishBlock(bytes: seq<Byte>, ghost all: seq<Byte>)
      requires Live() && |bytes| == BLOCK_BYTES - buflen && data + bytes <= all
      modifies `t0, `t1, `h, `buflen, buf
      ensures Reached(all, blocks + 1) && buflen == 0
    {
      ChainOfPrefix(core, start, data, all, blocks);
      FullBlock(data, buf[..buflen], bytes, all, 128 * blocks);
      CopyIn(buflen, bytes);
      assert buf[..] == buf[..BLOCK_BYTES];
      CompressBlock(buf[..], all, blocks);
      buflen := 0;
    }

    /** Compresses whole blocks straight from the input, as long as more input follows. */
    method CompressAhead(input: seq<Byte>, start': nat, ghost all: seq<Byte>, ghost n: nat)
      returns (pin: nat, ghost n': nat)
      requires Reached(all, n) && start' < |input| && 128 * n + |input| - start' == |all|
      requires input[start'..] == all[128 * n..]
      modifies `t0, `t1, `h
      ensures Reached(all, n') && pin < |input| <= pin + BLOCK_BYTES && 128 * n' + |input| - pin == |all|
      ensures input[pin..] == all[128 * n'..]
    {
      pin, n' := start', n;
      var inlen := |input| - pin;
      while inlen > BLOCK_BYTES
        invariant Reached(all, n') && pin + inlen == |input| && 128 * n' + inlen == |all|
        invariant input[pin..] == all[128 * n'..] && 0 < inlen
      {
        NextBlock(input, pin, all, 128 * n');
        CompressBlock(input[pin..pin + BLOCK_BYTES], all, n');
        n' := n' + 1;
        inlen := inlen - BLOCK_BYTES;
        pin := pin + BLOCK_BYTES;
      }
    }

    /** Puts the rest of the input, at most one block, behind what the buffer holds. */
    method Keep(bytes: seq<Byte>, ghost all: seq<Byte>, ghost n: nat)
      requires Reached(all, n) && 1 <= outlen && bytes != []
      requires buflen + |bytes| <= BLOCK_BYTES && buf[..buflen] + bytes == all[128 * n..]
      modifies this, buf
      ensures Live() && data == all && outlen == old(outlen) && start == old(start)
    {
      CopyIn(buflen, bytes);
      buflen := buflen + |bytes|;
      data, blocks := all, n;
    }

    /** The branch of update for more than fits the buffer: everything but the last block is compressed. */
    method CompressEarly(input: seq<Byte>, ghost all: seq<Byte>) returns (pin: nat, ghost n: nat)
      requires Live() && all == data + input && buflen + |input| > BLOCK_BYTES
      modifies `t0, `t1, `h, `buflen, buf
      ensures Reached(all, n) && buflen == 0 && pin < |input| <= pin + BLOCK_BYTES && input[pin..] == all[128 * n..]
    {
      pin, n := BLOCK_BYTES - buflen, blocks + 1;
      FinishBlock(input[..pin], all);
      assert all[128 * n..] == input[pin..];
      pin, n := CompressAhead(input, pin, all, n);
    }

    /** The part of update after its checks. */
    method Absorb(input: seq<Byte>)
      requires Live() && input != []
      modifies this, buf
      ensures Live() && data == old(data) + input
      ensures outlen == old(outlen) && start == old(start)
    {
      ghost var all, n := data + input, blocks;
      var pin := 0;
      if buflen + |input| > BLOCK_BYTES {
        pin, n := CompressEarly(input, all);
      } else {
        ChainOfPrefix(core, start, data, all, n);
        assert all[128 * n..] == buf[..buflen] + input;
      }
      Keep(input[pin..], all, n);
    }

    method Update(input: Buffer) returns (ok: bool)
      requires Valid() && (f0 == 0 ==> Live())
      modifies this, buf
      ensures ok <==> input.Length() == 0 || (input.Bytes? && old(f0) == 0)
      ensures ok && old(f0) == 0 ==> Live() && data == old(data) + input.Content()
      ensures !ok || input.Length() == 0 ==> unchanged(this) && unchanged(buf)
      ensures outlen == old(outlen) && start == old(start)
    {
      if input.Length() == 0 {
        assert data == data + input.Content();
        return true;
      }
      if input.Null? {
        return false;
      }
      if f0 != 0 {
        return false;
      }
      Absorb(input.data);
      return true;
    }

    method PadBuffer(ghost held: seq<Byte>)
      requires buf.Length == BLOCK_BYTES && buflen <= BLOCK_BYTES && held == buf[..buflen]
      modifies buf
      ensures buf[..] == Padded(held)
    {
      CopyIn(buflen, Zeros(BLOCK_BYTES - buflen));
      assert buf[..] == buf[..BLOCK_BYTES];
    }

    /** Compresses the padded buffer as the last block. */
    method FinishLast()
      requires Live()
      modifies this, buf
      ensures f0 != 0 && Valid() && outlen == old(outlen)
      ensures h == Finished(core, old(start), old(data))
    {
      ghost var held := buf[..buflen];
      IncrementCounter(buflen, 128 * blocks);
      AbsorbedUnique(|data|, blocks);
      f0 := ALL_ONES;
      PadBuffer(held);
      h := core.f(h, buf[..], t0, t1, f0 != 0);
    }

    method Final(out: array?<Byte>) returns (ok: bool)
      requires Valid() && (f0 == 0 ==> Live()) && out != buf
      modifies this, buf, out
      ensures ok <==> out != null && out.Length >= old(outlen) && old(f0) == 0
      ensures ok ==> f0 != 0 && Valid()
      ensures ok ==> outlen == old(outlen) && out[..outlen] == HashData(core, old(start), old(data), outlen)
      ensures ok ==> forall p :: 0 <= p < outlen ==>
                       out[p] == core.store(Finished(core, old(start), old(data))[p / 8])[p % 8]
      ensures ok ==> out[outlen..] == old(out[outlen..])
      ensures !ok ==> unchanged(this) && unchanged(buf) && (out != null ==> unchanged(out))
    {
      if out == null || out.Length < outlen {
        return false;
      }
      if f0 != 0 {
        return false;
      }
      FinishLast();
      FinishedGivesHash(core, old(start), old(data), outlen);
      var digest := StoreWords(core, h);
      forall i | 0 <= i < outlen {
        out[i] := digest[i];
      }
      assert out[..outlen] == digest[..outlen];
      BytesAreStored(core, h, digest);
      return true;
    }
  }

  /** However the data was cut into updates, the state is the same. */
  lemma SameDataSameState<W(!new)>(a: State<W>, b: State<W>)
    requires a.Live() && b.Live() && a.core == b.core && a.start == b.start && a.data == b.data
    ensures a.h == b.h && a.t0 == b.t0 && a.t1 == b.t1 && a.f0 == b.f0 && a.buflen == b.buflen
    ensures a.buf[..a.buflen] == b.buf[..b.buflen]
  {
    AbsorbedUnique(|a.data|, a.blocks);
    AbsorbedUnique(|b.data|, b.blocks);
  }

  lemma FullBlock(data: seq<Byte>, held: seq<Byte>, bytes: seq<Byte>, all: seq<Byte>, at: nat)
    requires at <= |data| && held == data[at..] && data + bytes <= all && |held| + |bytes| == BLOCK_BYTES
    ensures at + BLOCK_BYTES <= |all| && held + bytes == all[at..at + BLOCK_BYTES]
  {
    assert held + bytes == (data + bytes)[at..];
  }

  lemma NextBlock(input: seq<Byte>, pin: nat, all: seq<Byte>, at: nat)
    requires pin <= |input| && at <= |all| && input[pin..] == all[at..] && |all| >= at + BLOCK_BYTES
    ensures input[pin..pin + BLOCK_BYTES] == all[at..at + BLOCK_BYTES]
    ensures input[pin + BLOCK_BYTES..] == all[at + BLOCK_BYTES..]
  {
    assert input[pin..pin + BLOCK_BYTES] == input[pin..][..BLOCK_BYTES];
    assert input[pin + BLOCK_BYTES..] == input[pin..][BLOCK_BYTES..];
  }

  /** Only the first word of the parameter block is not zero. */
  lemma {:induction false} OnlyFirstWord<W(!new)>(c: Core<W>, h: seq<W>, p: seq<Byte>, n: nat)
    requires ValidCore(c) && |h| == 8
    requires |p| == 64 && 1 <= n <= 8 && p[8..] == Zeros(56)
    ensures Parameterised(c, h, p, n) == h[0 := c.xor(h[0], c.load(p[..8]))]
  {
    if n == 1 {
      assert Parameterised(c, h, p, 0) == h;
      assert p[8 * 0..8 * 0 + 8] == p[..8];
    } else {
      OnlyFirstWord(c, h, p, n - 1);
      assert p[8 * (n - 1)..8 * (n - 1) + 8] == p[8..][8 * (n - 2)..8 * (n - 2) + 8] == Zeros(8);
    }
  }

  /** XORing the whole parameter block into the IV gives the initial state of section 3.3 of RFC 7693. */
  lemma ParametersOfRfc<W(!new)>(c: Core<W>, outlen: nat, keylen: nat)
    requires ValidCore(c) && outlen <= OUT_BYTES && keylen <= KEY_BYTES
    ensures Parameterised(c, c.iv, ParameterBlock(outlen, keylen), 8) == FirstState(c, outlen, keylen)
  {
    var p := ParameterBlock(outlen, keylen);
    assert p[..8] == FirstParameters(outlen, keylen);
    OnlyFirstWord(c, c.iv, p, 8);
  }
}
