/**
 The hash in one call (external/argon2/blake2b.c:325-363), and the variable-length hash H' of section 3.3 of
 RFC 9106 (external/argon2/blake2b.c:366-435).
 */
module Blake2bLong {
  import opened Words
  import opened Buffers
  import opened Blake2bSpec
  import opened Blake2b

  /** Starts a state, with the key if there is one. */
  method Begin<W(!new)>(s: State<W>, outlen: nat, key: Buffer)
    requires s.Valid() && 1 <= outlen <= OUT_BYTES && !key.NullWithLength() && key.Length() <= KEY_BYTES
    modifies s, s.buf
    ensures s.Live() && s.outlen == outlen && s.start == FirstState(s.core, outlen, |key.Content()|)
    ensures s.data == Data(key.Content(), [])
  {
    var ok;
    if key.Length() > 0 {
      ok := s.InitKey(outlen, key);
    } else {
      ok := s.Init(outlen);
    }
  }

  method HashOnce<W(!new)>(core: Core<W>, out: array?<Byte>, outlen: nat, input: Buffer, key: Buffer) returns (ok: bool)
    requires ValidCore(core) && (out != null ==> out.Length >= outlen)
    modifies out
    ensures ok <==> !input.NullWithLength() && out != null && 1 <= outlen <= OUT_BYTES
                    && !key.NullWithLength() && key.Length() <= KEY_BYTES
    ensures ok ==> out[..outlen] == Hash(core, outlen, key.Content(), input.Content())
    ensures !ok && out != null ==> unchanged(out)
  {
    if input.NullWithLength() || out == null || outlen == 0 || outlen > OUT_BYTES {
      return false;
    }
    if key.NullWithLength() || key.Length() > KEY_BYTES {
      return false;
    }
    var s := new State(core);
    Begin(s, outlen, key);
    ok := s.Update(input);
    assert s.data == Data(key.Content(), input.Content());
    ok := s.Final(out);
  }

  // ----- H' -----

  /** V_1 is the first digest, V_i the digest of V_(i-1). */
  function V<W(!new)>(c: Core<W>, first: seq<Byte>, i: nat): (v: seq<Byte>)
    requires ValidCore(c) && |first| == OUT_BYTES && 1 <= i
    ensures |v| == OUT_BYTES
  {
    if i == 1 then first else Hash(c, OUT_BYTES, [], V(c, first, i - 1))
  }

  /** W_1 || ... || W_n: the first halves of the digests. */
  function FirstHalves<W(!new)>(c: Core<W>, first: seq<Byte>, n: nat): (w: seq<Byte>)
    requires ValidCore(c) && |first| == OUT_BYTES
    ensures |w| == 32 * n
  {
    if n == 0 then [] else FirstHalves(c, first, n - 1) + V(c, first, n)[..32]
  }

  /** r = ceil(T / 32) - 2, and what is left for the last digest. */
  function Halves(outlen: nat): (r: nat)
    requires outlen > OUT_BYTES
  {
    (outlen + 31) / 32 - 2
  }

  lemma LastDigestLength(outlen: nat)
    requires outlen > OUT_BYTES
    ensures 1 <= Halves(outlen)
    ensures 33 <= outlen - 32 * Halves(outlen) <= OUT_BYTES
  {
  }

  /** What H' makes of the first digest when more than one digest is needed. */
  function Remainder<W(!new)>(c: Core<W>, outlen: nat, first: seq<Byte>): (digest: seq<Byte>)
    requires ValidCore(c) && outlen > OUT_BYTES && |first| == OUT_BYTES
    ensures |digest| == outlen
  {
    LastDigestLength(outlen);
    FirstHalves(c, first, Halves(outlen)) + Hash(c, outlen - 32 * Halves(outlen), [], V(c, first, Halves(outlen)))
  }

  function FirstInput<W>(c: Core<W>, outlen: nat, input: seq<Byte>): seq<Byte> {
    c.le32(outlen) + input
  }

  /** H' of section 3.3 of RFC 9106. */
  function LongHash<W(!new)>(c: Core<W>, outlen: nat, input: seq<Byte>): (digest: seq<Byte>)
    requires ValidCore(c)
    ensures |digest| == outlen
  {
    if outlen <= OUT_BYTES then Hash(c, outlen, [], FirstInput(c, outlen, input))
    else
      Remainder(c, outlen, Hash(c, OUT_BYTES, [], FirstInput(c, outlen, input)))
  }

  /** The length, then the input. */
  method UpdateFirst<W(!new)>(s: State<W>, outlen: nat, input: Buffer) returns (ok: bool)
    requires s.Live() && s.data == []
    modifies s, s.buf
    ensures ok <==> !input.NullWithLength()
    ensures s.Live() && s.start == old(s.start) && s.outlen == old(s.outlen)
    ensures ok ==> s.data == FirstInput(s.core, outlen, input.Content())
  {
    ok := s.Update(Bytes(s.core.le32(outlen)));
    assert s.data == s.core.le32(outlen);
    ok := s.Update(input);
  }

  /** Hashes the length and the input into `out`: the common start of the two branches. */
  method HashFirst<W(!new)>(core: Core<W>, out: array?<Byte>, digestLength: nat, outlen: nat, input: Buffer)
    returns (ok: bool)
    requires ValidCore(core) && (out != null ==> out.Length == digestLength)
    modifies out
    ensures ok <==> 1 <= digestLength <= OUT_BYTES && !input.NullWithLength() && out != null
    ensures ok ==> out[..] == Hash(core, digestLength, [], FirstInput(core, outlen, input.Content()))
  {
    var s := new State(core);
    ok := s.Init(digestLength);
    if !ok {
      return;
    }
    ok := UpdateFirst(s, outlen, input);
    if !ok {
      return;
    }
    ok := s.Final(out);
    if ok {
      assert out[..] == out[..digestLength];
    }
  }

  method CopyTo(target: array<Byte>, at: nat, bytes: seq<Byte>)
    requires at + |bytes| <= target.Length
    modifies target
    ensures target[..at + |bytes|] == old(target[..at]) + bytes
  {
    forall i | 0 <= i < |bytes| {
      target[at + i] := bytes[i];
    }
  }

  method HashAgain<W(!new)>(core: Core<W>, out: array<Byte>, outlen: nat, input: seq<Byte>)
    requires ValidCore(core) && 1 <= outlen <= OUT_BYTES && out.Length == OUT_BYTES
    modifies out
    ensures out[..outlen] == Hash(core, outlen, [], input)
  {
    var ok := HashOnce(core, out, outlen, Bytes(input), Null(0));
  }

  /** What the loop keeps: the buffer holds V_i, and the halves of V_1, ..., V_i are written. */
  ghost predicate Produced<W(!new)>(core: Core<W>, first: seq<Byte>, i: nat, buffer: seq<Byte>, written: seq<Byte>)
    requires ValidCore(core) && |first| == OUT_BYTES
  {
    1 <= i && buffer == V(core, first, i) && written == FirstHalves(core, first, i)
  }

  lemma NextProduced<W(!new)>(core: Core<W>, first: seq<Byte>, i: nat, buffer: seq<Byte>, written: seq<Byte>,
                              next: seq<Byte>)
    requires ValidCore(core) && |first| == OUT_BYTES
    requires Produced(core, first, i, buffer, written) && next == Hash(core, OUT_BYTES, [], buffer)
    ensures |next| == OUT_BYTES && Produced(core, first, i + 1, next, written + next[..32])
  {
  }

  lemma AllProduced<W(!new)>(core: Core<W>, first: seq<Byte>, i: nat, buffer: seq<Byte>, written: seq<Byte>,
                             outlen: nat, last: seq<Byte>)
    requires ValidCore(core) && |first| == OUT_BYTES
    requires Produced(core, first, i, buffer, written)
    requires 33 <= outlen - 32 * i <= OUT_BYTES && last == Hash(core, outlen - 32 * i, [], buffer)
    ensures outlen > OUT_BYTES && i == Halves(outlen)
    ensures written + last == Remainder(core, outlen, first)
  {
  }

  method HalfStep<W(!new)>(core: Core<W>, out: array<Byte>, outBuffer: array<Byte>, toproduce: nat,
                           ghost first: seq<Byte>, ghost i: nat)
    requires ValidCore(core) && |first| == OUT_BYTES && outBuffer.Length == OUT_BYTES && out != outBuffer
    requires OUT_BYTES < toproduce <= out.Length
    requires Produced(core, first, i, outBuffer[..], out[..out.Length - toproduce])
    modifies out, outBuffer
    ensures Produced(core, first, i + 1, outBuffer[..], out[..out.Length - toproduce + 32])
  {
    ghost var buffer := outBuffer[..];
    HashAgain(core, outBuffer, OUT_BYTES, outBuffer[..]);
    assert outBuffer[..] == outBuffer[..OUT_BYTES];
    NextProduced(core, first, i, buffer, out[..out.Length - toproduce], outBuffer[..]);
    CopyTo(out, out.Length - toproduce, outBuffer[..32]);
  }

  method FirstHalf<W(!new)>(ghost core: Core<W>, out: array<Byte>, first: seq<Byte>) returns (outBuffer: array<Byte>)
    requires ValidCore(core) && out.Length > OUT_BYTES && |first| == OUT_BYTES
    modifies out
    ensures fresh(outBuffer) && outBuffer.Length == OUT_BYTES
    ensures Produced(core, first, 1, outBuffer[..], out[..32])
  {
    outBuffer := new Byte[OUT_BYTES](i requires 0 <= i < OUT_BYTES => first[i]);
    assert outBuffer[..] == first;
    CopyTo(out, 0, outBuffer[..32]);
    assert FirstHalves(core, first, 1) == FirstHalves(core, first, 0) + V(core, first, 1)[..32];
  }

  method LastDigest<W(!new)>(core: Core<W>, out: array<Byte>, outBuffer: array<Byte>, toproduce: nat,
                             ghost first: seq<Byte>, ghost i: nat)
    requires ValidCore(core) && |first| == OUT_BYTES && outBuffer.Length == OUT_BYTES && out != outBuffer
    requires toproduce == out.Length - 32 * i && 33 <= toproduce <= OUT_BYTES
    requires Produced(core, first, i, outBuffer[..], out[..out.Length - toproduce])
    modifies out, outBuffer
    ensures out.Length > OUT_BYTES && out[..] == Remainder(core, out.Length, first)
  {
    ghost var buffer, written := outBuffer[..], out[..out.Length - toproduce];
    HashAgain(core, outBuffer, toproduce, outBuffer[..]);
    var last := outBuffer[..toproduce];
    AllProduced(core, first, i, buffer, written, out.Length, last);
    CopyTo(out, out.Length - toproduce, last);
    assert out[..] == out[..out.Length] == written + last;
  }

  /** Half of each digest but the last, then the last. */
  method HashRest<W(!new)>(core: Core<W>, out: array<Byte>, first: seq<Byte>)
    requires ValidCore(core) && out.Length > OUT_BYTES && |first| == OUT_BYTES
    modifies out
    ensures out[..] == Remainder(core, out.Length, first)
  {
    var outBuffer := FirstHalf(core, out, first);
    var toproduce := out.Length - 32;
    ghost var i := 1;
    while toproduce > OUT_BYTES
      invariant toproduce == out.Length - 32 * i && 33 <= toproduce
      invariant Produced(core, first, i, outBuffer[..], out[..out.Length - toproduce])
    {
      HalfStep(core, out, outBuffer, toproduce, first, i);
      toproduce := toproduce - 32;
      i := i + 1;
    }
    LastDigest(core, out, outBuffer, toproduce, first, i);
  }

  /** blake2b_long: fills `out` with H' of the input. */
  method HashLong<W(!new)>(core: Core<W>, out: array?<Byte>, outlen: nat, input: Buffer) returns (ok: bool)
    requires ValidCore(core) && (out != null ==> out.Length == outlen)
    requires outlen > OUT_BYTES ==> out != null
    modifies out
    ensures ok <==> 1 <= outlen < 0x1_0000_0000 && !input.NullWithLength() && out != null
    ensures ok ==> out[..] == LongHash(core, outlen, input.Content())
  {
    if outlen > 0xFFFF_FFFF {
      return false;
    }
    if outlen <= OUT_BYTES {
      ok := HashFirst(core, out, outlen, outlen, input);
    } else {
      var outBuffer := new Byte[OUT_BYTES];
      ok := HashFirst(core, outBuffer, OUT_BYTES, outlen, input);
      if ok {
        HashRest(core, out, outBuffer[..]);
      }
    }
  }
}
