/**
 Unpadded base64, external/argon2/encoding.c:106-212: both loops, what they mean bit by bit, and when they are
 inverse to each other (sections 3.2, 3.5 and 4 of RFC 4648). The alphabet is a parameter.
 */
module Base64 {
  import opened Words
  import opened BitOps
  import opened BitRows

  /** A character as the C code sees it: signed where `char` is signed, unsigned where it is not. */
  type Char = c: int | -128 <= c < 256

  /** The two conversions between six-bit values and characters; toByte is 0xFF on characters it refuses. */
  datatype Alphabet = Alphabet(toChar: nat -> Char, toByte: Char -> nat)

  ghost predicate ValidAlphabet(a: Alphabet) {
    && (forall v :: v < 64 ==> a.toByte(a.toChar(v)) == v)
    && forall c :: a.toByte(c) < 64 || a.toByte(c) == 0xFF
  }

  // ----- Meaning -----

  /** The six bits of a character. */
  function Sextet(a: Alphabet): Char -> seq<bool> {
    (c: Char) => Bits(a.toByte(c), 6)
  }

  function CharsBits(a: Alphabet, s: seq<Char>): seq<bool> {
    Flatten(Sextet(a), s)
  }

  /** A character that stands for the value it is read as. */
  predicate Canonical(a: Alphabet, c: Char) {
    a.toByte(c) < 64 && a.toChar(a.toByte(c)) == c
  }

  ghost predicate AllCanonical(a: Alphabet, s: seq<Char>) {
    forall i :: 0 <= i < |s| ==> Canonical(a, s[i])
  }

  /** The bits of the characters are those of the bytes and at most four zeros to fill up the last character. */
  ghost predicate Means(a: Alphabet, chars: seq<Char>, bytes: seq<u8>) {
    && 8 * |bytes| <= 6 * |chars| <= 8 * |bytes| + 4
    && CharsBits(a, chars) == BytesBits(bytes) + Bits(0, 6 * |chars| - 8 * |bytes|)
  }

  /** `chars` is the encoding of `bytes` that sections 3.2 and 4 of RFC 4648 describe. */
  ghost predicate Encodes(a: Alphabet, chars: seq<Char>, bytes: seq<u8>) {
    AllCanonical(a, chars) && Means(a, chars, bytes)
  }

  lemma SixBits(x: nat, y: nat)
    requires x < 64 && y < 64 && Bits(x, 6) == Bits(y, 6)
    ensures x == y
  {
    FitsBelow(x, 6);
    FitsBelow(y, 6);
    assert Pow2(6) == 64;
    SameRow(x, y, 6);
  }

  /** Bytes have at most one encoding ... */
  lemma EncodingUnique(a: Alphabet, s: seq<Char>, t: seq<Char>, bytes: seq<u8>)
    requires Encodes(a, s, bytes) && Encodes(a, t, bytes)
    ensures s == t
  {
    assert |s| == |t|;
    FlattenInjective(Sextet(a), s, t, 6);
    forall i | 0 <= i < |s|
      ensures s[i] == t[i]
    {
      assert Canonical(a, s[i]) && Canonical(a, t[i]) && Sextet(a)(s[i]) == Sextet(a)(t[i]);
      SixBits(a.toByte(s[i]), a.toByte(t[i]));
    }
  }

  /** ... and characters at most one meaning. */
  lemma MeaningUnique(a: Alphabet, chars: seq<Char>, s: seq<u8>, t: seq<u8>)
    requires Means(a, chars, s) && Means(a, chars, t)
    ensures s == t
  {
    assert |s| == |t|;
    var p := 6 * |chars| - 8 * |s|;
    SameEnds(BytesBits(s), Bits(0, p), BytesBits(t), Bits(0, p));
    BytesBitsInjective(s, t);
  }

  // ----- The encoding as a function -----

  /** The characters for rows of six bits. */
  function Letters(a: Alphabet, bits: seq<bool>): seq<Char> {
    if |bits| < 6 then [] else Letters(a, bits[..|bits| - 6]) + [a.toChar(Value(bits[|bits| - 6..]))]
  }

  lemma CanonicalAppend(a: Alphabet, s: seq<Char>, v: nat)
    requires ValidAlphabet(a) && v < 64 && AllCanonical(a, s)
    ensures AllCanonical(a, s + [a.toChar(v)])
    ensures CharsBits(a, s + [a.toChar(v)]) == CharsBits(a, s) + Bits(v, 6)
  {
    FlattenAppend(Sextet(a), s, a.toChar(v));
  }

  lemma SixBitsValue(b: seq<bool>)
    requires |b| == 6
    ensures Value(b) < 64 && Bits(Value(b), 6) == b
  {
    BitsOfValue(b);
    ValueFits(b);
    FitsBelow(Value(b), 6);
    assert Pow2(6) == 64;
  }

  lemma {:induction false} LettersBits(a: Alphabet, bits: seq<bool>)
    requires ValidAlphabet(a) && |bits| % 6 == 0
    ensures var s := Letters(a, bits);
            AllCanonical(a, s) && CharsBits(a, s) == bits && 6 * |s| == |bits|
  {
    if |bits| >= 6 {
      var front, last := bits[..|bits| - 6], bits[|bits| - 6..];
      LettersBits(a, front);
      SixBitsValue(last);
      CanonicalAppend(a, Letters(a, front), Value(last));
      assert bits == front + last;
    }
  }

  /** How many zero bits fill up the last character. */
  function FillBits(n: nat): nat {
    match n % 3 case 1 => 4 case 2 => 2 case _ => 0
  }

  /** The encoding of bytes. */
  function Encode(a: Alphabet, bytes: seq<u8>): seq<Char> {
    Letters(a, BytesBits(bytes) + Bits(0, FillBits(|bytes|)))
  }

  lemma EncodeEncodes(a: Alphabet, bytes: seq<u8>)
    requires ValidAlphabet(a)
    ensures Encodes(a, Encode(a, bytes), bytes)
    ensures |Encode(a, bytes)| == EncodedLength(|bytes|)
  {
    BytesBitsLength(bytes);
    FillToSix(|bytes|);
    LettersBits(a, BytesBits(bytes) + Bits(0, FillBits(|bytes|)));
    EncodedLengthIsCeiling(|bytes|);
  }

  lemma FillToSix(n: nat)
    ensures (8 * n + FillBits(n)) % 6 == 0 && FillBits(n) <= 4
  {
    assert n == 3 * (n / 3) + n % 3;
  }

  /** Canonical characters that are not followed by more are a run. */
  lemma CanonicalRun(a: Alphabet, s: seq<Char>, src: seq<Char>, from: nat)
    requires AllCanonical(a, s) && from + |s| <= |src| && src[from..from + |s|] == s
    requires from + |s| < |src| ==> !Taken(a, src[from + |s|])
    ensures Run(a, src, from) == s
  {
    forall i | from <= i < from + |s|
      ensures Taken(a, src[i])
    {
      assert src[i] == src[from..from + |s|][i - from] == s[i - from] && Canonical(a, s[i - from]);
    }
    RunIs(a, src, from, from + |s|);
  }

  /** Decoding the encoding of bytes gives the bytes, whatever follows it that is not base64. */
  lemma EncodingReadsBack(a: Alphabet, bytes: seq<u8>, src: seq<Char>, from: nat)
    requires ValidAlphabet(a)
    requires from + |Encode(a, bytes)| <= |src| && src[from..from + |Encode(a, bytes)|] == Encode(a, bytes)
    requires from + |Encode(a, bytes)| < |src| ==> !Taken(a, src[from + |Encode(a, bytes)|])
    ensures Run(a, src, from) == Encode(a, bytes)
    ensures forall other :: Means(a, Encode(a, bytes), other) <==> other == bytes
  {
    EncodeEncodes(a, bytes);
    CanonicalRun(a, Encode(a, bytes), src, from);
    OnlyMeaning(a, Encode(a, bytes), bytes);
  }

  lemma OnlyMeaning(a: Alphabet, s: seq<Char>, bytes: seq<u8>)
    requires Means(a, s, bytes)
    ensures forall other :: Means(a, s, other) <==> other == bytes
  {
    forall other | Means(a, s, other)
      ensures other == bytes
    {
      MeaningUnique(a, s, other, bytes);
    }
  }

  /** What the decoder takes is the encoding of what it gives back exactly if every character is canonical. */
  lemma AcceptedIsEncoding(a: Alphabet, run: seq<Char>, bytes: seq<u8>)
    requires ValidAlphabet(a) && Means(a, run, bytes)
    ensures run == Encode(a, bytes) <==> AllCanonical(a, run)
  {
    EncodeEncodes(a, bytes);
    if AllCanonical(a, run) {
      EncodingUnique(a, run, Encode(a, bytes), bytes);
    }
  }

  // ----- Encoding -----

  /** b64len: the length of the encoding of n bytes. */
  function EncodedLength(n: nat): nat {
    n / 3 * 4 + (match n % 3 case 2 => 3 case 1 => 2 case _ => 0)
  }

  lemma EncodedLengthIsCeiling(n: nat)
    ensures 8 * n <= 6 * EncodedLength(n) <= 8 * n + 4
  {
  }

  lemma LengthMonotone(m: nat, n: nat)
    requires m <= n
    ensures EncodedLength(m) <= EncodedLength(n)
  {
    EncodedLengthIsCeiling(m);
    EncodedLengthIsCeiling(n);
  }

  lemma Power2Of32()
    ensures Pow2(32) == 0x1_0000_0000
  {
    ByteMore(0);
    ByteMore(8);
    ByteMore(16);
    ByteMore(24);
  }

  /** What the 32-bit wrap-around drops is not among the low 32 bits. */
  lemma BitsOfWrap(x: nat, n: nat)
    requires n <= 32
    ensures Bits(Wrap32(x), n) == Bits(x, n)
  {
    LowIsMod(x, 32);
    Power2Of32();
    BitsOfLow(x, 32, n);
  }

  lemma WrapSum(x: nat, y: nat)
    ensures Wrap32(Wrap32(x) + y) == Wrap32(x + y)
  {
    var m := 0x1_0000_0000;
    if x >= m {
      DivModUnique(Wrap32(x) + y, (Wrap32(x) + y) / m, (Wrap32(x) + y) % m, m);
      DivModUnique(x + y, x / m + (Wrap32(x) + y) / m, (Wrap32(x) + y) % m, m);
    }
  }

  /** acc = (acc << n) + x. */
  function Shifted(acc: u32, n: nat, x: nat): u32 {
    Wrap32(Wrap32(Shl(acc, n)) + x)
  }

  lemma ShiftedBits(acc: u32, accLen: nat, n: nat, x: nat)
    requires Fits(x, n) && accLen + n <= 32
    ensures Bits(Shifted(acc, n, x), accLen + n) == Bits(acc, accLen) + Bits(x, n)
  {
    WrapSum(Shl(acc, n), x);
    JoinBits(acc, x, accLen, n);
    BitsOfWrap(Shl(acc, n) + x, accLen + n);
  }

  lemma And63(x: nat)
    ensures And(x, 0x3F) == Low(x, 6) < 64
  {
    assert Mask(6) == 0x3F;
    assert Pow2(6) == 64;
    AndMask(x, 6);
    LowIsMod(x, 6);
  }

  /** The next six bits of the accumulator, as a value. */
  function NextSextet(acc: u32, accLen: nat): nat
    requires accLen >= 6
  {
    And(Shr(acc, accLen - 6), 0x3F)
  }

  lemma NextSextetBits(acc: u32, accLen: nat)
    requires 6 <= accLen
    ensures var v := NextSextet(acc, accLen);
            v < 64 && Bits(acc, accLen) == Bits(v, 6) + Bits(acc, accLen - 6)
  {
    var high := Shr(acc, accLen - 6);
    And63(high);
    SplitBits(acc, 6, accLen - 6);
    BitsOfLow(high, 6, 6);
  }

  /** The last bits of the accumulator, filled up with zeros. */
  function LastSextet(acc: u32, accLen: nat): nat
    requires accLen <= 6
  {
    And(Wrap32(Shl(acc, 6 - accLen)), 0x3F)
  }

  lemma LastSextetBits(acc: u32, accLen: nat)
    requires accLen <= 6
    ensures var v := LastSextet(acc, accLen);
            v < 64 && Bits(v, 6) == Bits(acc, accLen) + Bits(0, 6 - accLen)
  {
    var shifted := Shl(acc, 6 - accLen);
    And63(Wrap32(shifted));
    BitsOfLow(Wrap32(shifted), 6, 6);
    BitsOfWrap(shifted, 6);
    ZeroFits(6 - accLen);
    JoinBits(acc, 0, accLen, 6 - accLen);
  }

  /** What the encoder has written, and the bits it still holds. */
  ghost predicate Encoding(a: Alphabet, written: seq<Char>, acc: u32, accLen: nat, bytes: seq<u8>) {
    && AllCanonical(a, written)
    && 6 * |written| + accLen == 8 * |bytes|
    && CharsBits(a, written) + Bits(acc, accLen) == BytesBits(bytes)
  }

  lemma EncodingTakesByte(a: Alphabet, written: seq<Char>, acc: u32, accLen: nat, bytes: seq<u8>, b: u8, acc': u32)
    requires Encoding(a, written, acc, accLen, bytes) && accLen < 6 && acc' == Shifted(acc, 8, b)
    ensures Encoding(a, written, acc', accLen + 8, bytes + [b])
  {
    WidthsOfC(b);
    ShiftedBits(acc, accLen, 8, b);
    BytesBitsAppend(bytes, b);
    Associative(CharsBits(a, written), Bits(acc, accLen), Bits(b, 8));
  }

  lemma EncodingWritesChar(a: Alphabet, written: seq<Char>, acc: u32, accLen: nat, bytes: seq<u8>, v: nat)
    requires ValidAlphabet(a) && Encoding(a, written, acc, accLen, bytes) && 6 <= accLen && v == NextSextet(acc, accLen)
    ensures Encoding(a, written + [a.toChar(v)], acc, accLen - 6, bytes)
    ensures |written| < EncodedLength(|bytes|)
  {
    NextSextetBits(acc, accLen);
    CanonicalAppend(a, written, v);
    Associative(CharsBits(a, written), Bits(v, 6), Bits(acc, accLen - 6));
    EncodedLengthIsCeiling(|bytes|);
  }

  /** No bits are left over. */
  lemma EncodingDone(a: Alphabet, written: seq<Char>, acc: u32, bytes: seq<u8>)
    requires Encoding(a, written, acc, 0, bytes)
    ensures Encodes(a, written, bytes) && |written| == EncodedLength(|bytes|)
  {
    EncodedLengthIsCeiling(|bytes|);
    assert CharsBits(a, written) + Bits(acc, 0) == CharsBits(a, written);
    assert BytesBits(bytes) + Bits(0, 0) == BytesBits(bytes);
  }

  /** Two or four bits are left over. */
  lemma EncodingPads(a: Alphabet, written: seq<Char>, acc: u32, accLen: nat, bytes: seq<u8>, v: nat)
    requires ValidAlphabet(a) && Encoding(a, written, acc, accLen, bytes) && 0 < accLen < 6
             && v == LastSextet(acc, accLen)
    ensures Encodes(a, written + [a.toChar(v)], bytes)
    ensures |written| + 1 == EncodedLength(|bytes|)
  {
    LastSextetBits(acc, accLen);
    CanonicalAppend(a, written, v);
    Associative(CharsBits(a, written), Bits(acc, accLen), Bits(0, 6 - accLen));
    EncodedLengthIsCeiling(|bytes|);
  }

  /** Where the encoder is: the next free place, and its accumulator. */
  datatype Encoder = Encoder(place: nat, acc: u32, accLen: nat)

  method WriteChar(buffer: array<Char>, at: nat, place: nat, c: Char)
    requires at <= place < buffer.Length
    modifies buffer
    ensures buffer[at..place + 1] == old(buffer[at..place]) + [c]
    ensures buffer[..at] == old(buffer[..at])
  {
    buffer[place] := c;
  }

  ghost predicate EncodingAt(a: Alphabet, buffer: array<Char>, at: nat, e: Encoder, bytes: seq<u8>)
    reads buffer
  {
    at <= e.place <= buffer.Length && Encoding(a, buffer[at..e.place], e.acc, e.accLen, bytes)
  }

  method WriteSextet(a: Alphabet, buffer: array<Char>, at: nat, e: Encoder, ghost bytes: seq<u8>) returns (e': Encoder)
    requires ValidAlphabet(a) && EncodingAt(a, buffer, at, e, bytes) && 6 <= e.accLen
    requires at + EncodedLength(|bytes|) < buffer.Length
    modifies buffer
    ensures EncodingAt(a, buffer, at, e', bytes) && e'.accLen == e.accLen - 6
    ensures buffer[..at] == old(buffer[..at])
  {
    var v := NextSextet(e.acc, e.accLen);
    EncodingWritesChar(a, buffer[at..e.place], e.acc, e.accLen, bytes, v);
    WriteChar(buffer, at, e.place, a.toChar(v));
    e' := Encoder(e.place + 1, e.acc, e.accLen - 6);
  }

  /** One turn of the outer loop: a byte goes in, whole characters come out. */
  method EncodeByte(a: Alphabet, buffer: array<Char>, at: nat, e: Encoder, ghost bytes: seq<u8>, b: u8)
    returns (e': Encoder)
    requires ValidAlphabet(a) && EncodingAt(a, buffer, at, e, bytes) && e.accLen < 6
    requires at + EncodedLength(|bytes| + 1) < buffer.Length
    modifies buffer
    ensures EncodingAt(a, buffer, at, e', bytes + [b]) && e'.accLen < 6
    ensures buffer[..at] == old(buffer[..at])
  {
    e' := Encoder(e.place, Shifted(e.acc, 8, b), e.accLen + 8);
    EncodingTakesByte(a, buffer[at..e.place], e.acc, e.accLen, bytes, b, e'.acc);
    while e'.accLen >= 6
      invariant EncodingAt(a, buffer, at, e', bytes + [b])
      invariant buffer[..at] == old(buffer[..at])
      decreases e'.accLen
    {
      e' := WriteSextet(a, buffer, at, e', bytes + [b]);
    }
  }

  /** The last character, if bits are left over. */
  method EncodeRest(a: Alphabet, buffer: array<Char>, at: nat, e: Encoder, ghost src: seq<u8>) returns (end: nat)
    requires ValidAlphabet(a) && EncodingAt(a, buffer, at, e, src) && e.accLen < 6
    requires at + EncodedLength(|src|) < buffer.Length
    modifies buffer
    ensures end == at + EncodedLength(|src|) && Encodes(a, buffer[at..end], src)
    ensures buffer[..at] == old(buffer[..at])
  {
    if e.accLen > 0 {
      var v := LastSextet(e.acc, e.accLen);
      EncodingPads(a, buffer[at..e.place], e.acc, e.accLen, src, v);
      WriteChar(buffer, at, e.place, a.toChar(v));
      end := e.place + 1;
    } else {
      EncodingDone(a, buffer[at..e.place], e.acc, src);
      end := e.place;
    }
  }

  /**
   to_base64, writing from `at` on into the rest of the buffer: the encoding and a terminating zero if they fit, nothing
   otherwise.
   */
  method ToBase64(a: Alphabet, buffer: array<Char>, at: nat, src: seq<u8>) returns (ok: bool, olen: nat)
    requires ValidAlphabet(a) && at <= buffer.Length
    modifies buffer
    ensures olen == EncodedLength(|src|) && (ok <==> at + olen < buffer.Length)
    ensures ok ==> Encodes(a, buffer[at..at + olen], src) && buffer[at + olen] == 0
    ensures buffer[..at] == old(buffer[..at])
    ensures !ok ==> unchanged(buffer)
  {
    olen := EncodedLength(|src|);
    if buffer.Length - at <= olen {
      return false, olen;
    }
    var e := Encoder(at, 0, 0);
    for i := 0 to |src|
      invariant EncodingAt(a, buffer, at, e, src[..i]) && e.accLen < 6
      invariant buffer[..at] == old(buffer[..at])
    {
      LengthMonotone(i + 1, |src|);
      assert src[..i + 1] == src[..i] + [src[i]];
      e := EncodeByte(a, buffer, at, e, src[..i], src[i]);
    }
    assert src[..|src|] == src;
    var end := EncodeRest(a, buffer, at, e, src);
    Terminate(buffer, at, end);
    return true, olen;
  }

  method Terminate(buffer: array<Char>, ghost at: nat, end: nat)
    requires at <= end < buffer.Length
    modifies buffer
    ensures buffer[end] == 0 && buffer[..at] == old(buffer[..at]) && buffer[at..end] == old(buffer[at..end])
  {
    buffer[end] := 0;
  }

  // ----- Decoding -----

  predicate Taken(a: Alphabet, c: Char) {
    a.toByte(c) != 0xFF
  }

  /** The characters from a place on that the decoder takes. */
  function Run(a: Alphabet, s: seq<Char>, from: nat): (run: seq<Char>)
    requires from <= |s|
    ensures from + |run| <= |s| && run == s[from..from + |run|]
    decreases |s| - from
  {
    if from < |s| && Taken(a, s[from]) then [s[from]] + Run(a, s, from + 1) else []
  }

  lemma {:induction false} RunIs(a: Alphabet, s: seq<Char>, from: nat, next: nat)
    requires from <= next <= |s| && (forall i :: from <= i < next ==> Taken(a, s[i]))
    requires next < |s| ==> !Taken(a, s[next])
    ensures Run(a, s, from) == s[from..next]
    decreases next - from
  {
    if from < next {
      RunIs(a, s, from + 1, next);
    }
  }

  lemma {:induction false} RunReaches(a: Alphabet, s: seq<Char>, from: nat, next: nat)
    requires from <= next <= |s| && (forall i :: from <= i < next ==> Taken(a, s[i]))
    ensures |Run(a, s, from)| >= next - from
    decreases next - from
  {
    if from < next {
      RunReaches(a, s, from + 1, next);
    }
  }

  /** What the decoder has read, and the bits it still holds. */
  ghost predicate Decoding(a: Alphabet, read: seq<Char>, acc: u32, accLen: nat, bytes: seq<u8>) {
    && 6 * |read| == 8 * |bytes| + accLen
    && CharsBits(a, read) == BytesBits(bytes) + Bits(acc, accLen)
  }

  lemma DecodingTakesChar(a: Alphabet, read: seq<Char>, acc: u32, accLen: nat, bytes: seq<u8>, c: Char, acc': u32)
    requires ValidAlphabet(a) && Decoding(a, read, acc, accLen, bytes) && accLen < 8 && Taken(a, c)
    requires acc' == Shifted(acc, 6, a.toByte(c))
    ensures Decoding(a, read + [c], acc', accLen + 6, bytes)
  {
    var v := a.toByte(c);
    SextetFits(v);
    ShiftedBits(acc, accLen, 6, v);
    SextetAppended(a, read, c, BytesBits(bytes), Bits(acc, accLen), Bits(v, 6));
  }

  lemma SextetFits(v: nat)
    requires v < 64
    ensures Fits(v, 6)
  {
    FitsBelow(v, 6);
    assert Pow2(6) == 64;
  }

  lemma SextetAppended(a: Alphabet, read: seq<Char>, c: Char, bytes: seq<bool>, held: seq<bool>, sextet: seq<bool>)
    requires CharsBits(a, read) == bytes + held && sextet == Bits(a.toByte(c), 6)
    ensures CharsBits(a, read + [c]) == bytes + (held + sextet)
  {
    FlattenAppend(Sextet(a), read, c);
    Associative(bytes, held, sextet);
  }

  /** The next eight bits of the accumulator. */
  function NextByte(acc: u32, accLen: nat): nat
    requires accLen >= 8
  {
    And(Shr(acc, accLen - 8), 0xFF)
  }

  lemma DecodingGivesByte(a: Alphabet, read: seq<Char>, acc: u32, accLen: nat, bytes: seq<u8>, b: nat)
    requires Decoding(a, read, acc, accLen, bytes) && accLen >= 8 && b == NextByte(acc, accLen)
    ensures b < 0x100 && Decoding(a, read, acc, accLen - 8, bytes + [b])
  {
    var high := Shr(acc, accLen - 8);
    AndByte(high);
    SplitBits(acc, 8, accLen - 8);
    BitsOfLow(high, 8, 8);
    BytesBitsAppend(bytes, b);
    Associative(BytesBits(bytes), Bits(b, 8), Bits(acc, accLen - 8));
  }

  /** The bits left over are all zero exactly if the run has a meaning, and then it is the bytes. */
  lemma LeftOver(a: Alphabet, run: seq<Char>, acc: u32, accLen: nat, bytes: seq<u8>)
    requires Decoding(a, run, acc, accLen, bytes) && accLen < 8
    ensures accLen <= 4 && And(acc, Mask(accLen)) == 0 ==> Means(a, run, bytes)
    ensures !(accLen <= 4 && And(acc, Mask(accLen)) == 0) ==> forall other :: !Means(a, run, other)
  {
    AndMask(acc, accLen);
    ValueOfBits(acc, accLen);
    ValueOfBits(0, accLen);
    if accLen <= 4 && Low(acc, accLen) == 0 {
      BitsOfLow(acc, accLen, accLen);
    } else {
      forall other | Means(a, run, other)
        ensures false
      {
        MeansLeftOver(a, run, acc, accLen, bytes, other);
      }
    }
  }

  lemma MeansLeftOver(a: Alphabet, run: seq<Char>, acc: u32, accLen: nat, bytes: seq<u8>, other: seq<u8>)
    requires Decoding(a, run, acc, accLen, bytes) && accLen < 8 && Means(a, run, other)
    ensures accLen <= 4 && Low(acc, accLen) == 0
  {
    assert |other| == |bytes|;
    SameEnds(BytesBits(bytes), Bits(acc, accLen), BytesBits(other), Bits(0, accLen));
    ValueOfBits(acc, accLen);
    ValueOfBits(0, accLen);
    ZeroFits(accLen);
    LowOfSmall(0, accLen);
  }

  datatype Decoded = Refused | Decoded(bytes: seq<u8>, next: nat)

  /** Where the decoder is: what it has produced, its accumulator, and the next character. */
  datatype Decoder = Decoder(bytes: seq<u8>, acc: u32, accLen: nat, next: nat)

  ghost predicate DecodingFrom(a: Alphabet, src: seq<Char>, from: nat, d: Decoder) {
    && from <= d.next <= |src| && d.accLen < 8
    && (forall i :: from <= i < d.next ==> Taken(a, src[i]))
    && Decoding(a, src[from..d.next], d.acc, d.accLen, d.bytes)
  }

  /** One more character shifted in. */
  lemma CharRead(a: Alphabet, src: seq<Char>, from: nat, d: Decoder, acc: u32)
    requires ValidAlphabet(a) && DecodingFrom(a, src, from, d) && d.next < |src| && Taken(a, src[d.next])
    requires acc == Shifted(d.acc, 6, a.toByte(src[d.next]))
    ensures forall i :: from <= i < d.next + 1 ==> Taken(a, src[i])
    ensures Decoding(a, src[from..d.next + 1], acc, d.accLen + 6, d.bytes)
  {
    assert src[from..d.next + 1] == src[from..d.next] + [src[d.next]];
    DecodingTakesChar(a, src[from..d.next], d.acc, d.accLen, d.bytes, src[d.next], acc);
  }

  /** The body of the loop; it fails when a byte is complete for which there is no room. */
  method DecodeChar(a: Alphabet, src: seq<Char>, ghost from: nat, cap: nat, d: Decoder) returns (ok: bool, d': Decoder)
    requires ValidAlphabet(a) && DecodingFrom(a, src, from, d) && |d.bytes| <= cap && d.next < |src|
             && Taken(a, src[d.next])
    ensures ok ==> DecodingFrom(a, src, from, d') && |d'.bytes| <= cap && d'.next == d.next + 1
    ensures !ok ==> 6 * |Run(a, src, from)| >= 8 * cap + 8
  {
    var acc := Shifted(d.acc, 6, a.toByte(src[d.next]));
    CharRead(a, src, from, d, acc);
    if d.accLen + 6 < 8 {
      return true, Decoder(d.bytes, acc, d.accLen + 6, d.next + 1);
    }
    if |d.bytes| >= cap {
      RunReaches(a, src, from, d.next + 1);
      return false, d;
    }
    var b := NextByte(acc, d.accLen + 6);
    DecodingGivesByte(a, src[from..d.next + 1], acc, d.accLen + 6, d.bytes, b);
    return true, Decoder(d.bytes + [b], acc, d.accLen - 2, d.next + 1);
  }

  lemma TooLong(a: Alphabet, run: seq<Char>, cap: nat)
    requires 6 * |run| >= 8 * cap + 8
    ensures forall bytes :: Means(a, run, bytes) ==> |bytes| > cap
  {
  }

  /**
   from_base64, reading from a place on with room for `cap` bytes: the meaning of the characters it takes, if they have
   one and it fits. The string ends in a zero, which is not taken.
   */
  method FromBase64(a: Alphabet, src: seq<Char>, from: nat, cap: nat) returns (r: Decoded)
    requires ValidAlphabet(a) && from <= |src|
    ensures r.Decoded? ==>
              Means(a, Run(a, src, from), r.bytes) && |r.bytes| <= cap && r.next == from + |Run(a, src, from)|
    ensures r.Refused? ==> forall bytes :: Means(a, Run(a, src, from), bytes) ==> |bytes| > cap
  {
    var d := Decoder([], 0, 0, from);
    while d.next < |src| && Taken(a, src[d.next])
      invariant DecodingFrom(a, src, from, d) && |d.bytes| <= cap
      decreases |src| - d.next
    {
      var ok;
      ok, d := DecodeChar(a, src, from, cap, d);
      if !ok {
        TooLong(a, Run(a, src, from), cap);
        return Refused;
      }
    }
    RunIs(a, src, from, d.next);
    LeftOver(a, src[from..d.next], d.acc, d.accLen, d.bytes);
    if d.accLen > 4 || And(d.acc, Mask(d.accLen)) != 0 {
      return Refused;
    }
    return Decoded(d.bytes, d.next);
  }
}
