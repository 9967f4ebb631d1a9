/**
 The branch-free conversions between six-bit values and characters, external/argon2/encoding.c:74-104, on 32-bit
 unsigned numbers, against the alphabet of section 4 of RFC 4648.
 */
module Base64Chars {
  import opened Words
  import opened BitOps
  import opened BitRows
  import opened Base64

  // ----- The macros -----

  function Eq(x: u32, y: u32): nat {
    Xor(And(Shr(Wrap32(-(Xor(x, y) as int)), 8), 0xFF), 0xFF)
  }

  function Gt(x: u32, y: u32): nat {
    And(Shr(Wrap32(y - x), 8), 0xFF)
  }

  function Ge(x: u32, y: u32): nat {
    Xor(Gt(y, x), 0xFF)
  }

  function Lt(x: u32, y: u32): nat {
    Gt(y, x)
  }

  function Le(x: u32, y: u32): nat {
    Ge(y, x)
  }

  /** Five values under five masks: (m1 & v1) | (m2 & v2) | (m3 & v3) | (m4 & v4) | (m5 & v5). */
  function Masked(m1: nat, v1: nat, m2: nat, v2: nat, m3: nat, v3: nat, m4: nat, v4: nat, m5: nat, v5: nat): nat {
    Or(Or(Or(Or(And(m1, v1), And(m2, v2)), And(m3, v3)), And(m4, v4)), And(m5, v5))
  }

  /** b64_byte_to_char. */
  function ByteToChar(x: u32): nat {
    Masked(Lt(x, 26), Wrap32(x + 65),
           And(Ge(x, 26), Lt(x, 52)), Wrap32(x + (97 - 26)),
           And(Ge(x, 52), Lt(x, 62)), Wrap32(x + (48 - 52)),
           Eq(x, 62), 43,
           Eq(x, 63), 47)
  }

  /** The value before the test for zero. */
  function RawByte(c: Char): nat {
    var u := Wrap32(c);
    Masked(And(Ge(u, 65), Le(u, 90)), Wrap32(c - 65),
           And(Ge(u, 97), Le(u, 122)), Wrap32(c - (97 - 26)),
           And(Ge(u, 48), Le(u, 57)), Wrap32(c - (48 - 52)),
           Eq(u, 43), 62,
           Eq(u, 47), 63)
  }

  /** Zero stands for 'A' only if the character is 'A'. */
  function Completed(x: nat, c: Char): nat {
    Or(x, And(Eq(Wrap32(x), 0), Xor(Eq(Wrap32(c), 65), 0xFF)))
  }

  /** b64_char_to_byte: 0xFF for what is not a base64 character. */
  function CharToByte(c: Char): nat {
    Completed(RawByte(c), c)
  }

  // ----- The macros are comparisons -----

  function Truth(b: bool): nat {
    if b then 0xFF else 0
  }

  lemma Shr8(x: nat)
    ensures Shr(x, 8) == x / 0x100
  {
    assert Pow2(8) == 0x100;
    ShrIsDiv(x, 8);
  }

  lemma And255(x: nat)
    ensures And(x, 0xFF) == And(0xFF, x) == x % 0x100
  {
    AndByte(x);
    AndCommutes(x, 0xFF);
  }

  lemma {:induction false} AndCommutes(a: nat, b: nat)
    ensures And(a, b) == And(b, a)
    decreases a
  {
    if a != 0 && b != 0 {
      AndCommutes(a / 2, b / 2);
    }
  }

  lemma {:induction false} XorIsZero(a: nat, b: nat)
    ensures Xor(a, b) == 0 <==> a == b
    decreases a + b
  {
    if a != 0 || b != 0 {
      XorIsZero(a / 2, b / 2);
    }
  }

  lemma {:induction false} XorFits(a: nat, b: nat, n: nat)
    requires Fits(a, n) && Fits(b, n)
    ensures Fits(Xor(a, b), n)
    decreases n
  {
    if n != 0 {
      XorFits(a / 2, b / 2, n - 1);
    }
  }

  lemma Negate(b: bool)
    ensures Xor(Truth(b), 0xFF) == Truth(!b)
  {
    assert Xor(0xFF, 0xFF) == 0;
  }

  lemma WrapNegative(d: int)
    requires -0x1_0000_0000 <= d < 0
    ensures Wrap32(d) == 0x1_0000_0000 + d
  {
    DivModUnique(d, -1, 0x1_0000_0000 + d, 0x1_0000_0000);
  }

  lemma TopByte(w: u32, q: nat, r: nat)
    requires w == 0x100 * q + r && r < 0x100 && (q == 0 || q == 0xFF_FFFF)
    ensures And(Shr(w, 8), 0xFF) == Truth(q != 0)
  {
    Shr8(w);
    DivModUnique(w, q, r, 0x100);
    And255(q);
  }

  lemma TopByteOfDifference(d: int)
    requires -256 <= d <= 255
    ensures And(Shr(Wrap32(d), 8), 0xFF) == Truth(d < 0)
  {
    if d < 0 {
      WrapNegative(d);
      TopByte(Wrap32(d), 0xFF_FFFF, 256 + d);
    } else {
      TopByte(d, 0, d);
    }
  }

  lemma WrapTwice(c: Char, k: nat)
    requires k < 128
    ensures Wrap32(Wrap32(c) - k) == Wrap32(c - k)
    ensures Wrap32(k - Wrap32(c)) == Wrap32(k - c)
  {
  }

  lemma GtChar(c: Char, k: nat)
    requires k < 128
    ensures Gt(k, Wrap32(c)) == Truth(c < k)
    ensures Gt(Wrap32(c), k) == Truth(k < c)
  {
    WrapTwice(c, k);
    TopByteOfDifference(c - k);
    TopByteOfDifference(k - c);
  }

  lemma Not(m: nat, b: bool)
    requires m == Truth(!b)
    ensures Xor(m, 0xFF) == Truth(b)
  {
    Negate(!b);
  }

  /** On a character, even a negative one, and a constant. */
  lemma CompareChar(c: Char, k: nat)
    requires k < 128
    ensures Ge(Wrap32(c), k) == Truth(c >= k)
    ensures Le(Wrap32(c), k) == Truth(c <= k)
  {
    GtChar(c, k);
    Not(Gt(k, Wrap32(c)), c >= k);
    Not(Gt(Wrap32(c), k), c <= k);
  }

  lemma XorOfBytes(x: nat, y: nat)
    requires x < 256 && y < 256
    ensures Xor(x, y) < 256
  {
    Shr8(x);
    Shr8(y);
    XorFits(x, y, 8);
    Shr8(Xor(x, y));
  }

  lemma EqOfXor(z: int)
    requires 0 <= z < 256
    ensures Xor(And(Shr(Wrap32(-z), 8), 0xFF), 0xFF) == Truth(z == 0)
  {
    TopByteOfDifference(-z);
    Negate(z != 0);
  }

  lemma EqIs(x: u32, y: u32)
    requires x < 256 && y < 256
    ensures Eq(x, y) == Truth(x == y)
  {
    XorOfBytes(x, y);
    XorIsZero(x, y);
    EqOfXor(Xor(x, y));
  }

  /** XOR with a byte changes the low byte only. */
  lemma {:induction false} XorLowBits(a: nat, b: nat, n: nat)
    requires Fits(b, n)
    ensures Xor(a, b) == Shl(Shr(a, n), n) + Xor(Low(a, n), b)
    decreases n
  {
    if n == 0 {
      XorZero(a);
    } else {
      XorLowBits(a / 2, b / 2, n - 1);
    }
  }

  lemma {:induction false} XorZero(a: nat)
    ensures Xor(a, 0) == a
  {
    if a != 0 {
      XorZero(a / 2);
    }
  }

  lemma {:induction false} ShlIsProduct(x: nat, n: nat)
    ensures Shl(x, n) == x * Pow2(n)
  {
    if n != 0 {
      ShlIsProduct(x, n - 1);
    }
  }

  /** XOR with a byte, in numbers. */
  lemma XorByte(u: nat, k: nat)
    requires k < 256
    ensures Xor(u, k) == u / 256 * 256 + Xor(u % 256, k)
  {
    Shr8(k);
    XorLowBits(u, k, 8);
    Shr8(u);
    LowIsMod(u, 8);
    ShlIsProduct(u / 256, 8);
    assert Pow2(8) == 256;
  }

  lemma XorNegative(u: u32, k: nat)
    requires 0x1_0000_0000 - 128 <= u && k < 128
    ensures 0xFFFF_FF00 < Xor(u, k) < 0x1_0000_0000
  {
    NegativeByte(u);
    XorByte(u, k);
    XorOfBytes(u % 256, k);
    XorIsZero(u % 256, k);
    assert Xor(u % 256, k) > 0;
  }

  lemma NegativeByte(u: u32)
    requires 0x1_0000_0000 - 128 <= u
    ensures u / 256 == 0xFF_FFFF && u % 256 >= 128
  {
  }

  /** The equality test takes every negative character for equal. */
  lemma EqNegative(c: Char, k: nat)
    requires c < 0 && k < 128
    ensures Eq(Wrap32(c), k) == Truth(true)
  {
    XorNegative(Wrap32(c), k);
    NegatedTop(Xor(Wrap32(c), k));
  }

  lemma NegatedTop(z: int)
    requires 0xFFFF_FF00 < z < 0x1_0000_0000
    ensures Xor(And(Shr(Wrap32(-z), 8), 0xFF), 0xFF) == Truth(true)
  {
    WrapNegative(-z);
    TopByte(0x1_0000_0000 - z, 0, 0x1_0000_0000 - z);
    Negate(false);
  }

  // ----- The conversions -----

  lemma Select(b: bool, v: nat)
    requires b ==> v < 256
    ensures And(Truth(b), v) == if b then v else 0
  {
    And255(v);
  }

  lemma Both(a: bool, b: bool)
    ensures And(Truth(a), Truth(b)) == Truth(a && b)
  {
    And255(0xFF);
  }

  /** One of five masked values survives. */
  lemma OneOfFive(b1: bool, v1: nat, b2: bool, v2: nat, b3: bool, v3: nat, b4: bool, v4: nat, b5: bool, v5: nat)
    requires (b1 ==> v1 < 256 && !b2 && !b3 && !b4 && !b5) && (b2 ==> v2 < 256 && !b3 && !b4 && !b5)
    requires (b3 ==> v3 < 256 && !b4 && !b5) && (b4 ==> v4 < 256 && !b5) && (b5 ==> v5 < 256)
    ensures Masked(Truth(b1), v1, Truth(b2), v2, Truth(b3), v3, Truth(b4), v4, Truth(b5), v5)
            == if b1 then v1 else if b2 then v2 else if b3 then v3 else if b4 then v4 else if b5 then v5 else 0
  {
    Select(b1, v1);
    Select(b2, v2);
    Select(b3, v3);
    Select(b4, v4);
    Select(b5, v5);
  }

  /** The alphabet of table 1 in RFC 4648. */
  function Letter(x: nat): Char
    requires x < 64
  {
    if x < 26 then 'A' as int + x
    else if x < 52 then 'a' as int + (x - 26)
    else if x < 62 then '0' as int + (x - 52)
    else if x == 62 then '+' as int
    else '/' as int
  }

  /** The value of a character of the alphabet, 0xFF for others. */
  function LetterValue(c: Char): nat {
    if 'A' as int <= c <= 'Z' as int then c - 'A' as int
    else if 'a' as int <= c <= 'z' as int then c - 'a' as int + 26
    else if '0' as int <= c <= '9' as int then c - '0' as int + 52
    else if c == '+' as int then 62
    else if c == '/' as int then 63
    else 0xFF
  }

  lemma CompareSmall(x: u32, k: nat)
    requires x < 64 && k < 128
    ensures Lt(x, k) == Truth(x < k) && Ge(x, k) == Truth(x >= k)
  {
    CompareChar(x, k);
    GtChar(x, k);
  }

  lemma ByteToCharIsLetter(x: u32)
    requires x < 64
    ensures ByteToChar(x) == Letter(x)
  {
    CompareSmall(x, 26);
    CompareSmall(x, 52);
    CompareSmall(x, 62);
    EqIs(x, 62);
    EqIs(x, 63);
    Both(x >= 26, x < 52);
    Both(x >= 52, x < 62);
    OneOfFive(x < 26, Wrap32(x + 65), 26 <= x < 52, Wrap32(x + 71),
              52 <= x < 62, Wrap32(x - 4), x == 62, 43, x == 63, 47);
  }

  lemma CharToRange(c: Char, lo: nat, hi: nat)
    requires lo < 128 && hi < 128
    ensures And(Ge(Wrap32(c), lo), Le(Wrap32(c), hi)) == Truth(lo <= c <= hi)
  {
    CompareChar(c, lo);
    CompareChar(c, hi);
    Both(c >= lo, c <= hi);
  }

  lemma EqChar(c: Char, k: nat)
    requires k < 128
    ensures Eq(Wrap32(c), k) == Truth(c < 0 || c == k)
  {
    if c < 0 {
      EqNegative(c, k);
    } else {
      EqIs(c, k);
    }
  }

  lemma RawMasks(c: Char)
    ensures RawByte(c) == Masked(Truth(65 <= c <= 90), Wrap32(c - 65), Truth(97 <= c <= 122), Wrap32(c - 71),
                                 Truth(48 <= c <= 57), Wrap32(c + 4),
                                 Truth(c < 0 || c == 43), 62, Truth(c < 0 || c == 47), 63)
  {
    CharToRange(c, 65, 90);
    CharToRange(c, 97, 122);
    CharToRange(c, 48, 57);
    EqChar(c, 43);
    EqChar(c, 47);
  }

  lemma RawByteOf(c: Char)
    ensures RawByte(c) == if c < 0 then 63 else if LetterValue(c) == 0xFF then 0 else LetterValue(c)
  {
    RawMasks(c);
    MaskedValue(RawByte(c), c);
  }

  lemma MaskedValue(raw: nat, c: Char)
    requires raw == Masked(Truth(65 <= c <= 90), Wrap32(c - 65), Truth(97 <= c <= 122), Wrap32(c - 71),
                           Truth(48 <= c <= 57), Wrap32(c + 4),
                           Truth(c < 0 || c == 43), 62, Truth(c < 0 || c == 47), 63)
    ensures raw == if c < 0 then 63 else if LetterValue(c) == 0xFF then 0 else LetterValue(c)
  {
    if c < 0 {
      NegativeRaw(Wrap32(c - 65), Wrap32(c - 71), Wrap32(c + 4));
    } else {
      OneOfFive(65 <= c <= 90, Wrap32(c - 65), 97 <= c <= 122, Wrap32(c - 71), 48 <= c <= 57, Wrap32(c + 4),
                c == 43, 62, c == 47, 63);
    }
  }

  lemma NegativeRaw(v1: nat, v2: nat, v3: nat)
    ensures Masked(Truth(false), v1, Truth(false), v2, Truth(false), v3, Truth(true), 62, Truth(true), 63) == 63
  {
    Select(false, v1);
    Select(false, v2);
    Select(false, v3);
    Select(true, 62);
    Select(true, 63);
    SixtyThree();
  }

  lemma SixtyThree()
    ensures Or(62, 63) == 63
  {
    assert Or(31, 31) == 31;
  }

  /**
   On the characters of the alphabet b64_char_to_byte gives their values, on the others 0xFF, as its comment says,
   but only where no character is negative: a negative `char` is taken for '/'.
   */
  lemma CharToByteIsValue(c: Char)
    ensures CharToByte(c) == if c < 0 then 63 else LetterValue(c)
  {
    RawByteOf(c);
    CompletedValue(RawByte(c), c);
  }

  lemma CompletedValue(x: nat, c: Char)
    requires x == if c < 0 then 63 else if LetterValue(c) == 0xFF then 0 else LetterValue(c)
    ensures Completed(x, c) == if c < 0 then 63 else LetterValue(c)
  {
    LastStep(x, c);
  }

  lemma LastStep(x: u32, c: Char)
    requires x < 256
    ensures Completed(x, c) == if x == 0 && c >= 0 && c != 65 then 0xFF else x
  {
    EqChar(c, 65);
    EqIs(x, 0);
    Negate(c < 0 || c == 65);
    Both(x == 0, !(c < 0 || c == 65));
  }

  // ----- The alphabet of the library -----

  function EncodeSextet(v: nat): Char {
    if v < 64 then
      ByteToCharIsLetter(v);
      ByteToChar(v)
    else 0 // the encoder masks its argument with 0x3F
  }

  function C64(): Alphabet {
    Alphabet(EncodeSextet, CharToByte)
  }

  lemma LetterOfValue(v: nat)
    requires v < 64
    ensures Letter(v) >= 0 && LetterValue(Letter(v)) == v
  {
  }

  lemma ValueOfLetter(c: Char)
    requires LetterValue(c) != 0xFF
    ensures LetterValue(c) < 64 && Letter(LetterValue(c)) == c && c >= 0
  {
  }

  lemma EncodedSextet(v: nat)
    requires v < 64
    ensures EncodeSextet(v) == Letter(v) && CharToByte(EncodeSextet(v)) == v
  {
    ByteToCharIsLetter(v);
    LetterOfValue(v);
    CharToByteIsValue(Letter(v));
  }

  /** The alphabet of table 1 in RFC 4648, with the reading of negative characters that the macros give. */
  ghost predicate ReadsByTable(a: Alphabet) {
    && (forall v :: v < 64 ==> a.toChar(v) == Letter(v))
    && forall c :: a.toByte(c) == if c < 0 then 63 else LetterValue(c)
  }

  lemma C64ReadsByTable()
    ensures ReadsByTable(C64())
  {
    forall v: nat | v < 64
      ensures C64().toChar(v) == Letter(v)
    {
      EncodedSextet(v);
    }
    forall c: Char
      ensures C64().toByte(c) == if c < 0 then 63 else LetterValue(c)
    {
      CharToByteIsValue(c);
    }
  }

  lemma CanonicalByTable(a: Alphabet, c: Char)
    requires ReadsByTable(a) && Taken(a, c)
    ensures Canonical(a, c) <==> c >= 0
  {
    if c < 0 {
      assert a.toChar(63) == Letter(63);
    } else {
      ValueOfLetter(c);
    }
  }

  lemma ValidByTable(a: Alphabet)
    requires ReadsByTable(a)
    ensures ValidAlphabet(a)
  {
    forall v: nat | v < 64
      ensures a.toByte(a.toChar(v)) == v
    {
      LetterOfValue(v);
    }
  }

  /**
   Section 3.5 of RFC 4648: what the decoder accepts is the encoding of what it decodes, exactly if no character is
   negative. C64ReadsByTable says that this is about the library's alphabet.
   */
  lemma AcceptedIsEncodingIff(a: Alphabet, run: seq<Char>, bytes: seq<u8>)
    requires ReadsByTable(a) && Means(a, run, bytes) && forall i :: 0 <= i < |run| ==> Taken(a, run[i])
    ensures run == Encode(a, bytes) <==> forall i :: 0 <= i < |run| ==> run[i] >= 0
  {
    ValidByTable(a);
    AcceptedIsEncoding(a, run, bytes);
    forall i | 0 <= i < |run|
      ensures Canonical(a, run[i]) <==> run[i] >= 0
    {
      CanonicalByTable(a, run[i]);
    }
  }

  lemma TwoChars(a: Alphabet, c: Char, d: Char)
    requires ValidAlphabet(a) && a.toByte(c) == 63 && a.toByte(d) == 48 && !Canonical(a, c)
    ensures Means(a, [c, d], [0xFF]) && Run(a, [c, d], 0) == [c, d]
    ensures [c, d] != Encode(a, [0xFF])
  {
    var f, run := Sextet(a), [c, d];
    FlattenOne(f, c);
    FlattenAppend(f, [c], d);
    assert run == [c] + [d];
    FlattenOne(Octet(), 0xFF);
    TwelveBits();
    RunIs(a, run, 0, 2);
    assert run[0] == c;
    AcceptedIsEncoding(a, run, [0xFF]);
  }

  lemma TwelveBits()
    ensures Bits(0xFF, 8) + Bits(0, 4) == Bits(63, 6) + Bits(48, 6)
  {
    BitsOf255();
    BitsOf63And48();
    TwelveTrueAndFalse(true, false);
  }

  lemma BitsOf255()
    ensures Bits(0xFF, 8) == [true, true, true, true, true, true, true, true]
    ensures Bits(0, 4) == [false, false, false, false]
  {
  }

  lemma BitsOf63And48()
    ensures Bits(63, 6) == [true, true, true, true, true, true]
    ensures Bits(48, 6) == [true, true, false, false, false, false]
  {
  }

  lemma TwelveTrueAndFalse(t: bool, f: bool)
    ensures [t, t, t, t, t, t, t, t] + [f, f, f, f] == [t, t, t, t, t, t] + [t, t, f, f, f, f]
  {
  }

  /** Any negative character followed by 'w' decodes to the byte 0xFF, whose encoding is "/w". */
  lemma NegativeCharacterIsAccepted(a: Alphabet, c: Char, d: Char)
    requires ReadsByTable(a) && c < 0 && d == 'w' as int
    ensures Means(a, [c, d], [0xFF]) && Run(a, [c, d], 0) == [c, d]
    ensures [c, d] != Encode(a, [0xFF])
  {
    ValidByTable(a);
    CanonicalByTable(a, c);
    TwoChars(a, c, d);
  }
}
