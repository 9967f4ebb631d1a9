/**
 Encoded strings with the alphabet that the macros of the library compute (external/argon2/encoding.c:74-455). What the
 other modules prove for every alphabet, or for every alphabet that reads by the table, is stated here of that one.
 */
module LibraryStrings {
  import opened Words
  import opened Layout
  import opened Buffers
  import opened Contexts
  import opened Base64
  import opened Base64Chars
  import opened EncodedStrings
  import opened StringEncoder
  import opened StringDecoder
  import opened EncodedRoundTrip

  /** The alphabet of the library meets what the theorems ask for. */
  lemma C64IsSuitable()
    ensures ReadsByTable(C64()) && ValidAlphabet(C64()) && Separated(C64()) && OnlyNegativesStray(C64())
  {
    C64ReadsByTable();
    SuitableByTable(C64());
  }

  // ----- Base64 -----

  /** Section 3.5 of RFC 4648 fails of the library: the characters c, 'w' decode to 0xFF, whose encoding is "/w". */
  lemma NegativeCharacterIsAccepted(c: Char, d: Char)
    requires c < 0 && d == 'w' as int
    ensures Means(C64(), [c, d], [0xFF]) && Run(C64(), [c, d], 0) == [c, d] && [c, d] != Encode(C64(), [0xFF])
  {
    C64ReadsByTable();
    Base64Chars.NegativeCharacterIsAccepted(C64(), c, d);
  }

  /** It holds exactly of the texts without a negative character. */
  lemma AcceptedIsEncodingIff(run: seq<Char>, bytes: seq<u8>)
    requires Means(C64(), run, bytes) && AllTaken(C64(), run)
    ensures run == Encode(C64(), bytes) <==> NonNegative(run)
  {
    C64ReadsByTable();
    Base64Chars.AcceptedIsEncodingIff(C64(), run, bytes);
  }

  // ----- Whole strings -----

  /** An accepted string re-encodes to itself exactly if it states its version and no field has a negative character. */
  lemma AcceptedReencodesIff(kind: Kind, str: seq<Char>, into: Context, pc: Pieces, salt: seq<u8>, out: seq<u8>)
    requires into.Valid() && Accepts(C64(), kind, str, into, pc, salt, out)
    ensures str == EncodedString(C64(), Filled(into, pc, salt, out), kind)
            <==> pc.version.Explicit? && NonNegative(pc.salt) && NonNegative(pc.out)
  {
    C64IsSuitable();
    EncodedRoundTrip.AcceptedReencodesIff(C64(), kind, str, into, pc, salt, out);
  }

  /** No string is accepted under two types. */
  lemma AcceptedUnderOneType(str: seq<Char>, kind: Kind, into: Context, pc: Pieces, salt: seq<u8>, out: seq<u8>,
                             kind': Kind, into': Context, pc': Pieces, salt': seq<u8>, out': seq<u8>)
    requires into.Valid() && Accepts(C64(), kind, str, into, pc, salt, out)
    requires into'.Valid() && Accepts(C64(), kind', str, into', pc', salt', out')
    ensures kind == kind' && pc == pc' && salt == salt' && out == out'
  {
    C64IsSuitable();
    EncodedRoundTrip.AcceptedUnderOneType(C64(), str, kind, into, pc, salt, out, kind', into', pc', salt', out');
  }

  /** PrintAndRead of EncodedRoundTrip, with the alphabet of the library. */
  method PrintAndRead(ctx: Context, kind: Kind, into: Context) returns (result: Outcome, back: Context)
    requires ctx.Valid() && ValidateInputs(ctx) == Ok && (ctx.version == 0x10 || ctx.version == 0x13)
    requires into.Valid() && !into.pwd.NullWithLength()
    requires ctx.salt.Length() <= into.salt.Length() && ctx.out.Length() <= into.out.Length()
    ensures result == Ok && back == ReadBack(ctx, into)
  {
    C64IsSuitable();
    result, back := EncodedRoundTrip.PrintAndRead(C64(), ctx, kind, into);
  }
}
