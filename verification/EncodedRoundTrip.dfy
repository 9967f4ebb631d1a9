/** Printing and parsing encoded strings are inverse to each other (external/argon2/encoding.c:273-455). */
module EncodedRoundTrip {
  import opened Words
  import opened Layout
  import opened Buffers
  import opened Contexts
  import opened Base64
  import opened Base64Chars
  import opened Decimals
  import opened EncodedStrings
  import opened StringEncoder
  import opened StringDecoder

  lemma CanonicalIsTaken(a: Alphabet, s: seq<Char>)
    requires AllCanonical(a, s)
    ensures AllTaken(a, s)
  {
  }

  lemma EncodedHasPieces(a: Alphabet, ctx: Context, kind: Kind)
    requires ValidAlphabet(a)
    ensures HasPieces(a, kind, EncodedString(a, ctx, kind), PiecesFor(a, ctx))
  {
    EncodeEncodes(a, ctx.salt.Content());
    EncodeEncodes(a, ctx.out.Content());
    CanonicalIsTaken(a, Encode(a, ctx.salt.Content()));
    CanonicalIsTaken(a, Encode(a, ctx.out.Content()));
  }

  /** The context that comes back from the string of `ctx`, read into the buffers of `into`. */
  function ReadBack(ctx: Context, into: Context): Context {
    Context(Bytes(ctx.out.Content()), into.pwd, Bytes(ctx.salt.Content()), Null(0), Null(0),
            ctx.tCost, ctx.mCost, ctx.lanes, ctx.lanes, ctx.version, false, false)
  }

  /**
   The string of a valid context is accepted into any buffers that are large enough, and gives back its version, costs,
   lanes, salt and output.
   */
  lemma EncodedIsAccepted(a: Alphabet, ctx: Context, kind: Kind, into: Context)
    requires Separated(a) && ctx.Valid() && into.Valid() && ValidateInputs(ctx) == Ok
    requires ctx.salt.Length() <= into.salt.Length() && ctx.out.Length() <= into.out.Length()
             && !into.pwd.NullWithLength()
    ensures ctx.salt.Bytes? && ctx.out.Bytes?
    ensures Accepts(a, kind, EncodedString(a, ctx, kind), into, PiecesFor(a, ctx), ctx.salt.data, ctx.out.data)
    ensures Filled(into, PiecesFor(a, ctx), ctx.salt.data, ctx.out.data) == ReadBack(ctx, into)
  {
    ValidateInputsIsExact(ctx);
    EncodedHasPieces(a, ctx, kind);
    EncodeEncodes(a, ctx.salt.data);
    EncodeEncodes(a, ctx.out.data);
    ReadBackIsValid(ctx, into);
  }

  lemma ReadBackIsValid(ctx: Context, into: Context)
    requires ctx.Valid() && into.Valid() && ValidateInputs(ctx) == Ok && !into.pwd.NullWithLength()
    ensures ReadBack(ctx, into).Valid() && ValidateInputs(ReadBack(ctx, into)) == Ok
  {
    ValidateInputsIsExact(ctx);
    ValidateInputsIsExact(ReadBack(ctx, into));
  }

  /**
   Conversely, an accepted string is the string of the context it gives exactly if it names its version and its binary
   fields are in canonical characters.
   */
  lemma AcceptedIsEncodedIff(a: Alphabet, kind: Kind, str: seq<Char>, into: Context, pc: Pieces, salt: seq<u8>,
                             out: seq<u8>)
    requires Separated(a) && into.Valid() && Accepts(a, kind, str, into, pc, salt, out)
    ensures str == EncodedString(a, Filled(into, pc, salt, out), kind)
            <==> pc.version.Explicit? && AllCanonical(a, pc.salt) && AllCanonical(a, pc.out)
  {
    var ctx := Filled(into, pc, salt, out);
    AcceptedIsEncoding(a, pc.salt, salt);
    AcceptedIsEncoding(a, pc.out, out);
    if str == EncodedString(a, ctx, kind) {
      EncodedHasPieces(a, ctx, kind);
      Unambiguous(a, str, kind, pc, kind, PiecesFor(a, ctx));
    }
  }

  /** No string is accepted under two types, whatever buffers it is read into. */
  lemma AcceptedUnderOneType(a: Alphabet, str: seq<Char>, kind: Kind, into: Context, pc: Pieces, salt: seq<u8>,
                             out: seq<u8>,
                             kind': Kind, into': Context, pc': Pieces, salt': seq<u8>, out': seq<u8>)
    requires Separated(a) && into.Valid() && into'.Valid()
    requires Accepts(a, kind, str, into, pc, salt, out) && Accepts(a, kind', str, into', pc', salt', out')
    ensures kind == kind' && pc == pc' && salt == salt' && out == out'
  {
    Unambiguous(a, str, kind, pc, kind', pc');
    MeaningUnique(a, pc.salt, salt, salt');
    MeaningUnique(a, pc.out, out, out');
  }

  // ----- The alphabet of the library -----

  /** Of the characters the alphabet takes, exactly the negative ones are not canonical. */
  ghost predicate OnlyNegativesStray(a: Alphabet) {
    forall c :: Taken(a, c) ==> (Canonical(a, c) <==> c >= 0)
  }

  ghost predicate NonNegative(s: seq<Char>) {
    forall i :: 0 <= i < |s| ==> s[i] >= 0
  }

  /**
   Section 3.5 of RFC 4648 for whole strings: they re-encode to themselves unless a field has a negative character.
   */
  lemma AcceptedReencodesIff(a: Alphabet, kind: Kind, str: seq<Char>, into: Context, pc: Pieces, salt: seq<u8>,
                             out: seq<u8>)
    requires Separated(a) && OnlyNegativesStray(a) && into.Valid() && Accepts(a, kind, str, into, pc, salt, out)
    ensures str == EncodedString(a, Filled(into, pc, salt, out), kind)
            <==> pc.version.Explicit? && NonNegative(pc.salt) && NonNegative(pc.out)
  {
    AcceptedIsEncodedIff(a, kind, str, into, pc, salt, out);
    CanonicalChars(a, pc.salt);
    CanonicalChars(a, pc.out);
  }

  lemma CanonicalChars(a: Alphabet, s: seq<Char>)
    requires AllTaken(a, s) && OnlyNegativesStray(a)
    ensures AllCanonical(a, s) <==> NonNegative(s)
  {
    forall i | 0 <= i < |s|
      ensures Canonical(a, s[i]) <==> s[i] >= 0
    {
      assert Taken(a, s[i]);
    }
  }

  /** The alphabet of the library meets what the theorems ask for. */
  lemma SuitableByTable(a: Alphabet)
    requires ReadsByTable(a)
    ensures Separated(a) && OnlyNegativesStray(a)
  {
    ValidByTable(a);
    forall c: Char
      ensures Taken(a, c) ==> (Canonical(a, c) <==> c >= 0)
    {
      if Taken(a, c) {
        CanonicalByTable(a, c);
      }
    }
  }

  // ----- Length -----

  /**
   With the versions 0x10 and 0x13 a valid context is printed exactly if the buffer has the length that
   argon2_encodedlen predicts, and string and terminator fill exactly that length.
   */
  lemma EncodedLenIsExact(a: Alphabet, ctx: Context, kind: Kind, encodedLen: nat)
    requires ValidAlphabet(a) && ctx.Valid() && ValidateInputs(ctx) == Ok
    requires encodedLen
             == |Str("$$v=$m=,t=,p=$$")| + |TypeText(kind)| + NumberLength(ctx.tCost) + NumberLength(ctx.mCost)
                + NumberLength(ctx.lanes) + EncodedLength(ctx.salt.Length()) + EncodedLength(ctx.out.Length())
                + NumberLength(VERSION_13) + 1
    ensures |EncodedString(a, ctx, kind)| + 1 == encodedLen + NumberLength(ctx.version) - 2
    ensures ctx.version == 0x10 || ctx.version == 0x13 ==> |EncodedString(a, ctx, kind)| + 1 == encodedLen
  {
    ValidateInputsIsExact(ctx);
    EncodedStringLength(a, ctx, kind);
    forall n: nat | 10 <= n < 100
      ensures NumberLength(n) == 2
    {
      TwoDigits(n);
    }
  }

  lemma TwoDigits(n: nat)
    requires 10 <= n < 100
    ensures NumberLength(n) == 2
  {
    assert |Decimal(n / 10)| == 1;
  }

  /**
   argon2_encodedlen and encode_string together: for versions 0x10 and 0x13 a valid context is printed exactly if the
   buffer has at least the predicted length, and then string and terminator have exactly that length.
   */
  method Print(a: Alphabet, buffer: array<Char>, ctx: Context, kind: Kind) returns (len: nat, result: Outcome)
    requires ValidAlphabet(a) && ctx.Valid() && ValidateInputs(ctx) == Ok
    requires ctx.version == 0x10 || ctx.version == 0x13
    modifies buffer
    ensures len == |EncodedString(a, ctx, kind)| + 1
    ensures result == if len <= buffer.Length then Ok else EncodingFail
    ensures result == Ok ==> buffer[..len] == EncodedString(a, ctx, kind) + [0]
  {
    len := PredictedLength(a, ctx, kind);
    result := EncodeString(a, buffer, ctx, kind);
    if result == Ok {
      assert buffer[..len] == buffer[..len - 1] + [buffer[len - 1]];
    }
  }

  method PredictedLength(ghost a: Alphabet, ctx: Context, kind: Kind) returns (len: nat)
    requires ValidAlphabet(a) && ctx.Valid() && ValidateInputs(ctx) == Ok
    requires ctx.version == 0x10 || ctx.version == 0x13
    ensures len == |EncodedString(a, ctx, kind)| + 1
  {
    ValidateInputsIsExact(ctx);
    len := Argon2EncodedLen(ctx.tCost, ctx.mCost, ctx.lanes, ctx.salt.Length(), ctx.out.Length(), kind);
    EncodedLenIsExact(a, ctx, kind, len);
  }

  /** decode_string on the string of a context. */
  method Read(a: Alphabet, ghost ctx: Context, kind: Kind, str: seq<Char>, into: Context)
    returns (result: Outcome, back: Context)
    requires Separated(a) && ctx.Valid() && ValidateInputs(ctx) == Ok && str == EncodedString(a, ctx, kind)
    requires into.Valid() && !into.pwd.NullWithLength()
    requires ctx.salt.Length() <= into.salt.Length() && ctx.out.Length() <= into.out.Length()
    ensures result == Ok && back == ReadBack(ctx, into)
  {
    EncodedIsAccepted(a, ctx, kind, into);
    ghost var pc, salt, out;
    result, back, pc, salt, out := DecodeString(a, kind, str, into);
    AcceptedUnderOneType(a, str, kind, into, pc, salt, out, kind, into, PiecesFor(a, ctx), ctx.salt.data, ctx.out.data);
  }

  /**
   What was printed into a buffer of the predicted length reads back, into buffers that are large enough, as the same
   version, costs, lanes, salt and output.
   */
  method PrintAndRead(a: Alphabet, ctx: Context, kind: Kind, into: Context) returns (result: Outcome, back: Context)
    requires Separated(a) && ctx.Valid() && ValidateInputs(ctx) == Ok
    requires ctx.version == 0x10 || ctx.version == 0x13
    requires into.Valid() && !into.pwd.NullWithLength()
    requires ctx.salt.Length() <= into.salt.Length() && ctx.out.Length() <= into.out.Length()
    ensures result == Ok && back == ReadBack(ctx, into)
  {
    var len := PredictedLength(a, ctx, kind);
    var buffer := new Char[len];
    len, result := Print(a, buffer, ctx, kind);
    assert buffer[..len - 1] == buffer[..len][..len - 1];
    result, back := Read(a, ctx, kind, buffer[..len - 1], into);
  }
}
