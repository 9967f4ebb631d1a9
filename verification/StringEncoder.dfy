/**
 The printer of encoded strings, external/argon2/encoding.c:388-455, and the length that
 external/argon2/argon2.c:604-618 predicts.
 */
module StringEncoder {
  import opened Words
  import opened Layout
  import opened Buffers
  import opened Contexts
  import opened Base64
  import opened Decimals
  import opened EncodedStrings

  function PiecesFor(a: Alphabet, ctx: Context): Pieces {
    Pieces(Explicit(ctx.version), ctx.mCost, ctx.tCost, ctx.lanes,
           Encode(a, ctx.salt.Content()), Encode(a, ctx.out.Content()))
  }

  /** The string that stands for a context. */
  function EncodedString(a: Alphabet, ctx: Context, kind: Kind): seq<Char> {
    Text(kind, PiecesFor(a, ctx))
  }

  // ----- Length -----

  function NumberLength(n: nat): nat {
    |Decimal(n)|
  }

  lemma EncodedStringLength(a: Alphabet, ctx: Context, kind: Kind)
    requires ValidAlphabet(a)
    ensures |EncodedString(a, ctx, kind)|
            == 15 + |TypeText(kind)| + NumberLength(ctx.version) + NumberLength(ctx.mCost) + NumberLength(ctx.tCost)
               + NumberLength(ctx.lanes) + EncodedLength(|ctx.salt.Content()|) + EncodedLength(|ctx.out.Content()|)
  {
    EncodeEncodes(a, ctx.salt.Content());
    EncodeEncodes(a, ctx.out.Content());
  }

  /** argon2_encodedlen. */
  method Argon2EncodedLen(tCost: u32, mCost: u32, parallelism: u32, saltlen: u32, hashlen: u32, kind: Kind)
    returns (len: nat)
    ensures len == |Str("$$v=$m=,t=,p=$$")| + |TypeText(kind)| + NumberLength(tCost) + NumberLength(mCost)
                   + NumberLength(parallelism) + EncodedLength(saltlen) + EncodedLength(hashlen)
                   + NumberLength(VERSION_13) + 1
  {
    var t := NumLen(tCost);
    var m := NumLen(mCost);
    var p := NumLen(parallelism);
    var v := NumLen(VERSION_13);
    len := |Str("$$v=$m=,t=,p=$$")| + |TypeText(kind)| + t + m + p
           + EncodedLength(saltlen) + EncodedLength(hashlen) + v + 1;
  }

  // ----- Printing -----

  lemma Reassociate(done: seq<Char>, text: seq<Char>, rest: seq<Char>)
    ensures done + (text + rest) == (done + text) + rest
  {
  }

  /** SS: a text and a terminating zero, if there is room. */
  method PutText(buffer: array<Char>, pos: nat, text: seq<Char>, ghost rest: seq<Char>, ghost all: seq<Char>)
    returns (ok: bool, pos': nat)
    requires pos <= buffer.Length && buffer[..pos] + (text + rest) == all
    modifies buffer
    ensures ok ==> pos' < buffer.Length && buffer[..pos'] + rest == all && buffer[pos'] == 0
    ensures !ok ==> |all| >= buffer.Length
  {
    if |text| >= buffer.Length - pos {
      return false, pos;
    }
    Reassociate(buffer[..pos], text, rest);
    pos' := pos + |text|;
    ghost var done := buffer[..pos];
    forall i | 0 <= i < |text| {
      buffer[pos + i] := text[i];
    }
    assert buffer[..pos'] == done + text;
    buffer[pos'] := 0;
    assert buffer[..pos'] == done + text;
    return true, pos';
  }

  /** SS and SX: a text and a number. */
  method PutNumber(buffer: array<Char>, pos: nat, name: seq<Char>, n: u32, ghost rest: seq<Char>, ghost all: seq<Char>)
    returns (ok: bool, pos': nat)
    requires pos <= buffer.Length && buffer[..pos] + (name + (Decimal(n) + rest)) == all
    modifies buffer
    ensures ok ==> pos' < buffer.Length && buffer[..pos'] + rest == all && buffer[pos'] == 0
    ensures !ok ==> |all| >= buffer.Length
  {
    ok, pos' := PutText(buffer, pos, name, Decimal(n) + rest, all);
    if ok {
      ok, pos' := PutText(buffer, pos', Decimal(n), rest, all);
    }
  }

  /** SB: bytes in base64. */
  method PutBytes(a: Alphabet, buffer: array<Char>, pos: nat, bytes: seq<u8>, ghost rest: seq<Char>,
                  ghost all: seq<Char>)
    returns (ok: bool, pos': nat)
    requires ValidAlphabet(a) && pos <= buffer.Length && buffer[..pos] + (Encode(a, bytes) + rest) == all
    modifies buffer
    ensures ok ==> pos' < buffer.Length && buffer[..pos'] + rest == all && buffer[pos'] == 0
    ensures !ok ==> |all| >= buffer.Length
  {
    ghost var done := buffer[..pos];
    EncodeEncodes(a, bytes);
    Reassociate(done, Encode(a, bytes), rest);
    var olen;
    ok, olen := ToBase64(a, buffer, pos, bytes);
    pos' := pos + olen;
    if ok {
      EncodingUnique(a, buffer[pos..pos'], Encode(a, bytes), bytes);
      assert buffer[..pos'] == done + buffer[pos..pos'];
    }
  }

  method PutField(a: Alphabet, buffer: array<Char>, pos: nat, bytes: seq<u8>, ghost rest: seq<Char>,
                  ghost all: seq<Char>)
    returns (ok: bool, pos': nat)
    requires ValidAlphabet(a) && pos <= buffer.Length && buffer[..pos] + (Str("$") + (Encode(a, bytes) + rest)) == all
    modifies buffer
    ensures ok ==> pos' < buffer.Length && buffer[..pos'] + rest == all && buffer[pos'] == 0
    ensures !ok ==> |all| >= buffer.Length
  {
    ok, pos' := PutText(buffer, pos, Str("$"), Encode(a, bytes) + rest, all);
    if ok {
      ok, pos' := PutBytes(a, buffer, pos', bytes, rest, all);
    }
  }

  /** "$m=", ",t=" and ",p=" with their numbers. */
  method PutCosts(buffer: array<Char>, pos: nat, ctx: Context, ghost rest: seq<Char>, ghost all: seq<Char>)
    returns (ok: bool, pos': nat)
    requires pos <= buffer.Length && buffer[..pos] + CostsText(ctx.mCost, ctx.tCost, ctx.lanes, rest) == all
    modifies buffer
    ensures ok ==> pos' < buffer.Length && buffer[..pos'] + rest == all && buffer[pos'] == 0
    ensures !ok ==> |all| >= buffer.Length
  {
    ghost var afterT := Str(",p=") + (Decimal(ctx.lanes) + rest);
    ghost var afterM := Str(",t=") + (Decimal(ctx.tCost) + afterT);
    ok, pos' := PutNumber(buffer, pos, Str("$m="), ctx.mCost, afterM, all);
    if ok {
      ok, pos' := PutNumber(buffer, pos', Str(",t="), ctx.tCost, afterT, all);
    }
    if ok {
      ok, pos' := PutNumber(buffer, pos', Str(",p="), ctx.lanes, rest, all);
    }
  }

  /** "$", the type, and "$v=" with the version. */
  method PutHead(buffer: array<Char>, kind: Kind, version: u32, ghost rest: seq<Char>, ghost all: seq<Char>)
    returns (ok: bool, pos': nat)
    requires HeadText(kind, Explicit(version), rest) == all
    modifies buffer
    ensures ok ==> pos' < buffer.Length && buffer[..pos'] + rest == all && buffer[pos'] == 0
    ensures !ok ==> |all| >= buffer.Length
  {
    ghost var afterType := VersionText(Explicit(version), rest);
    assert buffer[..0] + all == all;
    ok, pos' := PutText(buffer, 0, Str("$"), TypeText(kind) + afterType, all);
    if ok {
      ok, pos' := PutText(buffer, pos', TypeText(kind), afterType, all);
    }
    if ok {
      ok, pos' := PutNumber(buffer, pos', Str("$v="), version, rest, all);
    }
  }

  /**
   encode_string: a valid context is written, with a terminating zero, exactly if the buffer has room for its string and
   the zero.
   */
  method EncodeString(a: Alphabet, buffer: array<Char>, ctx: Context, kind: Kind) returns (result: Outcome)
    requires ValidAlphabet(a) && ctx.Valid()
    modifies buffer
    ensures ValidateInputs(ctx) != Ok ==> result == ValidateInputs(ctx)
    ensures ValidateInputs(ctx) == Ok ==>
              result == if |EncodedString(a, ctx, kind)| < buffer.Length then Ok else EncodingFail
    ensures result == Ok ==> var n := |EncodedString(a, ctx, kind)|;
                             buffer[..n] == EncodedString(a, ctx, kind) && buffer[n] == 0
  {
    result := ValidateInputs(ctx);
    if result != Ok {
      return;
    }
    ghost var all := EncodedString(a, ctx, kind);
    ValidateInputsIsExact(ctx);
    var ok := PutAll(a, buffer, ctx, kind, all);
    if !ok {
      result := EncodingFail;
    }
  }

  method PutAll(a: Alphabet, buffer: array<Char>, ctx: Context, kind: Kind, ghost all: seq<Char>) returns (ok: bool)
    requires ValidAlphabet(a) && ctx.salt.Bytes? && ctx.out.Bytes? && all == EncodedString(a, ctx, kind)
    modifies buffer
    ensures ok <==> |all| < buffer.Length
    ensures ok ==> buffer[..|all|] == all && buffer[|all|] == 0
  {
    ghost var afterSalt := Str("$") + (Encode(a, ctx.out.data) + []);
    ghost var bins := Str("$") + (Encode(a, ctx.salt.data) + afterSalt);
    var pos;
    ok, pos := PutHead(buffer, kind, ctx.version, CostsText(ctx.mCost, ctx.tCost, ctx.lanes, bins), all);
    if ok {
      ok, pos := PutCosts(buffer, pos, ctx, bins, all);
    }
    if ok {
      ok, pos := PutField(a, buffer, pos, ctx.salt.data, afterSalt, all);
    }
    if ok {
      ok, pos := PutField(a, buffer, pos, ctx.out.data, [], all);
    }
    if ok {
      assert buffer[..pos] + [] == buffer[..pos];
    }
  }
}
