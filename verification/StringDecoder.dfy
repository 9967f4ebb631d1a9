/** The parser of encoded strings, external/argon2/encoding.c:273-386, proved to accept exactly the grammar. */
module StringDecoder {
  import opened Words
  import opened Layout
  import opened Buffers
  import opened Contexts
  import opened Base64
  import opened Decimals
  import opened EncodedStrings

  /** CC: a fixed text. */
  method Expect(str: seq<Char>, pos: nat, text: seq<Char>) returns (ok: bool, pos': nat)
    requires pos <= |str|
    ensures ok <==> text <= str[pos..]
    ensures ok ==> pos' == pos + |text| <= |str| && str[pos..] == text + str[pos'..]
  {
    ok := pos + |text| <= |str| && str[pos..pos + |text|] == text;
    pos' := pos + |text|;
    if ok {
      assert str[pos..] == text + str[pos'..];
    }
  }

  /** A text and, behind it, a number of 32 bits. */
  ghost predicate NumberAt(s: seq<Char>, text: seq<Char>, n: nat, rest: seq<Char>) {
    n < 0x1_0000_0000 && !StartsWithDigit(rest) && s == text + (Decimal(n) + rest)
  }

  lemma NotDecimal(s: seq<Char>, text: seq<Char>, tail: seq<Char>)
    requires s == text + tail
    requires forall n: nat, rest | n <= 0xFFFF_FFFF && !StartsWithDigit(rest) :: tail != Decimal(n) + rest
    ensures forall n, rest :: !NumberAt(s, text, n, rest)
  {
    forall n, rest
      ensures !NumberAt(s, text, n, rest)
    {
      if NumberAt(s, text, n, rest) {
        PeelText(text, tail, Decimal(n) + rest);
      }
    }
  }

  /** CC and DECIMAL_U32. */
  method ReadNumber(str: seq<Char>, pos: nat, text: seq<Char>) returns (ok: bool, n: u32, pos': nat)
    requires pos <= |str|
    ensures ok ==> pos' <= |str| && NumberAt(str[pos..], text, n, str[pos'..])
    ensures !ok ==> forall m, rest :: !NumberAt(str[pos..], text, m, rest)
  {
    n := 0;
    ok, pos' := Expect(str, pos, text);
    if !ok {
      return;
    }
    var r := DecodeDecimal(str, pos');
    if r.Failed? || r.value > 0xFFFF_FFFF {
      if r.Parsed? {
        OnlyNumber(str[pos'..], r.value, str[r.next..]);
      }
      NotDecimal(str[pos..], text, str[pos'..]);
      return false, 0, pos;
    }
    return true, r.value, r.next;
  }

  lemma OnlyNumber(s: seq<Char>, n: nat, rest: seq<Char>)
    requires s == Decimal(n) + rest && !StartsWithDigit(rest)
    ensures forall m: nat, rest' | !StartsWithDigit(rest') :: s == Decimal(m) + rest' ==> m == n && rest' == rest
  {
    forall m: nat, rest' | !StartsWithDigit(rest') && s == Decimal(m) + rest'
      ensures m == n && rest' == rest
    {
      PeelDecimal(m, rest', n, rest);
    }
  }

  // ----- The three costs -----

  datatype Costs = Costs(m: u32, t: u32, p: u32)

  ghost predicate CostsAt(s: seq<Char>, c: Costs, rest: seq<Char>) {
    !StartsWithDigit(rest) && s == CostsText(c.m, c.t, c.p, rest)
  }

  lemma CostsAreNumbers(s: seq<Char>, c: Costs, rest: seq<Char>)
    requires CostsAt(s, c, rest)
    ensures var afterT := Str(",p=") + (Decimal(c.p) + rest);
            var afterM := Str(",t=") + (Decimal(c.t) + afterT);
            NumberAt(s, Str("$m="), c.m, afterM) && NumberAt(afterM, Str(",t="), c.t, afterT)
            && NumberAt(afterT, Str(",p="), c.p, rest)
  {
  }

  lemma SameNumber(s: seq<Char>, text: seq<Char>, n: nat, rest: seq<Char>, n': nat, rest': seq<Char>)
    requires NumberAt(s, text, n, rest) && NumberAt(s, text, n', rest')
    ensures n == n' && rest == rest'
  {
    PeelNumber(text, n, rest, n', rest');
  }

  /** If the first number is there but the rest is not, the costs are not. */
  lemma NoCostsAfterM(s: seq<Char>, m: nat, rest: seq<Char>)
    requires NumberAt(s, Str("$m="), m, rest)
    requires forall n, r :: !NumberAt(rest, Str(",t="), n, r)
    ensures forall c, r :: !CostsAt(s, c, r)
  {
    forall c, r
      ensures !CostsAt(s, c, r)
    {
      if CostsAt(s, c, r) {
        CostsAreNumbers(s, c, r);
        SameNumber(s, Str("$m="), m, rest, c.m, Str(",t=") + (Decimal(c.t) + (Str(",p=") + (Decimal(c.p) + r))));
      }
    }
  }

  lemma NoCostsAfterT(s: seq<Char>, m: nat, afterM: seq<Char>, t: nat, rest: seq<Char>)
    requires NumberAt(s, Str("$m="), m, afterM) && NumberAt(afterM, Str(",t="), t, rest)
    requires forall n, r :: !NumberAt(rest, Str(",p="), n, r)
    ensures forall c, r :: !CostsAt(s, c, r)
  {
    forall c, r
      ensures !CostsAt(s, c, r)
    {
      if CostsAt(s, c, r) {
        CostsAreNumbers(s, c, r);
        var afterT := Str(",p=") + (Decimal(c.p) + r);
        SameNumber(s, Str("$m="), m, afterM, c.m, Str(",t=") + (Decimal(c.t) + afterT));
        SameNumber(afterM, Str(",t="), t, rest, c.t, afterT);
      }
    }
  }

  lemma NoCosts(s: seq<Char>)
    requires forall n, r :: !NumberAt(s, Str("$m="), n, r)
    ensures forall c, r :: !CostsAt(s, c, r)
  {
    forall c, r
      ensures !CostsAt(s, c, r)
    {
      if CostsAt(s, c, r) {
        CostsAreNumbers(s, c, r);
      }
    }
  }

  method ReadCosts(str: seq<Char>, pos: nat) returns (ok: bool, c: Costs, pos': nat)
    requires pos <= |str|
    ensures ok ==> pos' <= |str| && CostsAt(str[pos..], c, str[pos'..])
    ensures !ok ==> forall c', rest :: !CostsAt(str[pos..], c', rest)
  {
    c, pos' := Costs(0, 0, 0), pos;
    var m, t, p, posM, posT;
    ok, m, posM := ReadNumber(str, pos, Str("$m="));
    if !ok {
      NoCosts(str[pos..]);
      return;
    }
    ok, t, posT := ReadNumber(str, posM, Str(",t="));
    if !ok {
      NoCostsAfterM(str[pos..], m, str[posM..]);
      return;
    }
    ok, p, pos' := ReadNumber(str, posT, Str(",p="));
    if !ok {
      NoCostsAfterT(str[pos..], m, str[posM..], t, str[posT..]);
      return;
    }
    c := Costs(m, t, p);
  }

  // ----- Type and version -----

  ghost predicate HeadAt(str: seq<Char>, kind: Kind, v: Version, rest: seq<Char>) {
    Greedy(v, rest) && str == HeadText(kind, v, rest)
  }

  /** If the start is not the type, or "$v=" is not followed by a number, there is no head. */
  lemma NoHead(str: seq<Char>, kind: Kind, tail: seq<Char>)
    requires str == Str("$") + (TypeText(kind) + tail) && Str("$v=") <= tail
    requires forall n, r :: !NumberAt(tail, Str("$v="), n, r)
    ensures forall v, rest :: !HeadAt(str, kind, v, rest)
  {
    forall v, rest
      ensures !HeadAt(str, kind, v, rest)
    {
      if HeadAt(str, kind, v, rest) {
        PeelText(Str("$"), TypeText(kind) + tail, TypeText(kind) + VersionText(v, rest));
        PeelText(TypeText(kind), tail, VersionText(v, rest));
        assert v.Explicit? ==> NumberAt(tail, Str("$v="), v.number, rest);
      }
    }
  }

  lemma NoType(str: seq<Char>, kind: Kind, tail: seq<Char>)
    requires str == Str("$") + tail && !(TypeText(kind) <= tail)
    ensures forall v, rest :: !HeadAt(str, kind, v, rest)
  {
    forall v, rest
      ensures !HeadAt(str, kind, v, rest)
    {
      if HeadAt(str, kind, v, rest) {
        PeelText(Str("$"), tail, TypeText(kind) + VersionText(v, rest));
      }
    }
  }

  method ReadHead(str: seq<Char>, kind: Kind) returns (ok: bool, v: Version, pos: nat)
    ensures ok ==> pos <= |str| && HeadAt(str, kind, v, str[pos..])
    ensures !ok ==> forall v', rest :: !HeadAt(str, kind, v', rest)
  {
    v := Implicit;
    assert str[0..] == str;
    ok, pos := Expect(str, 0, Str("$"));
    if !ok {
      return;
    }
    ghost var tail := str[pos..];
    ok, pos := Expect(str, pos, TypeText(kind));
    if !ok {
      NoType(str, kind, tail);
      return;
    }
    tail := str[pos..];
    var opt, _ := Expect(str, pos, Str("$v="));
    if opt {
      var n;
      ok, n, pos := ReadNumber(str, pos, Str("$v="));
      if !ok {
        NoHead(str, kind, tail);
        return;
      }
      v := Explicit(n);
    }
  }

  // ----- The two binary fields -----

  ghost predicate BinsAt(a: Alphabet, s: seq<Char>, salt: seq<Char>, out: seq<Char>, rest: seq<Char>) {
    AllTaken(a, salt) && AllTaken(a, out) && !StartsTaken(a, rest) && s == BinsText(salt, out, rest)
  }

  /** A text and, behind it, a field with a meaning that fits. */
  ghost predicate FieldAt(a: Alphabet, s: seq<Char>, chars: seq<Char>, rest: seq<Char>) {
    AllTaken(a, chars) && !StartsTaken(a, rest) && s == Str("$") + (chars + rest)
  }

  lemma SameField(a: Alphabet, s: seq<Char>, x: seq<Char>, rest: seq<Char>, y: seq<Char>, rest': seq<Char>)
    requires FieldAt(a, s, x, rest) && FieldAt(a, s, y, rest')
    ensures x == y && rest == rest'
  {
    PeelText(Str("$"), x + rest, y + rest');
    PeelTaken(a, x, rest, y, rest');
  }

  /** CC("$") and BIN. */
  method ReadField(a: Alphabet, str: seq<Char>, pos: nat, cap: nat)
    returns (ok: bool, bytes: seq<u8>, pos': nat, ghost chars: seq<Char>)
    requires Separated(a) && pos <= |str|
    ensures ok ==> pos' <= |str| && FieldAt(a, str[pos..], chars, str[pos'..]) && Means(a, chars, bytes)
                   && |bytes| <= cap
    ensures !ok ==> forall x, rest, b | FieldAt(a, str[pos..], x, rest) && Means(a, x, b) :: |b| > cap
  {
    bytes, chars := [], [];
    ok, pos' := Expect(str, pos, Str("$"));
    if !ok {
      return;
    }
    var r := FromBase64(a, str, pos', cap);
    chars := Run(a, str, pos');
    RunField(a, str, pos, pos');
    if r.Refused? {
      RefusedField(a, str[pos..], chars, str[pos' + |chars|..], cap);
      return false, [], pos, [];
    }
    ok, bytes, pos' := true, r.bytes, r.next;
  }

  lemma RunField(a: Alphabet, str: seq<Char>, pos: nat, from: nat)
    requires pos <= from <= |str| && str[pos..] == Str("$") + str[from..]
    ensures var run := Run(a, str, from);
            FieldAt(a, str[pos..], run, str[from + |run|..])
  {
    var run := Run(a, str, from);
    RunStops(a, str, from);
    assert str[from..] == run + str[from + |run|..];
  }

  lemma RefusedField(a: Alphabet, s: seq<Char>, chars: seq<Char>, tail: seq<Char>, cap: nat)
    requires FieldAt(a, s, chars, tail) && forall b :: Means(a, chars, b) ==> |b| > cap
    ensures forall x, rest, b | FieldAt(a, s, x, rest) && Means(a, x, b) :: |b| > cap
  {
    forall x, rest, b | FieldAt(a, s, x, rest) && Means(a, x, b)
      ensures |b| > cap
    {
      SameField(a, s, x, rest, chars, tail);
    }
  }

  lemma {:induction false} RunStops(a: Alphabet, s: seq<Char>, from: nat)
    requires from <= |s|
    ensures var run := Run(a, s, from);
            AllTaken(a, run) && !StartsTaken(a, s[from + |run|..])
    decreases |s| - from
  {
    if from < |s| && Taken(a, s[from]) {
      RunStops(a, s, from + 1);
    }
  }

  lemma BinsAreFields(a: Alphabet, s: seq<Char>, salt: seq<Char>, out: seq<Char>, rest: seq<Char>)
    requires Separated(a) && BinsAt(a, s, salt, out, rest)
    ensures FieldAt(a, s, salt, Str("$") + (out + rest)) && FieldAt(a, Str("$") + (out + rest), out, rest)
  {
  }

  ghost predicate NoBins(a: Alphabet, s: seq<Char>, saltCap: nat, outCap: nat) {
    forall x, y, rest, b, c | BinsAt(a, s, x, y, rest) && Means(a, x, b) && Means(a, y, c) ::
      |b| > saltCap || |c| > outCap
  }

  method ReadBins(a: Alphabet, str: seq<Char>, pos: nat, saltCap: nat, outCap: nat)
    returns (ok: bool, salt: seq<u8>, out: seq<u8>, pos': nat, ghost saltChars: seq<Char>, ghost outChars: seq<Char>)
    requires Separated(a) && pos <= |str|
    ensures ok ==> pos' <= |str| && BinsAt(a, str[pos..], saltChars, outChars, str[pos'..])
                   && Means(a, saltChars, salt) && |salt| <= saltCap && Means(a, outChars, out) && |out| <= outCap
    ensures !ok ==> NoBins(a, str[pos..], saltCap, outCap)
  {
    out, outChars := [], [];
    ok, salt, pos', saltChars := ReadField(a, str, pos, saltCap);
    if !ok {
      forall x, y, rest, b, c | BinsAt(a, str[pos..], x, y, rest) && Means(a, x, b) && Means(a, y, c)
        ensures |b| > saltCap || |c| > outCap
      {
        BinsAreFields(a, str[pos..], x, y, rest);
      }
      return;
    }
    ghost var tail := str[pos'..];
    ok, out, pos', outChars := ReadField(a, str, pos', outCap);
    if !ok {
      forall x, y, rest, b, c | BinsAt(a, str[pos..], x, y, rest) && Means(a, x, b) && Means(a, y, c)
        ensures |b| > saltCap || |c| > outCap
      {
        BinsAreFields(a, str[pos..], x, y, rest);
        SameField(a, str[pos..], saltChars, tail, x, Str("$") + (y + rest));
      }
    }
  }

  // ----- The whole string -----

  /** The context that decode_string leaves when it has read these pieces. */
  function Filled(ctx: Context, pc: Pieces, salt: seq<u8>, out: seq<u8>): Context {
    var version := if pc.version.Explicit? then pc.version.number else VERSION_10;
    Context(Bytes(out), ctx.pwd, Bytes(salt), Null(0), Null(0),
            pc.tCost, pc.mCost, pc.lanes, pc.lanes, version, false, false)
  }

  /** The string has these pieces, its binary fields mean these bytes and fit the buffers. */
  ghost predicate Reads(a: Alphabet, kind: Kind, str: seq<Char>, ctx: Context, pc: Pieces, salt: seq<u8>,
                        out: seq<u8>) {
    && HasPieces(a, kind, str, pc)
    && Means(a, pc.salt, salt) && |salt| <= ctx.salt.Length()
    && Means(a, pc.out, out) && |out| <= ctx.out.Length()
  }

  /** It is read, and the context it gives is a valid one. */
  ghost predicate Accepts(a: Alphabet, kind: Kind, str: seq<Char>, ctx: Context, pc: Pieces, salt: seq<u8>,
                          out: seq<u8>)
    requires ctx.Valid()
  {
    Reads(a, kind, str, ctx, pc, salt, out) && ValidateInputs(Filled(ctx, pc, salt, out)) == Ok
  }

  lemma NoHeadNoPieces(a: Alphabet, kind: Kind, str: seq<Char>)
    requires forall v, rest :: !HeadAt(str, kind, v, rest)
    ensures forall pc :: !HasPieces(a, kind, str, pc)
  {
    forall pc
      ensures !HasPieces(a, kind, str, pc)
    {
      if HasPieces(a, kind, str, pc) {
        PiecesHead(a, kind, str, pc);
      }
    }
  }

  function AfterHead(pc: Pieces): seq<Char> {
    CostsText(pc.mCost, pc.tCost, pc.lanes, BinsText(pc.salt, pc.out, []))
  }

  lemma PiecesHead(a: Alphabet, kind: Kind, str: seq<Char>, pc: Pieces)
    requires HasPieces(a, kind, str, pc)
    ensures HeadAt(str, kind, pc.version, AfterHead(pc))
    ensures CostsAt(AfterHead(pc), Costs(pc.mCost, pc.tCost, pc.lanes), BinsText(pc.salt, pc.out, []))
    ensures BinsAt(a, BinsText(pc.salt, pc.out, []), pc.salt, pc.out, [])
  {
    CostsAreNoVersion(pc.version, AfterHead(pc));
  }

  /** With the head read, pieces go on where it ends. */
  lemma AfterReadHead(a: Alphabet, kind: Kind, str: seq<Char>, v: Version, rest: seq<Char>, pc: Pieces)
    requires HeadAt(str, kind, v, rest) && HasPieces(a, kind, str, pc)
    ensures pc.version == v && AfterHead(pc) == rest
  {
    PiecesHead(a, kind, str, pc);
    PeelHeadOfKind(kind, v, rest, pc.version, AfterHead(pc));
  }

  /** With the costs read too. */
  lemma AfterReadCosts(a: Alphabet, kind: Kind, str: seq<Char>, v: Version, rest: seq<Char>, c: Costs,
                       bins: seq<Char>, pc: Pieces)
    requires HeadAt(str, kind, v, rest) && CostsAt(rest, c, bins) && HasPieces(a, kind, str, pc)
    ensures c == Costs(pc.mCost, pc.tCost, pc.lanes) && bins == BinsText(pc.salt, pc.out, [])
  {
    PiecesHead(a, kind, str, pc);
    AfterReadHead(a, kind, str, v, rest, pc);
    PeelCosts(c.m, c.t, c.p, bins, pc.mCost, pc.tCost, pc.lanes, BinsText(pc.salt, pc.out, []));
  }

  /** With the binary fields read too, there must be nothing left. */
  lemma AfterReadBins(a: Alphabet, kind: Kind, str: seq<Char>, v: Version, rest: seq<Char>, c: Costs, bins: seq<Char>,
                      salt: seq<Char>, out: seq<Char>, tail: seq<Char>, pc: Pieces)
    requires Separated(a) && HeadAt(str, kind, v, rest) && CostsAt(rest, c, bins) && BinsAt(a, bins, salt, out, tail)
    requires HasPieces(a, kind, str, pc)
    ensures tail == [] && pc == Pieces(v, c.m, c.t, c.p, salt, out)
  {
    AfterReadHead(a, kind, str, v, rest, pc);
    AfterReadCosts(a, kind, str, v, rest, c, bins, pc);
    PeelBins(a, salt, out, tail, pc.salt, pc.out, []);
  }

  lemma NoCostsNoPieces(a: Alphabet, kind: Kind, str: seq<Char>, v: Version, rest: seq<Char>)
    requires HeadAt(str, kind, v, rest) && forall c, r :: !CostsAt(rest, c, r)
    ensures forall pc :: !HasPieces(a, kind, str, pc)
  {
    forall pc
      ensures !HasPieces(a, kind, str, pc)
    {
      if HasPieces(a, kind, str, pc) {
        PiecesHead(a, kind, str, pc);
        AfterReadHead(a, kind, str, v, rest, pc);
      }
    }
  }

  lemma NoBinsNoReading(a: Alphabet, kind: Kind, str: seq<Char>, ctx: Context, v: Version, rest: seq<Char>, c: Costs,
                        bins: seq<Char>)
    requires HeadAt(str, kind, v, rest) && CostsAt(rest, c, bins)
    requires NoBins(a, bins, ctx.salt.Length(), ctx.out.Length())
    ensures forall pc, salt, out :: !Reads(a, kind, str, ctx, pc, salt, out)
  {
    forall pc: Pieces, salt: seq<u8>, out: seq<u8> | Reads(a, kind, str, ctx, pc, salt, out)
      ensures false
    {
      ReadingHasBins(a, kind, str, ctx, v, rest, c, bins, pc, salt, out);
    }
  }

  lemma ReadingHasBins(a: Alphabet, kind: Kind, str: seq<Char>, ctx: Context, v: Version, rest: seq<Char>, c: Costs,
                       bins: seq<Char>,
                       pc: Pieces, salt: seq<u8>, out: seq<u8>)
    requires HeadAt(str, kind, v, rest) && CostsAt(rest, c, bins) && Reads(a, kind, str, ctx, pc, salt, out)
    ensures !NoBins(a, bins, ctx.salt.Length(), ctx.out.Length())
  {
    BinsOfPieces(a, kind, str, v, rest, c, bins, pc);
  }

  lemma BinsOfPieces(a: Alphabet, kind: Kind, str: seq<Char>, v: Version, rest: seq<Char>, c: Costs, bins: seq<Char>,
                     pc: Pieces)
    requires HeadAt(str, kind, v, rest) && CostsAt(rest, c, bins) && HasPieces(a, kind, str, pc)
    ensures BinsAt(a, bins, pc.salt, pc.out, [])
  {
    PiecesHead(a, kind, str, pc);
    AfterReadCosts(a, kind, str, v, rest, c, bins, pc);
  }

  /** What has been read from a string, up to an end. */
  datatype Reading = Reading(version: Version, costs: Costs, salt: seq<u8>, out: seq<u8>, end: nat)

  ghost function PiecesOf(r: Reading, salt: seq<Char>, out: seq<Char>): Pieces {
    Pieces(r.version, r.costs.m, r.costs.t, r.costs.p, salt, out)
  }

  /** All fields in order. */
  method ReadAll(a: Alphabet, kind: Kind, str: seq<Char>, ctx: Context)
    returns (ok: bool, r: Reading, ghost salt: seq<Char>, ghost out: seq<Char>)
    requires Separated(a)
    ensures !ok ==> forall pc, b, c :: !Reads(a, kind, str, ctx, pc, b, c)
    ensures ok ==> Means(a, salt, r.salt) && |r.salt| <= ctx.salt.Length() && Means(a, out, r.out)
                   && |r.out| <= ctx.out.Length()
    ensures ok ==> r.end <= |str| && (r.end == |str| ==> HasPieces(a, kind, str, PiecesOf(r, salt, out)))
    ensures ok ==> forall pc :: HasPieces(a, kind, str, pc) ==> r.end == |str| && pc == PiecesOf(r, salt, out)
  {
    r, salt, out := Reading(Implicit, Costs(0, 0, 0), [], [], 0), [], [];
    var v, c, posC, posB, s, o, end;
    ok, v, posC := ReadHead(str, kind);
    if !ok {
      NoHeadNoPieces(a, kind, str);
      return;
    }
    ok, c, posB := ReadCosts(str, posC);
    if !ok {
      NoCostsNoPieces(a, kind, str, v, str[posC..]);
      return;
    }
    ok, s, o, end, salt, out := ReadBins(a, str, posB, ctx.salt.Length(), ctx.out.Length());
    if !ok {
      NoBinsNoReading(a, kind, str, ctx, v, str[posC..], c, str[posB..]);
      return;
    }
    r := Reading(v, c, s, o, end);
    OnlyPieces(a, kind, str, v, str[posC..], c, str[posB..], salt, out, str[end..]);
  }

  lemma OnlyPieces(a: Alphabet, kind: Kind, str: seq<Char>, v: Version, rest: seq<Char>, c: Costs, bins: seq<Char>,
                   salt: seq<Char>, out: seq<Char>, tail: seq<Char>)
    requires Separated(a) && HeadAt(str, kind, v, rest) && CostsAt(rest, c, bins) && BinsAt(a, bins, salt, out, tail)
    ensures tail == [] ==> HasPieces(a, kind, str, Pieces(v, c.m, c.t, c.p, salt, out))
    ensures forall pc :: HasPieces(a, kind, str, pc) ==> tail == [] && pc == Pieces(v, c.m, c.t, c.p, salt, out)
  {
    forall pc | HasPieces(a, kind, str, pc)
      ensures tail == [] && pc == Pieces(v, c.m, c.t, c.p, salt, out)
    {
      AfterReadBins(a, kind, str, v, rest, c, bins, salt, out, tail, pc);
    }
  }

  lemma OneReading(a: Alphabet, kind: Kind, str: seq<Char>, ctx: Context, pc: Pieces, salt: seq<u8>, out: seq<u8>,
                   atEnd: bool)
    requires Means(a, pc.salt, salt) && Means(a, pc.out, out)
    requires forall other :: HasPieces(a, kind, str, other) ==> atEnd && other == pc
    ensures forall pc', s, o :: Reads(a, kind, str, ctx, pc', s, o) ==> atEnd && pc' == pc && s == salt && o == out
  {
    forall pc', s, o | Reads(a, kind, str, ctx, pc', s, o)
      ensures atEnd && pc' == pc && s == salt && o == out
    {
      MeaningUnique(a, pc.salt, s, salt);
      MeaningUnique(a, pc.out, o, out);
    }
  }

  /** The context after the fields have been read. */
  function ContextOf(ctx: Context, r: Reading): Context {
    var version := if r.version.Explicit? then r.version.number else VERSION_10;
    Context(Bytes(r.out), ctx.pwd, Bytes(r.salt), Null(0), Null(0),
            r.costs.t, r.costs.m, r.costs.p, r.costs.p, version, false, false)
  }

  lemma ReadingDecides(a: Alphabet, kind: Kind, str: seq<Char>, ctx: Context, r: Reading, salt: seq<Char>,
                       out: seq<Char>)
    requires Means(a, salt, r.salt) && |r.salt| <= ctx.salt.Length() && Means(a, out, r.out)
             && |r.out| <= ctx.out.Length()
    requires r.end == |str| ==> HasPieces(a, kind, str, PiecesOf(r, salt, out))
    requires forall pc :: HasPieces(a, kind, str, pc) ==> r.end == |str| && pc == PiecesOf(r, salt, out)
    ensures Filled(ctx, PiecesOf(r, salt, out), r.salt, r.out) == ContextOf(ctx, r)
    ensures r.end == |str| ==> Reads(a, kind, str, ctx, PiecesOf(r, salt, out), r.salt, r.out)
    ensures forall p, s, o :: Reads(a, kind, str, ctx, p, s, o) ==>
              r.end == |str| && Filled(ctx, p, s, o) == ContextOf(ctx, r)
  {
    OneReading(a, kind, str, ctx, PiecesOf(r, salt, out), r.salt, r.out, r.end == |str|);
  }

  /**
   decode_string: accepts exactly the strings of the grammar whose fields fit and make a valid context, and then gives
   that context. `ctx` says how large the buffers for salt and output are.
   */
  method DecodeString(a: Alphabet, kind: Kind, str: seq<Char>, ctx: Context)
    returns (result: Outcome, ctx': Context, ghost pc: Pieces, ghost salt: seq<u8>, ghost out: seq<u8>)
    requires Separated(a) && ctx.Valid()
    ensures result == Ok ==> Accepts(a, kind, str, ctx, pc, salt, out) && ctx' == Filled(ctx, pc, salt, out)
    ensures result != Ok ==> forall p, s, o :: !Accepts(a, kind, str, ctx, p, s, o)
    ensures forall p, s, o :: Reads(a, kind, str, ctx, p, s, o) ==> result == ValidateInputs(Filled(ctx, p, s, o))
  {
    var ok, r;
    ghost var saltChars, outChars;
    ok, r, saltChars, outChars := ReadAll(a, kind, str, ctx);
    ctx', pc, salt, out := ctx, PiecesOf(r, saltChars, outChars), r.salt, r.out;
    if !ok {
      return DecodingFail, ctx', pc, salt, out;
    }
    ctx' := ContextOf(ctx, r);
    ReadingDecides(a, kind, str, ctx, r, saltChars, outChars);
    result := ValidateInputs(ctx');
    if result == Ok && r.end != |str| {
      result := DecodingFail;
    }
  }
}
