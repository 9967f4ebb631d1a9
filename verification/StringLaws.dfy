/**
 Encoded strings written out: $argon2<T>[$v=<num>]$m=<num>,t=<num>,p=<num>$<bin>$<bin> as one text
 (external/argon2/encoding.c:253-455).
 */
module StringLaws {
  import opened Words
  import opened Layout
  import opened Buffers
  import opened Contexts
  import opened Base64
  import opened Decimals
  import opened EncodedStrings
  import opened StringEncoder
  import opened StringDecoder

  /** The characters of a text. */
  ghost predicate Spells(t: seq<Char>, s: string) {
    |t| == |s| && forall i :: 0 <= i < |s| ==> t[i] == s[i] as int
  }

  /** The name of a type, with the separator. */
  function Name(kind: Kind): string {
    if kind == Argon2d then "$argon2d" else if kind == Argon2i then "$argon2i" else "$argon2id"
  }

  /** The fixed texts between the fields. */
  datatype Fixed = Fixed(name: seq<Char>, v: seq<Char>, m: seq<Char>, t: seq<Char>, p: seq<Char>, d: seq<Char>)
  {
    ghost predicate Valid(kind: Kind) {
      && Spells(name, Name(kind)) && Spells(v, "$v=") && Spells(m, "$m=") && Spells(t, ",t=") && Spells(p, ",p=")
      && Spells(d, "$")
    }
  }

  lemma Flat(a: seq<Char>, m: seq<Char>, b: seq<Char>, c: seq<Char>, d: seq<Char>, p: seq<Char>, e: seq<Char>,
             salt: seq<Char>, out: seq<Char>)
    ensures a + (m + (b + (c + (d + (p + (e + (salt + (e + (out + [])))))))))
            == a + m + b + c + d + p + e + salt + e + out
  {
    assert out + [] == out;
    assert e + (salt + (e + out)) == e + salt + e + out;
    var x := e + salt + e + out;
    assert d + (p + x) == d + p + x;
    assert b + (c + (d + p + x)) == b + c + d + p + x;
    assert a + (m + (b + c + d + p + x)) == a + m + b + c + d + p + x;
    assert a + m + b + c + d + p + x == a + m + b + c + d + p + e + salt + e + out;
  }

  lemma SpelledIsStr(t: seq<Char>, s: string)
    requires Spells(t, s) && forall i :: 0 <= i < |s| ==> (s[i] as int) < 256
    ensures t == Str(s)
  {
  }

  lemma FixedAreStr(f: Fixed, kind: Kind)
    requires f.Valid(kind)
    ensures f.v == Str("$v=") && f.m == Str("$m=") && f.t == Str(",t=") && f.p == Str(",p=") && f.d == Str("$")
    ensures f.name == Str("$") + TypeText(kind)
  {
    SpelledIsStr(f.v, "$v=");
    SpelledIsStr(f.m, "$m=");
    SpelledIsStr(f.t, ",t=");
    SpelledIsStr(f.p, ",p=");
    SpelledIsStr(f.d, "$");
    assert f.name == Str("$") + TypeText(kind);
  }

  /** The text for given pieces, in one line. */
  lemma TextIsFlat(kind: Kind, pc: Pieces, f: Fixed)
    requires f.Valid(kind)
    ensures Text(kind, pc)
            == f.name + (if pc.version.Explicit? then f.v + Decimal(pc.version.number) else [])
               + (f.m + Decimal(pc.mCost) + f.t + Decimal(pc.tCost) + f.p + Decimal(pc.lanes)
                  + f.d + pc.salt + f.d + pc.out)
  {
    FixedAreStr(f, kind);
    Flat(f.m, Decimal(pc.mCost), f.t, Decimal(pc.tCost), f.p, Decimal(pc.lanes), f.d, pc.salt, pc.out);
    var tail := f.m + Decimal(pc.mCost) + f.t + Decimal(pc.tCost) + f.p + Decimal(pc.lanes)
                + f.d + pc.salt + f.d + pc.out;
    assert CostsText(pc.mCost, pc.tCost, pc.lanes, BinsText(pc.salt, pc.out, [])) == tail;
    HeadIsFlat(kind, pc.version, f, tail);
  }

  lemma HeadIsFlat(kind: Kind, version: Version, f: Fixed, tail: seq<Char>)
    requires f.name == Str("$") + TypeText(kind) && f.v == Str("$v=")
    ensures HeadText(kind, version, tail)
            == f.name + (if version.Explicit? then f.v + Decimal(version.number) else []) + tail
  {
    match version
    case Implicit => Regroup(Str("$"), TypeText(kind), [], [], tail);
    case Explicit(number) => Regroup(Str("$"), TypeText(kind), f.v, Decimal(number), tail);
  }

  lemma Regroup(d: seq<Char>, name: seq<Char>, v: seq<Char>, n: seq<Char>, tail: seq<Char>)
    ensures d + (name + (v + (n + tail))) == d + name + (v + n) + tail
    ensures d + (name + tail) == d + name + [] + tail
  {
  }

  /**
   An accepted string says what it fills in: the costs in this order, as many threads as lanes, no secret and no
   associated data, and version 0x10 where none is stated.
   */
  lemma AcceptedSays(a: Alphabet, kind: Kind, str: seq<Char>, into: Context, pc: Pieces, salt: seq<u8>, out: seq<u8>,
                     f: Fixed)
    requires into.Valid() && Accepts(a, kind, str, into, pc, salt, out) && f.Valid(kind)
    ensures var ctx := Filled(into, pc, salt, out);
            && str == f.name + (if pc.version.Explicit? then f.v + Decimal(ctx.version) else [])
                      + (f.m + Decimal(ctx.mCost) + f.t + Decimal(ctx.tCost) + f.p + Decimal(ctx.lanes)
                         + f.d + pc.salt + f.d + pc.out)
            && (pc.version.Implicit? ==> ctx.version == 0x10)
            && ctx.threads == ctx.lanes && ctx.salt.Content() == salt && ctx.out.Content() == out
            && ctx.pwd == into.pwd && ctx.secret == Null(0) && ctx.ad == Null(0)
            && !ctx.allocateCallback && !ctx.freeCallback
  {
    TextIsFlat(kind, pc, f);
  }

  /** And a context is printed as what it is. */
  lemma EncodedSays(a: Alphabet, kind: Kind, ctx: Context, f: Fixed)
    requires f.Valid(kind)
    ensures EncodedString(a, ctx, kind)
            == f.name + (f.v + Decimal(ctx.version))
               + (f.m + Decimal(ctx.mCost) + f.t + Decimal(ctx.tCost) + f.p + Decimal(ctx.lanes)
                  + f.d + Encode(a, ctx.salt.Content()) + f.d + Encode(a, ctx.out.Content()))
  {
    TextIsFlat(kind, PiecesFor(a, ctx), f);
  }
}
