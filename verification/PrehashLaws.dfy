/**
 What is hashed first, as section 3.2 of RFC 9106 gives it (external/argon2/core.c:597-684): where each number and each
 field stands, and that no two sets of inputs are hashed as the same bytes.
 */
module PrehashLaws {
  import opened Words
  import opened WordBytes
  import opened Buffers
  import opened Layout
  import opened Contexts
  import opened Blake2bSpec
  import opened Fill
  import opened Argon2
  import Argon2Words

  /** Numbers of 32 bits take four bytes, the least significant first. */
  ghost predicate StoresNumbers<W>(core: Core<W>) {
    forall x: nat | x < 0x1_0000_0000 :: |core.le32(x)| == 4 && Number(core.le32(x)) == x
  }

  /** The library's words do. */
  lemma LibraryStoresNumbers(f: Argon2Words.Compressor)
    ensures StoresNumbers(Argon2Words.Blake2bCore(f))
  {
    var core := Argon2Words.Blake2bCore(f);
    assert Power256(4) == 0x1_0000_0000;
    forall x: nat | x < 0x1_0000_0000
      ensures |core.le32(x)| == 4 && Number(core.le32(x)) == x
    {
      NumberOfBytes(x, 4);
      assert core.le32(x) == LittleEndian(x, 4);
    }
  }

  /** The bytes begin with these numbers. */
  ghost predicate BeginsWith(m: seq<Byte>, numbers: seq<nat>) {
    4 * |numbers| <= |m| && forall i :: 0 <= i < |numbers| ==> Number(m[4 * i..4 * i + 4]) == numbers[i]
  }

  /** From `at` on the bytes are these fields, each behind its length, and nothing else. */
  ghost predicate EndsWith(m: seq<Byte>, at: nat, fields: seq<seq<Byte>>)
    decreases |fields|
  {
    if fields == [] then at == |m|
    else
      var from := at + 4;
      && from + |fields[0]| <= |m| && Number(m[at..from]) == |fields[0]| && m[from..from + |fields[0]|] == fields[0]
      && EndsWith(m, from + |fields[0]|, fields[1..])
  }

  /** The six numbers, then password, salt, secret and associated data. */
  ghost predicate HasLayout(m: seq<Byte>, ctx: Context, kind: Kind) {
    var y := if kind == Argon2d then 0 else if kind == Argon2i then 1 else 2;
    && BeginsWith(m, [ctx.lanes, ctx.out.Length(), ctx.mCost, ctx.tCost, ctx.version, y])
    && EndsWith(m, 24, [ctx.pwd.Content(), ctx.salt.Content(), ctx.secret.Content(), ctx.ad.Content()])
  }

  lemma OneMoreNumber<W>(core: Core<W>, m: seq<Byte>, numbers: seq<nat>, x: nat)
    requires StoresNumbers(core) && x < 0x1_0000_0000
    requires BeginsWith(m, numbers) && |m| == 4 * |numbers|
    ensures BeginsWith(m + core.le32(x), numbers + [x]) && |m + core.le32(x)| == 4 * |numbers + [x]|
  {
    var m', numbers' := m + core.le32(x), numbers + [x];
    forall i | 0 <= i < |numbers'|
      ensures Number(m'[4 * i..4 * i + 4]) == numbers'[i]
    {
      if i < |numbers| {
        assert m'[4 * i..4 * i + 4] == m[4 * i..4 * i + 4];
      } else {
        assert m'[4 * i..4 * i + 4] == core.le32(x);
      }
    }
  }

  lemma ThreeMore<W>(core: Core<W>, m: seq<Byte>, n: seq<nat>, x: nat, y: nat, z: nat)
    requires StoresNumbers(core) && BeginsWith(m, n) && |m| == 4 * |n|
    requires x < 0x1_0000_0000 && y < 0x1_0000_0000 && z < 0x1_0000_0000
    ensures var m' := m + core.le32(x) + core.le32(y) + core.le32(z);
            BeginsWith(m', n + [x] + [y] + [z]) && |m'| == 4 * |n| + 12
  {
    OneMoreNumber(core, m, n, x);
    OneMoreNumber(core, m + core.le32(x), n + [x], y);
    OneMoreNumber(core, m + core.le32(x) + core.le32(y), n + [x] + [y], z);
  }

  lemma NumbersInPlace<W>(core: Core<W>, ctx: Context, kind: Kind)
    requires StoresNumbers(core) && ctx.Valid()
    ensures var m := PrehashNumbers(core, [], ctx, kind);
            && BeginsWith(m, [ctx.lanes, ctx.out.Length(), ctx.mCost, ctx.tCost, ctx.version, KindCode(kind)])
            && |m| == 24
  {
    var n: seq<nat> := [] + [ctx.lanes] + [ctx.out.Length()] + [ctx.mCost];
    var m: seq<Byte> := [] + core.le32(ctx.lanes) + core.le32(ctx.out.Length()) + core.le32(ctx.mCost);
    ThreeMore(core, [], [], ctx.lanes, ctx.out.Length(), ctx.mCost);
    ThreeMore(core, m, n, ctx.tCost, ctx.version, KindCode(kind));
    assert n + [ctx.tCost] + [ctx.version] + [KindCode(kind)]
           == [ctx.lanes, ctx.out.Length(), ctx.mCost, ctx.tCost, ctx.version, KindCode(kind)];
  }

  lemma NumbersStay(m: seq<Byte>, numbers: seq<nat>, rest: seq<Byte>)
    requires BeginsWith(m, numbers)
    ensures BeginsWith(m + rest, numbers)
  {
    forall i | 0 <= i < |numbers|
      ensures Number((m + rest)[4 * i..4 * i + 4]) == numbers[i]
    {
      assert (m + rest)[4 * i..4 * i + 4] == m[4 * i..4 * i + 4];
    }
  }

  /** A length and that many bytes. */
  ghost predicate IsField(f: seq<Byte>, content: seq<Byte>) {
    |f| == 4 + |content| && Number(f[..4]) == |content| && f[4..] == content
  }

  /** What the validation leaves of a buffer: a null pointer has no length. */
  predicate Sound(b: Buffer) {
    b.Length() < 0x1_0000_0000 && !b.NullWithLength()
  }

  lemma AcceptedIsSound(ctx: Context)
    requires ctx.Valid() && ValidateInputs(ctx) == Ok
    ensures Sound(ctx.pwd) && Sound(ctx.salt) && Sound(ctx.secret) && Sound(ctx.ad)
  {
  }

  lemma FieldIsField<W>(core: Core<W>, b: Buffer)
    requires StoresNumbers(core) && Sound(b)
    ensures IsField(Field(core, b), b.Content())
  {
    assert Field(core, b)[..4] == core.le32(b.Length());
  }

  /** A field in front of what follows it. */
  lemma FieldInFront(before: seq<Byte>, f: seq<Byte>, rest: seq<Byte>, fields: seq<seq<Byte>>)
    requires fields != [] && IsField(f, fields[0])
    requires EndsWith(before + f + rest, |before + f|, fields[1..])
    ensures EndsWith(before + f + rest, |before|, fields)
  {
    var m, from := before + f + rest, |before| + 4;
    assert m[|before|..from] == f[..4];
    assert m[from..from + |fields[0]|] == f[4..];
  }

  lemma Regroup(n: seq<Byte>, f: seq<Byte>, g: seq<Byte>, h: seq<Byte>, i: seq<Byte>)
    ensures n + f + g + h + i == n + (f + g + h + i)
    ensures n + f + g + h + i == n + f + (g + h + i)
    ensures n + f + g + h + i == n + f + g + (h + i)
    ensures n + f + g + h + i == n + f + g + h + i + []
  {
  }

  lemma FourFields(n: seq<Byte>, f: seq<Byte>, g: seq<Byte>, h: seq<Byte>, i: seq<Byte>, x: seq<seq<Byte>>)
    requires |x| == 4 && IsField(f, x[0]) && IsField(g, x[1]) && IsField(h, x[2]) && IsField(i, x[3])
    ensures EndsWith(n + f + g + h + i, |n|, x)
  {
    Regroup(n, f, g, h, i);
    assert x[3..][1..] == [] && x[2..][1..] == x[3..] && x[1..][1..] == x[2..];
    FieldInFront(n + f + g + h, i, [], x[3..]);
    FieldInFront(n + f + g, h, i, x[2..]);
    FieldInFront(n + f, g, h + i, x[1..]);
    FieldInFront(n, f, g + h + i, x);
  }

  lemma FieldsInPlace<W>(core: Core<W>, n: seq<Byte>, ctx: Context)
    requires StoresNumbers(core) && ctx.Valid() && ValidateInputs(ctx) == Ok
    ensures EndsWith(n + Field(core, ctx.pwd) + Field(core, ctx.salt) + Field(core, ctx.secret) + Field(core, ctx.ad),
              |n|, [ctx.pwd.Content(), ctx.salt.Content(), ctx.secret.Content(), ctx.ad.Content()])
  {
    AcceptedIsSound(ctx);
    FieldIsField(core, ctx.pwd);
    FieldIsField(core, ctx.salt);
    FieldIsField(core, ctx.secret);
    FieldIsField(core, ctx.ad);
    FourFields(n, Field(core, ctx.pwd), Field(core, ctx.salt), Field(core, ctx.secret), Field(core, ctx.ad),
               [ctx.pwd.Content(), ctx.salt.Content(), ctx.secret.Content(), ctx.ad.Content()]);
  }

  lemma NumbersInFront(n: seq<Byte>, f: seq<Byte>, g: seq<Byte>, h: seq<Byte>, i: seq<Byte>, numbers: seq<nat>)
    requires BeginsWith(n, numbers)
    ensures BeginsWith(n + f + g + h + i, numbers)
  {
    Regroup(n, f, g, h, i);
    NumbersStay(n, numbers, f + g + h + i);
  }

  /** The input of H0 has the layout of section 3.2 of RFC 9106. */
  lemma PrehashLayout<W>(core: Core<W>, ctx: Context, kind: Kind)
    requires StoresNumbers(core) && ctx.Valid() && ValidateInputs(ctx) == Ok
    ensures HasLayout(PrehashInput(core, ctx, kind), ctx, kind)
  {
    var n := PrehashNumbers(core, [], ctx, kind);
    NumbersInPlace(core, ctx, kind);
    FieldsInPlace(core, n, ctx);
    NumbersInFront(n, Field(core, ctx.pwd), Field(core, ctx.salt), Field(core, ctx.secret), Field(core, ctx.ad),
                   [ctx.lanes, ctx.out.Length(), ctx.mCost, ctx.tCost, ctx.version, KindCode(kind)]);
  }

  /** What the hash sees of a context: everything but the thread count and the callbacks. */
  ghost predicate SameInputs(a: Context, b: Context) {
    && a.lanes == b.lanes && a.out.Length() == b.out.Length() && a.mCost == b.mCost && a.tCost == b.tCost
    && a.version == b.version
    && a.pwd.Content() == b.pwd.Content() && a.salt.Content() == b.salt.Content()
    && a.secret.Content() == b.secret.Content() && a.ad.Content() == b.ad.Content()
  }

  /** Reading back is unambiguous, field by field. */
  lemma {:induction false} FieldsDetermined(m: seq<Byte>, at: nat, x: seq<seq<Byte>>, y: seq<seq<Byte>>)
    requires EndsWith(m, at, x) && EndsWith(m, at, y) && |x| == |y|
    ensures x == y
    decreases |x|
  {
    if x != [] {
      FieldsDetermined(m, at + 4 + |x[0]|, x[1..], y[1..]);
      assert x == [x[0]] + x[1..] && y == [y[0]] + y[1..];
    }
  }

  lemma NumbersDetermined(m: seq<Byte>, x: seq<nat>, y: seq<nat>)
    requires BeginsWith(m, x) && BeginsWith(m, y) && |x| == |y|
    ensures x == y
  {
  }

  /** Equal layouts come from equal inputs. */
  lemma LayoutDetermines(m: seq<Byte>, a: Context, aKind: Kind, b: Context, bKind: Kind)
    requires HasLayout(m, a, aKind) && HasLayout(m, b, bKind)
    ensures SameInputs(a, b) && aKind == bKind
  {
    var f := [a.pwd.Content(), a.salt.Content(), a.secret.Content(), a.ad.Content()];
    var g := [b.pwd.Content(), b.salt.Content(), b.secret.Content(), b.ad.Content()];
    FieldsDetermined(m, 24, f, g);
    assert f[0] == g[0] && f[1] == g[1] && f[2] == g[2] && f[3] == g[3];
    var y := if aKind == Argon2d then 0 else if aKind == Argon2i then 1 else 2;
    var z := if bKind == Argon2d then 0 else if bKind == Argon2i then 1 else 2;
    var u := [a.lanes, a.out.Length(), a.mCost, a.tCost, a.version, y];
    var v := [b.lanes, b.out.Length(), b.mCost, b.tCost, b.version, z];
    NumbersDetermined(m, u, v);
    assert u[0] == v[0] && u[1] == v[1] && u[2] == v[2] && u[3] == v[3] && u[4] == v[4] && u[5] == v[5];
  }

  /** Two accepted contexts are hashed as the same bytes exactly if they agree in all of these inputs and the type. */
  lemma PrehashIsInjective<W>(core: Core<W>, a: Context, aKind: Kind, b: Context, bKind: Kind)
    requires StoresNumbers(core)
    requires a.Valid() && ValidateInputs(a) == Ok && b.Valid() && ValidateInputs(b) == Ok
    ensures PrehashInput(core, a, aKind) == PrehashInput(core, b, bKind) <==> SameInputs(a, b) && aKind == bKind
  {
    PrehashLayout(core, a, aKind);
    PrehashLayout(core, b, bKind);
    if PrehashInput(core, a, aKind) == PrehashInput(core, b, bKind) {
      LayoutDetermines(PrehashInput(core, a, aKind), a, aKind, b, bKind);
    } else if SameInputs(a, b) && aKind == bKind {
      SameFields(core, a, b);
    }
  }

  lemma SameFields<W>(core: Core<W>, a: Context, b: Context)
    requires a.Valid() && ValidateInputs(a) == Ok && b.Valid() && ValidateInputs(b) == Ok && SameInputs(a, b)
    ensures Field(core, a.pwd) == Field(core, b.pwd) && Field(core, a.salt) == Field(core, b.salt)
    ensures Field(core, a.secret) == Field(core, b.secret) && Field(core, a.ad) == Field(core, b.ad)
  {
    AcceptedIsSound(a);
    AcceptedIsSound(b);
  }

  /** The first blocks of section 3.2 of RFC 9106: H' of 1024 bytes of H0, the column and the lane. */
  lemma FirstBlockOfRfc<W>(p: Primitives<W>, h0: seq<Byte>, lane: u32, column: u32, input: seq<Byte>)
    requires StoresNumbers(p.core) && |h0| == 64
    requires |input| == 72 && input[..64] == h0 && Number(input[64..68]) == column && Number(input[68..]) == lane
    ensures FirstBlock(p, h0, lane, column) == p.load(p.longDigest(1024, input))
  {
    SameNumber(p.core.le32(column), input[64..68]);
    SameNumber(p.core.le32(lane), input[68..]);
    assert input == h0 + p.core.le32(column) + p.core.le32(lane);
  }

  lemma SameNumber(a: seq<Byte>, b: seq<Byte>)
    requires |a| == |b| && Number(a) == Number(b)
    ensures a == b
  {
    BytesOfNumber(a);
    BytesOfNumber(b);
  }

  /** The last column folded from lane 0 on: `partial[l]` covers the lanes up to l. */
  ghost predicate IsFold(xor: (Block, Block) -> Block, inst: Instance, rows: Rows, partial: seq<Block>)
    requires inst.Shaped() && ValidRows(inst, rows)
  {
    && 1 <= |partial| <= inst.lanes
    && partial[0] == rows[0][inst.laneLength - 1]
    && forall l :: 1 <= l < |partial| ==> partial[l] == xor(partial[l - 1], rows[l][inst.laneLength - 1])
  }

  lemma {:induction false} LastColumnFolded(xor: (Block, Block) -> Block, inst: Instance, rows: Rows, n: nat)
    returns (partial: seq<Block>)
    requires inst.Shaped() && ValidRows(inst, rows) && n < inst.lanes
    ensures IsFold(xor, inst, rows, partial) && |partial| == n + 1 && partial[n] == LastBlocks(xor, inst, rows, n)
  {
    if n == 0 {
      partial := [rows[0][inst.laneLength - 1]];
    } else {
      partial := LastColumnFolded(xor, inst, rows, n - 1);
      partial := partial + [xor(partial[n - 1], rows[n][inst.laneLength - 1])];
    }
  }

  /** The tag is H' of the bytes of the folded last column of the memory, filled from any that begins as it should. */
  lemma TagOfRfc<W>(p: Primitives<W>, ctx: Context, inst: Instance, start: Rows, rows: Rows)
    returns (partial: seq<Block>)
    requires ctx.Valid() && ValidateInputs(ctx) == Ok && inst == Geometry(ctx, inst.kind)
    requires inst.Shaped() && ValidRows(inst, start) && rows == Filled(p.g, inst, start)
    requires Begun(p, inst, H0(p, ctx, inst.kind), start, inst.lanes)
    ensures ValidRows(inst, rows) && IsFold(p.xor, inst, rows, partial) && |partial| == ctx.lanes
    ensures Tag(p, ctx, inst.kind) == p.longDigest(ctx.out.Length(), p.store(partial[ctx.lanes - 1]))
  {
    GeometryIsValid(ctx, inst.kind);
    BegunIsEnough(p, inst, H0(p, ctx, inst.kind), start);
    partial := LastColumnFolded(p.xor, inst, rows, inst.lanes - 1);
  }
}
