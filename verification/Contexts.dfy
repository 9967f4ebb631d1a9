/**
 The input record of external/argon2/argon2.h:134-186, its validation (external/argon2/core.c:437-563), and the
 memory geometry derived from it (external/argon2/argon2.c:40-81). Pointers are 64 bits wide.
 */
module Contexts {
  import opened Words
  import opened Layout
  import opened Buffers

  const MIN_OUTLEN := 4
  const MIN_SALT_LENGTH := 8
  const MIN_MEMORY := 8
  const MIN_TIME := 1
  const MIN_LANES := 1
  const MAX_LANES := 0xFFFFFF
  const MIN_THREADS := 1
  const MAX_THREADS := 0xFFFFFF

  datatype Context = Context(
    out: Buffer,
    pwd: Buffer,
    salt: Buffer,
    secret: Buffer,
    ad: Buffer,
    tCost: u32,
    mCost: u32,
    lanes: u32,
    threads: u32,
    version: u32,
    allocateCallback: bool,
    freeCallback: bool)
  {
    /** The lengths are 32-bit numbers. */
    predicate Valid() {
      forall b | b in {out, pwd, salt, secret, ad} :: b.Length() < 0x1_0000_0000
    }
  }

  datatype Outcome =
    | Ok
    | OutputPtrNull
    | OutputTooShort
    | SaltTooShort
    | TimeTooSmall
    | MemoryTooLittle
    | LanesTooFew
    | LanesTooMany
    | PwdPtrMismatch
    | SaltPtrMismatch
    | SecretPtrMismatch
    | AdPtrMismatch
    | FreeMemoryCallbackNull
    | AllocateMemoryCallbackNull
    | ThreadsTooFew
    | ThreadsTooMany
    | EncodingFail
    | DecodingFail

  /** validate_inputs: the first check that fails. The checks that no 32-bit length can fail are not repeated here. */
  function ValidateInputs(ctx: Context): Outcome
    requires ctx.Valid()
  {
    if ctx.out.Null? then OutputPtrNull
    else if MIN_OUTLEN > ctx.out.Length() then OutputTooShort
    else if ctx.pwd.NullWithLength() then PwdPtrMismatch
    else if ctx.salt.NullWithLength() then SaltPtrMismatch
    else if MIN_SALT_LENGTH > ctx.salt.Length() then SaltTooShort
    else if ctx.secret.NullWithLength() then SecretPtrMismatch
    else if ctx.ad.NullWithLength() then AdPtrMismatch
    else if MIN_MEMORY > ctx.mCost then MemoryTooLittle
    else if ctx.mCost < Wrap32(8 * ctx.lanes) then MemoryTooLittle
    else if MIN_TIME > ctx.tCost then TimeTooSmall
    else if MIN_LANES > ctx.lanes then LanesTooFew
    else if MAX_LANES < ctx.lanes then LanesTooMany
    else if MIN_THREADS > ctx.threads then ThreadsTooFew
    else if MAX_THREADS < ctx.threads then ThreadsTooMany
    else if ctx.allocateCallback && !ctx.freeCallback then FreeMemoryCallbackNull
    else if !ctx.allocateCallback && ctx.freeCallback then AllocateMemoryCallbackNull
    else Ok
  }

  /** The bounds of the interface, in exact arithmetic and in no particular order. */
  predicate Acceptable(ctx: Context)
    requires ctx.Valid()
  {
    && ctx.out.Bytes? && |ctx.out.data| >= MIN_OUTLEN
    && ctx.salt.Bytes? && |ctx.salt.data| >= MIN_SALT_LENGTH
    && (forall b | b in {ctx.pwd, ctx.secret, ctx.ad} :: b.Null? ==> b.claimed == 0)
    && MIN_LANES <= ctx.lanes <= MAX_LANES
    && ctx.mCost >= 8 * ctx.lanes
    && ctx.tCost >= MIN_TIME
    && MIN_THREADS <= ctx.threads <= MAX_THREADS
    && (ctx.allocateCallback <==> ctx.freeCallback)
  }

  /** The test on `8 * lanes` wraps around before lanes is bounded, and yet exactly the acceptable inputs pass. */
  lemma ValidateInputsIsExact(ctx: Context)
    requires ctx.Valid()
    ensures ValidateInputs(ctx) == Ok <==> Acceptable(ctx)
  {
    if ctx.lanes <= MAX_LANES {
      assert Wrap32(8 * ctx.lanes) == 8 * ctx.lanes;
    }
  }

  /** What each code complains of, where `product` is the value that the memory cost is compared with. */
  predicate Complaint(ctx: Context, product: nat, code: Outcome) {
    match code
    case OutputPtrNull => ctx.out.Null?
    case OutputTooShort => ctx.out.Length() < 4
    case PwdPtrMismatch => ctx.pwd.Null? && ctx.pwd.claimed != 0
    case SaltPtrMismatch => ctx.salt.Null? && ctx.salt.claimed != 0
    case SaltTooShort => ctx.salt.Length() < 8
    case SecretPtrMismatch => ctx.secret.Null? && ctx.secret.claimed != 0
    case AdPtrMismatch => ctx.ad.Null? && ctx.ad.claimed != 0
    case MemoryTooLittle => ctx.mCost < 8 || ctx.mCost < product
    case TimeTooSmall => ctx.tCost == 0
    case LanesTooFew => ctx.lanes == 0
    case LanesTooMany => ctx.lanes > 0xFF_FFFF
    case ThreadsTooFew => ctx.threads == 0
    case ThreadsTooMany => ctx.threads > 0xFF_FFFF
    case FreeMemoryCallbackNull => ctx.allocateCallback && !ctx.freeCallback
    case AllocateMemoryCallbackNull => ctx.freeCallback && !ctx.allocateCallback
    case _ => false
  }

  /** The order in which complaints are made. */
  function Precedence(code: Outcome): nat {
    match code
    case OutputPtrNull => 1 case OutputTooShort => 2 case PwdPtrMismatch => 3 case SaltPtrMismatch => 4
    case SaltTooShort => 5 case SecretPtrMismatch => 6 case AdPtrMismatch => 7 case MemoryTooLittle => 8
    case TimeTooSmall => 9 case LanesTooFew => 10 case LanesTooMany => 11 case ThreadsTooFew => 12
    case ThreadsTooMany => 13 case FreeMemoryCallbackNull => 14 case AllocateMemoryCallbackNull => 15
    case _ => 16
  }

  /** The code is justified and no complaint goes before it; there is none at all when it is Ok. */
  ghost predicate IsFirstComplaint(ctx: Context, product: nat, code: Outcome) {
    && (code == Ok || Complaint(ctx, product, code))
    && forall other :: Complaint(ctx, product, other) ==> Precedence(code) <= Precedence(other)
  }

  /** A refused context gets the first complaint there is, if the product is taken as the code computes it. */
  lemma FirstComplaint(ctx: Context)
    requires ctx.Valid()
    ensures IsFirstComplaint(ctx, 8 * ctx.lanes % 0x1_0000_0000, ValidateInputs(ctx))
  {
    assert Wrap32(8 * ctx.lanes) == 8 * ctx.lanes % 0x1_0000_0000;
  }

  /**
   In exact arithmetic it is the first complaint unless the product wraps below the memory cost: then too little
   memory goes unnoticed and something behind it is reported, in the end the number of lanes.
   */
  lemma FirstComplaintIsExactIff(ctx: Context)
    requires ctx.Valid()
    ensures IsFirstComplaint(ctx, 8 * ctx.lanes, ValidateInputs(ctx))
            <==> (ctx.mCost < 8 || ctx.mCost < 8 * ctx.lanes % 0x1_0000_0000 || 8 * ctx.lanes <= ctx.mCost
                  || exists code :: Complaint(ctx, 0, code) && Precedence(code) < Precedence(MemoryTooLittle))
  {
    FirstComplaint(ctx);
    var product := 8 * ctx.lanes % 0x1_0000_0000;
    forall code, p: nat | code != MemoryTooLittle
      ensures Complaint(ctx, p, code) == Complaint(ctx, 0, code)
    {
    }
    assert Complaint(ctx, 8 * ctx.lanes, MemoryTooLittle) <==> ctx.mCost < 8 || ctx.mCost < 8 * ctx.lanes;
  }

  /** Steps 1 and 2 of argon2_ctx. */
  function Geometry(ctx: Context, kind: Kind): Instance
    requires ctx.Valid() && ValidateInputs(ctx) == Ok
  {
    var atLeast := Wrap32(2 * SYNC_POINTS * ctx.lanes);
    var memoryBlocks := if ctx.mCost < atLeast then atLeast else ctx.mCost;
    var columns := Wrap32(ctx.lanes * SYNC_POINTS);
    ValidateInputsIsExact(ctx);
    var segmentLength := memoryBlocks / columns;
    Instance(ctx.version, ctx.tCost, Wrap32(segmentLength * columns), segmentLength,
             Wrap32(segmentLength * SYNC_POINTS), ctx.lanes,
             if ctx.threads > ctx.lanes then ctx.lanes else ctx.threads, kind)
  }

  lemma RoundedDown(m: nat, q: nat)
    requires 0 < q && 2 * q <= m
    ensures 2 <= m / q
    ensures 0 <= m / q * q <= m < m / q * q + q
  {
    assert (m / q - 1) * q > 0;
  }

  /** Segments of s = m / (4 * lanes) blocks use all of m but a remainder below 4 * lanes. */
  lemma LanesOfFour(m: nat, lanes: nat, s: nat)
    requires 1 <= lanes && 8 * lanes <= m && s == m / (4 * lanes)
    ensures 2 <= s
    ensures 4 * s <= s * (4 * lanes) <= m < s * (4 * lanes) + 4 * lanes
    ensures s * (4 * lanes) == lanes * (4 * s) == Turns(lanes, 4 * s)
  {
    RoundedDown(m, 4 * lanes);
    assert s * (4 * lanes) == lanes * (4 * s);
    TurnsIsProduct(lanes, 4 * s);
    ProductAtLeast(lanes, 4 * s);
  }

  /**
   The memory of a validated context splits into lanes of four segments of at least two blocks, and loses less than
   4 * lanes blocks. The time cost is the number of passes, version and type are those asked for, and there are as
   many threads as asked for but no more than lanes.
   */
  lemma GeometryIsValid(ctx: Context, kind: Kind)
    requires ctx.Valid() && ValidateInputs(ctx) == Ok
    ensures var inst := Geometry(ctx, kind);
            && inst.Valid()
            && inst.memoryBlocks == inst.lanes * inst.laneLength
            && inst.memoryBlocks <= ctx.mCost < inst.memoryBlocks + 4 * ctx.lanes
            && inst.lanes == ctx.lanes
            && inst.passes == ctx.tCost && inst.version == ctx.version && inst.kind == kind
            && inst.threads == (if ctx.threads > ctx.lanes then ctx.lanes else ctx.threads)
  {
    ValidateInputsIsExact(ctx);
    LanesOfFour(ctx.mCost, ctx.lanes, ctx.mCost / (4 * ctx.lanes));
  }
}
