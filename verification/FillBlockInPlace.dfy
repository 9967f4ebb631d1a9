/**
 fill_block as the C code runs it, on arrays it overwrites: external/argon2/ref.c:39-85 and
 external/argon2/opt.c:118-157, each proved against the function of FillBlock that describes it.
 */
module FillBlockInPlace {
  import opened Layout
  import opened BlaMka
  import opened FillBlock

  /** xor_block: `target ^= source`. */
  method XorBlock<T>(o: Ops<T>, target: array<T>, source: seq<T>)
    requires |source| == target.Length
    modifies target
    ensures target[..] == Xor(o, old(target[..]), source)
  {
    for i := 0 to target.Length
      invariant forall k :: 0 <= k < i ==> target[k] == o.xor(old(target[k]), source[k])
      invariant forall k :: i <= k < target.Length ==> target[k] == old(target[k])
    {
      target[i] := o.xor(target[i], source[i]);
    }
  }

  /** Stores the arguments of a round macro back where they came from. */
  method Store<T>(v: array<T>, p: seq<nat>, x: seq<T>)
    requires |p| == |x| && InRange(p, v.Length)
    modifies v
    ensures v[..] == Scatter(old(v[..]), p, x)
  {
    for i := 0 to |p|
      invariant v[..] == Scatter(old(v[..]), p[..i], x[..i])
    {
      v[p[i]] := x[i];
      assert p[..i + 1][..i] == p[..i] && x[..i + 1][..i] == x[..i];
    }
    assert p[..|p|] == p && x[..|x|] == x;
  }

  /** copy_block. */
  method Copy<T>(target: array<T>, source: seq<T>)
    requires |source| == target.Length
    modifies target
    ensures target[..] == source
  {
    forall k | 0 <= k < target.Length {
      target[k] := source[k];
    }
  }

  /** A local block with given contents. */
  method Clone<T>(source: seq<T>) returns (a: array<T>)
    ensures fresh(a) && a[..] == source
  {
    a := new T[|source|](k requires 0 <= k < |source| => source[k]);
  }

  lemma WordsInRange(i: nat)
    requires i < 8
    ensures InRange(ColumnWords(i), 128) && InRange(RowWords(i), 128)
  {
  }

  /** BLAKE2_ROUND_NOMSG on sixteen words of the array. */
  method RoundInPlace<T>(o: Ops<T>, v: array<T>, p: seq<nat>)
    requires |p| == 16 && InRange(p, v.Length)
    modifies v
    ensures v[..] == RoundAt(o, old(v[..]), p)
  {
    Store(v, p, Listed(Round(o, Gather(v[..], p))));
  }

  method ColumnRoundsInPlace<T>(o: Ops<T>, v: array<T>)
    requires v.Length == 128
    modifies v
    ensures v[..] == ColumnRounds(o, old(v[..]), 8)
  {
    for i := 0 to 8
      invariant v[..] == ColumnRounds(o, old(v[..]), i)
    {
      WordsInRange(i);
      RoundInPlace(o, v, ColumnWords(i));
    }
  }

  method RowRoundsInPlace<T>(o: Ops<T>, v: array<T>)
    requires v.Length == 128
    modifies v
    ensures v[..] == RowRounds(o, old(v[..]), 8)
  {
    for i := 0 to 8
      invariant v[..] == RowRounds(o, old(v[..]), i)
    {
      WordsInRange(i);
      RoundInPlace(o, v, RowWords(i));
    }
  }

  /** fill_block, from the blocks it goes through. */
  lemma CompressInStages<T>(o: Ops<T>, prev: seq<T>, reference: seq<T>, overlay: Overlay<seq<T>>, blockR: seq<T>,
                            tmp: seq<T>)
    requires |prev| == |reference| == 128 && Block128(overlay)
    requires blockR == Xor(o, reference, prev)
    requires tmp == if overlay.XorOver? then Xor(o, blockR, overlay.present) else blockR
    ensures Compress(o, prev, reference, overlay) == Xor(o, tmp, RowRounds(o, ColumnRounds(o, blockR, 8), 8))
  {
  }

  method FillBlockReference<T>(o: Ops<T>, prev: seq<T>, reference: seq<T>, next: array<T>, withXor: bool)
    requires |prev| == |reference| == next.Length == 128
    modifies next
    ensures next[..] == Compress(o, prev, reference, if withXor then XorOver(old(next[..])) else Overwrite)
  {
    ghost var overlay := if withXor then XorOver(next[..]) else Overwrite;
    var blockR := Clone(reference);
    XorBlock(o, blockR, prev);
    var blockTmp := Clone(blockR[..]);
    if withXor {
      XorBlock(o, blockTmp, next[..]);
    }
    CompressInStages(o, prev, reference, overlay, blockR[..], blockTmp[..]);
    ColumnRoundsInPlace(o, blockR);
    RowRoundsInPlace(o, blockR);
    Copy(next, blockTmp[..]);
    XorBlock(o, next, blockR[..]);
  }

  lemma RegistersInRange(i: nat)
    requires i < 8
    ensures InRange(ColumnRegs(i), 64) && InRange(RowRegs(i), 64)
  {
  }

  /** BLAKE2_ROUND on eight registers of the array. */
  method RegisterRoundInPlace<T>(ro: Ops<Reg<T>>, ssse3: bool, s: array<Reg<T>>, q: seq<nat>)
    requires |q| == 8 && InRange(q, s.Length)
    modifies s
    ensures s[..] == RegisterRoundAt(ro, ssse3, old(s[..]), q)
  {
    Store(s, q, ListedRegs(RegisterRound(ro, ssse3, GatherRegs(s[..], q))));
  }

  method ColumnRegisterRoundsInPlace<T>(ro: Ops<Reg<T>>, ssse3: bool, s: array<Reg<T>>)
    requires s.Length == 64
    modifies s
    ensures s[..] == ColumnRegisterRounds(ro, ssse3, old(s[..]), 8)
  {
    for i := 0 to 8
      invariant s[..] == ColumnRegisterRounds(ro, ssse3, old(s[..]), i)
    {
      RegistersInRange(i);
      RegisterRoundInPlace(ro, ssse3, s, ColumnRegs(i));
    }
  }

  method RowRegisterRoundsInPlace<T>(ro: Ops<Reg<T>>, ssse3: bool, s: array<Reg<T>>)
    requires s.Length == 64
    modifies s
    ensures s[..] == RowRegisterRounds(ro, ssse3, old(s[..]), 8)
  {
    for i := 0 to 8
      invariant s[..] == RowRegisterRounds(ro, ssse3, old(s[..]), i)
    {
      RegistersInRange(i);
      RegisterRoundInPlace(ro, ssse3, s, RowRegs(i));
    }
  }

  /** The registers end up holding the block that is stored into `next`. */
  method FillBlockRegisters<T>(ro: Ops<Reg<T>>, ssse3: bool, state: array<Reg<T>>, reference: seq<T>, next: array<T>,
                               withXor: bool)
    requires state.Length == 64 && |reference| == next.Length == 128
    modifies state, next
    ensures state[..] == CompressRegisters(ro, ssse3, old(state[..]), reference,
                                           if withXor then XorOver(old(next[..])) else Overwrite)
    ensures next[..] == Unpack(state[..])
  {
    XorBlock(ro, state, Load(reference));
    var blockXY := Clone(state[..]);
    if withXor {
      XorBlock(ro, blockXY, Load(next[..]));
    }
    ColumnRegisterRoundsInPlace(ro, ssse3, state);
    RowRegisterRoundsInPlace(ro, ssse3, state);
    XorBlock(ro, state, blockXY[..]);
    Copy(next, Unpack(state[..]));
  }
}
