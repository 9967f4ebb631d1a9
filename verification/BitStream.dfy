/** The big-endian bit writer and reader of src/blockchain/Blockchain.cpp:40-45, 58-257. */
module BitStream {
  import opened Words
  import opened BitOps
  import opened BitRows

  const ACCUM_BITS: nat := 64

  /** Making room in an accumulator and putting the high bits of a value there, as both loops do. */
  lemma Accumulate(accum: nat, n: nat, value: nat, nbits: nat, nb: nat)
    requires Fits(accum, n) && Fits(value, nbits) && nb <= nbits && n + nb <= 64
    ensures var shifted := Shl(accum, nb);
            var accum' := Or(shifted, Shr(value, nbits - nb));
            && shifted < 0x1_0000_0000_0000_0000
            && accum' < 0x1_0000_0000_0000_0000
            && Fits(accum', n + nb)
            && Bits(accum', n + nb) + Bits(value, nbits - nb) == Bits(accum, n) + Bits(value, nbits)
  {
    var high, shifted := Shr(value, nbits - nb), Shl(accum, nb);
    ShrFits(value, nb, nbits - nb);
    OrIntoShifted(accum, high, nb);
    JoinBits(accum, high, n, nb);
    SplitBits(value, nb, nbits - nb);
    JoinFits(accum, high, n, nb);
    ShlFits(accum, n, nb);
    FitsMore(shifted, n + nb, 64);
    FitsMore(shifted + high, n + nb, 64);
    WidthsOfC(shifted);
    WidthsOfC(shifted + high);
    assert Bits(accum, n) + (Bits(high, nb) + Bits(value, nbits - nb))
           == (Bits(accum, n) + Bits(high, nb)) + Bits(value, nbits - nb);
  }

  lemma {:induction false} JoinFits(x: nat, y: nat, m: nat, n: nat)
    requires Fits(x, m) && Fits(y, n)
    ensures Fits(Shl(x, n) + y, m + n)
    decreases n
  {
    if n != 0 {
      JoinFits(x, y / 2, m, n - 1);
    }
  }

  /** Taking the m high bits of m + n out of an accumulator and masking them away. */
  lemma Detach(accum: nat, m: nat, n: nat)
    requires Fits(accum, m + n)
    ensures var high, low := Shr(accum, n), And(accum, Mask(n));
            && Fits(high, m) && Fits(low, n)
            && Bits(accum, m + n) == Bits(high, m) + Bits(low, n)
  {
    ShrFits(accum, m, n);
    AndMask(accum, n);
    LowFits(accum, n);
    SplitBits(accum, m, n);
    BitsOfLow(accum, n, n);
  }

  /** The byte that leaves a full accumulator. */
  lemma DrainByte(accum: u64, n: nat)
    requires 8 <= n && Fits(accum, n)
    ensures var result := And(Shr(accum, n - 8), Mask(8));
            && result < 0x100
            && And(accum, Mask(n - 8)) <= accum
            && Fits(And(accum, Mask(n - 8)), n - 8)
            && Bits(accum, n) == Bits(result, 8) + Bits(And(accum, Mask(n - 8)), n - 8)
  {
    Detach(accum, 8, n - 8);
    var high := Shr(accum, n - 8);
    WidthsOfC(high);
    AndMask(high, 8);
    LowOfSmall(high, 8);
    LowBelow(accum, n - 8);
  }

  /** Moving that byte to the output keeps all the bits. */
  lemma DrainKeeps(output: seq<u8>, accum: u64, n: nat, result: u8, rest: u64)
    requires 8 <= n && Fits(accum, n)
    requires result == And(Shr(accum, n - 8), Mask(8)) && rest == And(accum, Mask(n - 8))
    ensures Fits(rest, n - 8)
    ensures BytesBits(output + [result]) + Bits(rest, n - 8) == BytesBits(output) + Bits(accum, n)
  {
    DrainByte(accum, n);
    BytesBitsAppend(output, result);
    Associative(BytesBits(output), Bits(result, 8), Bits(rest, n - 8));
  }

  /** The padded byte, at the end of the output. */
  lemma FlushKeeps(output: seq<u8>, accum: u64, n: nat, result: u8)
    requires 0 < n < 8 && Fits(accum, n) && result == Shl(And(accum, Mask(n)), 8 - n)
    ensures BytesBits(output + [result]) == BytesBits(output) + Bits(accum, n) + Bits(0, 8 - n)
  {
    FlushByte(accum, n);
    BytesBitsAppend(output, result);
    Associative(BytesBits(output), Bits(accum, n), Bits(0, 8 - n));
  }

  /** The byte that flush pads. */
  lemma FlushByte(accum: u64, n: nat)
    requires 0 < n < 8 && Fits(accum, n)
    ensures var result := Shl(And(accum, Mask(n)), 8 - n);
            result < 0x100 && Bits(result, 8) == Bits(accum, n) + Bits(0, 8 - n)
  {
    AndMask(accum, n);
    LowOfSmall(accum, n);
    ZeroFits(8 - n);
    JoinBits(accum, 0, n, 8 - n);
    ShlFits(accum, n, 8 - n);
    WidthsOfC(Shl(accum, 8 - n));
  }

  /** The value, cut to the bits that are still to be written. */
  lemma CutValue(value: u64, left: nat)
    ensures var v := And(value, Mask(left));
            v <= value && Fits(v, left) && Bits(v, left) == Bits(value, left)
  {
    AndMask(value, left);
    LowFits(value, left);
    BitsOfLow(value, left, left);
    LowBelow(value, left);
  }

  class BitWriter {
    var output: seq<u8>
    var accum: u64
    var n: nat

    /** Fewer than eight bits are pending between calls. */
    ghost predicate Valid()
      reads this
    {
      n < 8 && Fits(accum, n)
    }

    ghost function Written(): seq<bool>
      reads this
    {
      BytesBits(output) + Bits(accum, n)
    }

    constructor ()
      ensures Valid() && output == [] && Written() == []
    {
      output, accum, n := [], 0, 0;
    }

    /** One whole byte leaves the accumulator. */
    method DrainOne()
      requires 8 <= n && Fits(accum, n)
      modifies this
      ensures n == old(n) - 8 && Fits(accum, n) && Written() == old(Written())
    {
      DrainByte(accum, n);
      var result: u8, rest: u64 := And(Shr(accum, n - 8), Mask(8)), And(accum, Mask(n - 8));
      DrainKeeps(output, accum, n, result, rest);
      output := output + [result];
      n := n - 8;
      accum := rest;
    }

    /** The inner loop: whole bytes leave the accumulator. */
    method Drain()
      requires Fits(accum, n)
      modifies this
      ensures Valid() && Written() == old(Written())
    {
      while n >= 8
        invariant Fits(accum, n) && Written() == old(Written())
      {
        DrainOne();
      }
    }

    /** As many of the high bits of the value as the accumulator has room for. */
    method Take(left: nat, value: u64) returns (nb: nat)
      requires Valid() && Fits(value, left) && 0 < left < 64
      modifies `accum, `n
      ensures 0 < nb <= left && Fits(accum, n)
      ensures Written() + Bits(value, left - nb) == old(Written()) + Bits(value, left)
    {
      nb := if ACCUM_BITS - n < left then ACCUM_BITS - n else left;
      Accumulate(accum, n, value, left, nb);
      Associative(BytesBits(output), Bits(accum, n), Bits(value, left));
      accum := Wrap64(Shl(accum, nb));
      accum := Or(accum, Shr(value, left - nb));
      n := n + nb;
      Associative(BytesBits(output), Bits(accum, n), Bits(value, left - nb));
    }

    method Write(nbits: nat, value: u64)
      requires Valid() && nbits < 64
      modifies this
      ensures Valid() && Written() == old(Written()) + Bits(value, nbits)
    {
      var left: nat, v: u64 := nbits, value;
      while left > 0
        invariant Valid() && left < 64
        invariant Written() + Bits(v, left) == old(Written()) + Bits(value, nbits)
      {
        CutValue(v, left);
        v := And(v, Mask(left));
        var nb := Take(left, v);
        left := left - nb;
        Drain();
      }
    }

    method FlushPending()
      requires Valid() && n > 0
      modifies this
      ensures n == accum == 0
      ensures BytesBits(output) == old(Written()) + Bits(0, 8 - old(n))
    {
      FlushByte(accum, n);
      var result: u8 := Shl(And(accum, Mask(n)), 8 - n) % 0x100;
      FlushKeeps(output, accum, n, result);
      output := output + [result];
      n, accum := 0, 0;
    }

    /** Pads the last byte with zero bits. */
    method Flush()
      requires Valid()
      modifies this
      ensures Valid() && n == 0
      ensures BytesBits(output) == old(Written()) + Bits(0, if old(n) == 0 then 0 else 8 - old(n))
    {
      if n > 0 {
        FlushPending();
      }
    }
  }

  lemma {:induction false} LowBelow(x: nat, n: nat)
    ensures And(x, Mask(n)) == Low(x, n) <= x
    decreases n
  {
    AndMask(x, n);
    LowAtMost(x, n);
  }

  lemma {:induction false} LowAtMost(x: nat, n: nat)
    ensures Low(x, n) <= x
    decreases n
  {
    if n != 0 {
      LowAtMost(x / 2, n - 1);
    }
  }

  // ----- Reading -----

  lemma {:induction false} ShlSum(x: nat, d: nat, n: nat)
    ensures Shl(x, n + 8) + Shl(d, n) == Shl(Shl(x, 8) + d, n)
  {
    if n != 0 {
      ShlSum(x, d, n - 1);
    }
  }

  /** ORing a byte into a place that is free. */
  lemma OrByte(x: nat, d: u8, n: nat)
    ensures Or(Shl(x, n + 8), Shl(d, n)) == Shl(Shl(x, 8) + d, n)
  {
    WidthsOfC(d);
    ShlFits(d, 8, n);
    OrIntoShifted(x, Shl(d, n), n + 8);
    ShlSum(x, d, n);
  }

  /** A byte behind n bits. */
  lemma AppendByte(x: nat, d: u8, n: nat)
    requires Fits(x, n)
    ensures Fits(Shl(x, 8) + d, n + 8)
    ensures Bits(Shl(x, 8) + d, n + 8) == Bits(x, n) + Bits(d, 8)
  {
    WidthsOfC(d);
    JoinBits(x, d, n, 8);
    JoinFits(x, d, n, 8);
  }

  /** The 32-bit word made of four bytes. */
  function Word(d0: u8, d1: u8, d2: u8, d3: u8): nat {
    Or(Or(Or(Shl(d0, 24), Shl(d1, 16)), Shl(d2, 8)), Shl(d3, 0))
  }

  /** `x` has the n bits `b`. */
  predicate Holds(x: nat, n: nat, b: seq<bool>) {
    Fits(x, n) && Bits(x, n) == b
  }

  lemma OneMoreByte(x: nat, n: nat, b: seq<bool>, d: u8, y: nat)
    requires Holds(x, n, b) && y == Shl(x, 8) + d
    ensures Holds(y, n + 8, b + Octet()(d))
  {
    AppendByte(x, d, n);
  }

  lemma {:induction false} JoinedBits(d: seq<u8>, x: seq<nat>, k: nat)
    requires |d| == |x| > k && x[0] == d[0] && forall i :: 1 <= i <= k ==> x[i] == Shl(x[i - 1], 8) + d[i]
    ensures Holds(x[k], 8 * k + 8, Flatten(Octet(), d[..k + 1]))
  {
    if k == 0 {
      WidthsOfC(d[0]);
      FlattenOne(Octet(), d[0]);
      assert d[..1] == [d[0]];
    } else {
      JoinedBits(d, x, k - 1);
      OneMoreByte(x[k - 1], 8 * k, Flatten(Octet(), d[..k]), d[k], x[k]);
      FlattenAppend(Octet(), d[..k], d[k]);
      assert d[..k + 1] == d[..k] + [d[k]];
    }
  }

  /** Shifting the bytes apart and joining them is the same as appending one after the other. */
  lemma WordIsAppended(d0: u8, d1: u8, d2: u8, d3: u8, x1: nat, x2: nat, w: nat)
    requires x1 == Shl(d0, 8) + d1 && x2 == Shl(x1, 8) + d2 && w == Shl(x2, 8) + d3
    ensures Word(d0, d1, d2, d3) == w
  {
    assert Or(Shl(d0, 24), Shl(d1, 16)) == Shl(x1, 16) by {
      OrByte(d0, d1, 16);
    }
    assert Or(Shl(x1, 16), Shl(d2, 8)) == Shl(x2, 8) by {
      OrByte(x1, d2, 8);
    }
    assert Or(Shl(x2, 8), Shl(d3, 0)) == Shl(w, 0) by {
      OrByte(x2, d3, 0);
    }
  }

  lemma WholeWord(d: seq<u8>, w: nat)
    requires |d| == 4 && Holds(w, 32, Flatten(Octet(), d[..4]))
    ensures Fits(w, 32) && w < 0x1_0000_0000_0000_0000 && Bits(w, 32) == BytesBits(d)
  {
    assert d[..4] == d;
    FitsMore(w, 32, 64);
    WidthsOfC(w);
  }

  lemma WordBits(d0: u8, d1: u8, d2: u8, d3: u8)
    ensures var w := Word(d0, d1, d2, d3);
            Fits(w, 32) && w < 0x1_0000_0000_0000_0000 && Bits(w, 32) == BytesBits([d0, d1, d2, d3])
  {
    var x1 := Shl(d0, 8) + d1;
    var x2 := Shl(x1, 8) + d2;
    var w := Shl(x2, 8) + d3;
    WordIsAppended(d0, d1, d2, d3, x1, x2, w);
    JoinedBits([d0, d1, d2, d3], [d0, x1, x2, w], 3);
    WholeWord([d0, d1, d2, d3], w);
  }

  lemma WordAhead(data: seq<u8>, pos: nat)
    requires pos + 4 <= |data|
    ensures var w := Word(data[pos], data[pos + 1], data[pos + 2], data[pos + 3]);
            && Fits(w, 32) && w < 0x1_0000_0000_0000_0000
            && BytesBits(data[pos..]) == Bits(w, 32) + BytesBits(data[pos + 4..])
  {
    var word := [data[pos], data[pos + 1], data[pos + 2], data[pos + 3]];
    WordBits(data[pos], data[pos + 1], data[pos + 2], data[pos + 3]);
    assert data[pos..] == word + data[pos + 4..];
    FlattenConcat(Octet(), word, data[pos + 4..]);
  }

  lemma ByteAhead(data: seq<u8>, pos: nat)
    requires pos < |data|
    ensures Fits(data[pos], 8)
    ensures BytesBits(data[pos..]) == Bits(data[pos], 8) + BytesBits(data[pos + 1..])
  {
    WidthsOfC(data[pos]);
    FlattenOne(Octet(), data[pos]);
    assert data[pos..] == [data[pos]] + data[pos + 1..];
    FlattenConcat(Octet(), [data[pos]], data[pos + 1..]);
  }

  class BitReader {
    const data: seq<u8>
    var pos: nat
    var len: nat
    var accum: u64
    var n: nat

    ghost predicate Valid()
      reads this
    {
      pos + len == |data| && n <= 32 && Fits(accum, n)
    }

    ghost function Remaining(): seq<bool>
      requires Valid()
      reads this
    {
      Bits(accum, n) + BytesBits(data[pos..])
    }

    constructor (data: seq<u8>)
      ensures Valid() && this.data == data && Remaining() == BytesBits(data)
    {
      this.data := data;
      pos, len, accum, n := 0, |data|, 0, 0;
      assert data[0..] == data;
    }

    predicate Eof()
      reads this
    {
      len == 0 && n == 0
    }

    lemma EofMeansEmpty()
      requires Valid()
      ensures Eof() <==> Remaining() == []
    {
      BytesBitsLength(data[pos..]);
    }

    /** The next four bytes, or one byte when no more than four are left. */
    method Refill()
      requires Valid() && n == 0 && len > 0
      modifies `pos, `len, `accum, `n
      ensures Valid() && n > 0 && Remaining() == old(Remaining())
    {
      if len > 4 {
        WordAhead(data, pos);
        accum := Word(data[pos], data[pos + 1], data[pos + 2], data[pos + 3]);
        pos, len, n := pos + 4, len - 4, n + 32;
      } else {
        ByteAhead(data, pos);
        accum := data[pos];
        pos, len, n := pos + 1, len - 1, n + 8;
      }
    }

    /** The high bits of the accumulator move to the end of `ret`. */
    method Fetch(ret: u64, k: nat, left: nat) returns (ret': u64, toread: nat)
      requires Valid() && 0 < n && Fits(ret, k) && k + left < 32 && 0 < left
      modifies `accum, `n
      ensures Valid() && 0 < toread <= left && Fits(ret', k + toread)
      ensures Bits(ret', k + toread) + Remaining() == Bits(ret, k) + old(Remaining())
    {
      toread := if n < left then n else left;
      Accumulate(ret, k, accum, n, toread);
      CutValue(accum, n - toread);
      ghost var rest := BytesBits(data[pos..]);
      Associative(Bits(ret, k), Bits(accum, n), rest);
      ret' := Wrap64(Shl(ret, toread));
      ret' := Or(ret', Shr(accum, n - toread));
      Associative(Bits(ret', k + toread), Bits(accum, n - toread), rest);
      n := n - toread;
      accum := And(accum, Mask(n));
    }

    /** The next bits as a number, or 0 and nothing left when there are too few. */
    method Read(nbits: nat) returns (ret: u64)
      requires Valid() && nbits < 32
      modifies `pos, `len, `accum, `n
      ensures Valid()
      ensures nbits <= |old(Remaining())| ==>
                Bits(ret, nbits) == old(Remaining())[..nbits] && Fits(ret, nbits)
                && Remaining() == old(Remaining())[nbits..]
      ensures nbits > |old(Remaining())| ==> ret == 0 && Remaining() == []
    {
      ret := 0;
      var left := nbits;
      ZeroFits(0);
      while left > 0
        invariant Valid() && 0 <= left <= nbits && Fits(ret, nbits - left)
        invariant Bits(ret, nbits - left) + Remaining() == old(Remaining())
      {
        if n == 0 {
          if len == 0 {
            return 0;
          }
          Refill();
        }
        var toread;
        ret, toread := Fetch(ret, nbits - left, left);
        left := left - toread;
      }
    }
  }
}
