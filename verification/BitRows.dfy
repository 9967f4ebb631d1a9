/** Bytes as rows of bits, and the numbers that fit a width. */
module BitRows {
  import opened Words
  import opened BitOps

  /** The rows of bits that `f` makes of the elements, one after the other. */
  function Flatten<T>(f: T -> seq<bool>, s: seq<T>): seq<bool> {
    if s == [] then [] else Flatten(f, s[..|s| - 1]) + f(s[|s| - 1])
  }

  lemma FlattenAppend<T>(f: T -> seq<bool>, s: seq<T>, x: T)
    ensures Flatten(f, s + [x]) == Flatten(f, s) + f(x)
  {
    assert (s + [x])[..|s|] == s;
  }

  lemma Associative(a: seq<bool>, b: seq<bool>, c: seq<bool>)
    ensures (a + b) + c == a + (b + c)
  {
  }

  lemma {:induction false} FlattenConcat<T>(f: T -> seq<bool>, s: seq<T>, t: seq<T>)
    ensures Flatten(f, s + t) == Flatten(f, s) + Flatten(f, t)
  {
    if t == [] {
      assert s + t == s;
    } else {
      var front, last := t[..|t| - 1], t[|t| - 1];
      FlattenConcat(f, s, front);
      assert s + t == (s + front) + [last];
      FlattenAppend(f, s + front, last);
      Associative(Flatten(f, s), Flatten(f, front), f(last));
    }
  }

  lemma FlattenOne<T>(f: T -> seq<bool>, d: T)
    ensures Flatten(f, [d]) == f(d)
  {
    FlattenAppend(f, [], d);
    assert [d] == [] + [d];
  }

  /** A byte, most significant bit first. */
  function Octet(): u8 -> seq<bool> {
    (x: u8) => Bits(x, 8)
  }

  function BytesBits(s: seq<u8>): (b: seq<bool>) {
    Flatten(Octet(), s)
  }

  lemma BytesBitsAppend(s: seq<u8>, x: u8)
    ensures BytesBits(s + [x]) == BytesBits(s) + Bits(x, 8)
  {
    FlattenAppend(Octet(), s, x);
  }

  lemma {:induction false} FlattenLength<T>(f: T -> seq<bool>, s: seq<T>, n: nat)
    requires forall x :: x in s ==> |f(x)| == n
    ensures |Flatten(f, s)| == n * |s|
  {
    if s != [] {
      FlattenLength(f, s[..|s| - 1], n);
      assert n * (|s| - 1) + n == n * |s|;
    }
  }

  /** Rows of one length that agree come from elements that agree under `f`. */
  lemma {:induction false} FlattenInjective<T>(f: T -> seq<bool>, s: seq<T>, t: seq<T>, n: nat)
    requires |s| == |t| && forall x :: x in s + t ==> |f(x)| == n
    requires Flatten(f, s) == Flatten(f, t)
    ensures forall i :: 0 <= i < |s| ==> f(s[i]) == f(t[i])
  {
    if s != [] {
      var k := |s| - 1;
      SameEnds(Flatten(f, s[..k]), f(s[k]), Flatten(f, t[..k]), f(t[k]));
      FlattenInjective(f, s[..k], t[..k], n);
    }
  }

  lemma SameEnds(a: seq<bool>, x: seq<bool>, b: seq<bool>, y: seq<bool>)
    requires a + x == b + y && |x| == |y|
    ensures a == b && x == y
  {
    assert a == (a + x)[..|a|] && x == (a + x)[|a|..];
    assert b == (b + y)[..|b|] && y == (b + y)[|b|..];
  }

  lemma BytesBitsLength(s: seq<u8>)
    ensures |BytesBits(s)| == 8 * |s|
  {
    FlattenLength(Octet(), s, 8);
  }

  lemma BytesBitsInjective(s: seq<u8>, t: seq<u8>)
    requires BytesBits(s) == BytesBits(t)
    ensures s == t
  {
    BytesBitsLength(s);
    BytesBitsLength(t);
    FlattenInjective(Octet(), s, t, 8);
    forall i | 0 <= i < |s|
      ensures s[i] == t[i]
    {
      SameOctet(s[i], t[i]);
    }
  }

  lemma SameOctet(x: u8, y: u8)
    requires Octet()(x) == Octet()(y)
    ensures x == y
  {
    WidthsOfC(x);
    WidthsOfC(y);
    SameRow(x, y, 8);
  }

  lemma SameRow(x: nat, y: nat, n: nat)
    requires Fits(x, n) && Fits(y, n) && Bits(x, n) == Bits(y, n)
    ensures x == y
  {
    ValueOfBits(x, n);
    ValueOfBits(y, n);
    LowOfSmall(x, n);
    LowOfSmall(y, n);
  }

  lemma {:induction false} ShlFits(x: nat, n: nat, k: nat)
    requires Fits(x, n)
    ensures Fits(Shl(x, k), n + k)
    decreases k
  {
    if k != 0 {
      ShlFits(x, n, k - 1);
    }
  }

  lemma {:induction false} FitsBelow(x: nat, n: nat)
    ensures Fits(x, n) <==> x < Pow2(n)
    decreases n
  {
    if n != 0 {
      FitsBelow(x / 2, n - 1);
    }
  }

  lemma {:induction false} ShrFits(x: nat, n: nat, k: nat)
    requires Fits(x, n + k)
    ensures Fits(Shr(x, k), n)
    decreases k
  {
    if k != 0 {
      ShrFits(x / 2, n, k - 1);
    }
  }

  lemma ByteMore(n: nat)
    ensures Pow2(n + 8) == 0x100 * Pow2(n)
  {
    assert Pow2(n + 4) == 0x10 * Pow2(n) by {
      assert Pow2(n + 2) == 4 * Pow2(n);
    }
    assert Pow2(n + 6) == 4 * Pow2(n + 4);
  }

  lemma Power2Of64()
    ensures Pow2(8) == 0x100 && Pow2(64) == 0x1_0000_0000_0000_0000
  {
    ByteMore(0);
    ByteMore(8);
    ByteMore(16);
    ByteMore(24);
    ByteMore(32);
    ByteMore(40);
    ByteMore(48);
    ByteMore(56);
  }

  /** A value of 64 bits is a uint64_t, and one of 8 bits a byte. */
  lemma WidthsOfC(x: nat)
    ensures Fits(x, 64) <==> x < 0x1_0000_0000_0000_0000
    ensures Fits(x, 8) <==> x < 0x100
  {
    FitsBelow(x, 64);
    FitsBelow(x, 8);
    Power2Of64();
  }
}
