/**
 The C operators on unsigned numbers, bit by bit, and numbers as rows of bits. Everything is by recursion on the
 bits, so that no proof needs a product or a power of two.
 */
module BitOps {
  import opened Words

  // ----- Operators -----

  function Bit(b: bool): (r: nat)
    ensures r < 2
  {
    if b then 1 else 0
  }

  function Shl(x: nat, n: nat): nat {
    if n == 0 then x else 2 * Shl(x, n - 1)
  }

  function Shr(x: nat, n: nat): nat {
    if n == 0 then x else Shr(x / 2, n - 1)
  }

  function And(a: nat, b: nat): nat
    decreases a, b
  {
    if a == 0 || b == 0 then 0 else Bit(a % 2 == 1 && b % 2 == 1) + 2 * And(a / 2, b / 2)
  }

  function Or(a: nat, b: nat): nat
    decreases a, b
  {
    if a == 0 then b else if b == 0 then a else Bit(a % 2 == 1 || b % 2 == 1) + 2 * Or(a / 2, b / 2)
  }

  function Xor(a: nat, b: nat): nat
    decreases a + b
  {
    if a == 0 && b == 0 then 0 else Bit(a % 2 != b % 2) + 2 * Xor(a / 2, b / 2)
  }

  /** The low n bits. */
  function Low(x: nat, n: nat): nat {
    if n == 0 then 0 else x % 2 + 2 * Low(x / 2, n - 1)
  }

  /** n ones. */
  function Ones(n: nat): nat {
    if n == 0 then 0 else 2 * Ones(n - 1) + 1
  }

  lemma {:induction false} OnesBelowPower(n: nat)
    ensures Shl(1, n) == Ones(n) + 1
  {
    if n != 0 {
      OnesBelowPower(n - 1);
    }
  }

  /** BITMASK: (one << n) - one. */
  function Mask(n: nat): (m: nat)
    ensures m == Ones(n)
  {
    OnesBelowPower(n);
    Shl(1, n) - 1
  }

  lemma {:induction false} AndOnes(x: nat, n: nat)
    ensures And(x, Ones(n)) == Low(x, n)
    decreases n
  {
    if n != 0 {
      AndOnes(x / 2, n - 1);
      ZeroFits(n);
      LowOfSmall(0, n);
    }
  }

  /** The bits that the mask keeps are the low n bits, that is, the remainder by 2^n. */
  lemma AndMask(x: nat, n: nat)
    ensures And(x, Mask(n)) == Low(x, n) == x % Pow2(n)
  {
    AndOnes(x, n);
    LowIsMod(x, n);
  }

  /** x < 2^n, said without the power. */
  predicate Fits(x: nat, n: nat) {
    Shr(x, n) == 0
  }

  lemma {:induction false} ZeroFits(n: nat)
    ensures Fits(0, n)
  {
    if n != 0 {
      ZeroFits(n - 1);
    }
  }

  lemma {:induction false} LowOfSmall(x: nat, n: nat)
    requires Fits(x, n)
    ensures Low(x, n) == x
    decreases n
  {
    if n != 0 {
      LowOfSmall(x / 2, n - 1);
    }
  }

  lemma {:induction false} LowFits(x: nat, n: nat)
    ensures Fits(Low(x, n), n)
    decreases n
  {
    if n != 0 {
      LowFits(x / 2, n - 1);
    }
  }

  lemma {:induction false} FitsMore(x: nat, n: nat, m: nat)
    requires Fits(x, n) && n <= m
    ensures Fits(x, m)
    decreases m
  {
    if n == 0 {
      if m != 0 {
        FitsMore(x, 0, m - 1);
      }
    } else {
      FitsMore(x / 2, n - 1, m - 1);
    }
  }

  /** ORing into bits that a shift has cleared is adding. */
  lemma {:induction false} OrIntoShifted(x: nat, y: nat, n: nat)
    requires Fits(y, n)
    ensures Or(Shl(x, n), y) == Shl(x, n) + y
    decreases n
  {
    if n != 0 {
      OrIntoShifted(x, y / 2, n - 1);
    }
  }

  // ----- Bits -----

  /** The low n bits of a number, most significant first. */
  function Bits(x: nat, n: nat): (b: seq<bool>)
    ensures |b| == n
  {
    if n == 0 then [] else Bits(x / 2, n - 1) + [x % 2 == 1]
  }

  function Value(b: seq<bool>): nat {
    if b == [] then 0 else 2 * Value(b[..|b| - 1]) + Bit(b[|b| - 1])
  }

  lemma {:induction false} ValueOfBits(x: nat, n: nat)
    ensures Value(Bits(x, n)) == Low(x, n)
    decreases n
  {
    if n != 0 {
      ValueOfBits(x / 2, n - 1);
      assert Bits(x, n)[..n - 1] == Bits(x / 2, n - 1);
    }
  }

  lemma {:induction false} BitsOfValue(b: seq<bool>)
    ensures Bits(Value(b), |b|) == b
  {
    if b != [] {
      BitsOfValue(b[..|b| - 1]);
    }
  }

  lemma {:induction false} ValueFits(b: seq<bool>)
    ensures Fits(Value(b), |b|)
  {
    if b != [] {
      ValueFits(b[..|b| - 1]);
    }
  }

  /** Bits above and below place n. */
  lemma {:induction false} SplitBits(x: nat, m: nat, n: nat)
    ensures Bits(x, m + n) == Bits(Shr(x, n), m) + Bits(x, n)
    decreases n
  {
    if n != 0 {
      SplitBits(x / 2, m, n - 1);
    }
  }

  /** Bits of a number put together from two. */
  lemma {:induction false} JoinBits(x: nat, y: nat, m: nat, n: nat)
    requires Fits(y, n)
    ensures Bits(Shl(x, n) + y, m + n) == Bits(x, m) + Bits(y, n)
    decreases n
  {
    if n != 0 {
      JoinBits(x, y / 2, m, n - 1);
    }
  }

  /** Higher bits do not show. */
  lemma {:induction false} BitsOfLow(x: nat, k: nat, n: nat)
    requires n <= k
    ensures Bits(Low(x, k), n) == Bits(x, n)
    decreases n
  {
    if n != 0 {
      BitsOfLow(x / 2, k - 1, n - 1);
    }
  }

  // ----- Powers of two, where the widths of C need them -----

  function Pow2(n: nat): (p: nat)
    ensures 1 <= p
  {
    if n == 0 then 1 else 2 * Pow2(n - 1)
  }

  lemma HalfMod(x: nat, p: nat)
    requires 1 <= p
    ensures x % (2 * p) == 2 * (x / 2 % p) + x % 2
    ensures x / (2 * p) == x / 2 / p
  {
    var h := x / 2;
    assert x == (h / p) * (2 * p) + (2 * (h % p) + x % 2);
    DivModUnique(x, h / p, 2 * (h % p) + x % 2, 2 * p);
  }

  lemma {:induction false} LowIsMod(x: nat, n: nat)
    ensures Low(x, n) == x % Pow2(n)
    decreases n
  {
    if n != 0 {
      LowIsMod(x / 2, n - 1);
      HalfMod(x, Pow2(n - 1));
    }
  }

  lemma {:induction false} ShrIsDiv(x: nat, n: nat)
    ensures Shr(x, n) == x / Pow2(n)
    decreases n
  {
    if n != 0 {
      ShrIsDiv(x / 2, n - 1);
      HalfMod(x, Pow2(n - 1));
    }
  }

  /** x & 0xFF. */
  lemma AndByte(x: nat)
    ensures And(x, 0xFF) == x % 0x100 == Low(x, 8)
  {
    assert Mask(8) == 0xFF;
    assert Pow2(8) == 0x100;
    AndMask(x, 8);
    LowIsMod(x, 8);
  }
}
