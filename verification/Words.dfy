/** Machine words: the unsigned widths the C code computes in, and the truncations it applies. */
module Words {
  const TWO_TO_THE_32: int := 0x1_0000_0000
  const TWO_TO_THE_64: int := 0x1_0000_0000_0000_0000

  type u8 = x: int | 0 <= x < 0x100
  type u32 = x: int | 0 <= x < 0x1_0000_0000
  type u64 = x: int | 0 <= x < 0x1_0000_0000_0000_0000

  /** The value of an `unsigned` or `uint32_t` expression whose exact value is `x`. */
  function Wrap32(x: int): u32 {
    if 0 <= x < 0x1_0000_0000 then x else x % 0x1_0000_0000
  }

  /** The value of a `uint64_t` expression whose exact value is `x`. */
  function Wrap64(x: int): u64 {
    if 0 <= x < 0x1_0000_0000_0000_0000 then x else x % 0x1_0000_0000_0000_0000
  }

  /** A quotient and a remainder in range are the quotient and the remainder. */
  lemma DivModUnique(x: int, q: int, r: int, m: int)
    requires 0 <= r < m && x == q * m + r
    ensures x / m == q && x % m == r
  {
    var d := q - x / m;
    assert d * m == x % m - r by {
      assert d * m == q * m - (x / m) * m;
    }
    assert -m < d * m < m;
    assert d == 0 by {
      NoMultipleBetween(d, m);
    }
  }

  lemma NoMultipleBetween(d: int, m: int)
    requires 0 < m && -m < d * m < m
    ensures d == 0
  {
    if d >= 1 {
      ProductAtLeast(d, m);
    } else if d <= -1 {
      ProductAtLeast(-d, m);
    }
  }

  lemma ProductAtLeast(d: int, m: int)
    requires 1 <= d && 0 <= m
    ensures d * m >= m
  {
  }

  /** Scaling x < bound down to a range of `size` values stays below `size`. */
  lemma ScaleBelow(size: nat, x: nat, bound: nat)
    requires 0 < size && x < bound
    ensures 0 <= size * x < size * bound
    ensures 0 <= size * x / bound < size
  {
    var q := size * x / bound;
    assert q * bound <= size * x < size * bound;
    assert (size - q) * bound > 0;
  }

  /** `k` turns of a cycle of length `m`: their product, kept as a sum so that arithmetic stays linear. */
  function Turns(k: nat, m: nat): nat {
    if k == 0 then 0 else Turns(k - 1, m) + m
  }

  lemma {:induction false} TurnsIsProduct(k: nat, m: nat)
    ensures Turns(k, m) == k * m
  {
    if k != 0 {
      TurnsIsProduct(k - 1, m);
      assert (k - 1) * m + m == k * m;
    }
  }

  lemma OneTurn(a: int, m: int)
    requires 0 < m
    ensures (a + m) % m == a % m
  {
    assert a + m == (a / m + 1) * m + a % m;
    DivModUnique(a + m, a / m + 1, a % m, m);
  }

  /** Whole turns do not move a point of the cycle. */
  lemma {:induction false} TurnsDropOut(a: int, k: nat, m: nat)
    requires 0 < m
    ensures (a + Turns(k, m)) % m == a % m
  {
    if k != 0 {
      TurnsDropOut(a, k - 1, m);
      OneTurn(a + Turns(k - 1, m), m);
    }
  }

  lemma SmallMod(a: nat, m: nat)
    requires a < m
    ensures a % m == a
  {
  }

  /** Inside one turn of a cycle, equal points are equal times. */
  lemma SamePointSameTime(a: int, b: int, m: int)
    requires 0 < m && -m < b - a < m && a % m == b % m
    ensures a == b
  {
    assert b - a == (b / m - a / m) * m;
    NoMultipleBetween(b / m - a / m, m);
  }

  /** The only time less than a turn away from turn `k` of a point that shows that point is turn `k` itself. */
  lemma TimeOfPoint(time: int, k: nat, point: int, m: nat)
    requires 0 <= point < m && time % m == point
    requires -(m as int) < time - (Turns(k, m) + point) < m
    ensures time == Turns(k, m) + point
  {
    SmallMod(point, m);
    TurnsDropOut(point, k, m);
    SamePointSameTime(time, Turns(k, m) + point, m);
  }
}
